# Organisation chart editor and viewer — a Dafny model

A Dafny model of a browser tool for drawing a university's staff organisation chart. It
has two parts:

- **The editor** (`app.js`, class `OrgChartApp`).
  - It keeps department boxes in a JavaScript `Map` keyed by id (`node-1`, `node-2`, …).
  - Boxes are added, edited, dragged and deleted in cascade.
  - Each box's `parentId` links it to the box above it.
  - `autoLayout` arranges every tree hanging from a root.
  - The table and the id counter are saved as `{nodes, nextId}`.
- **The viewer** (`view.js`, class `OrgChartViewer`).
  - It reads the saved document and fills in defaults for older records.
    - Legacy one-person boxes become a one-member list.
    - Missing connection sides become bottom and top.
  - It draws a connector for every linked box, routed by the pair of sides it joins. The image export draws the same connectors.
  - It zooms between 25% and 200%.

Modules:

| module | models |
|---|---|
| `Wrappers` | `Option` |
| `JsMap` | an insertion-ordered `Map<string, V>`: `set`, `delete`, `values()`, `clear()`, and filling a map in a `forEach` loop |
| `JsFalsy` | the `a \|\| d` defaults on texts, numbers and the `nextId` field |
| `Geometry` | points, box sizes, bounding rectangles, midpoints |
| `NumberText` | the decimal text of the id counter in `` `node-${n}` `` |
| `AppStore` | the editor's table, `getChildren`, and the parent chain (descendants, subtrees) |
| `AppDelete` | the table after each step of the cascading delete |
| `AppLayout` | `autoLayout` as a list of coordinate writes, its widths, rows and spans, and what it leaves alone |
| `AppEditor` | The helpers below, plus the class `OrgChartApp`, whose fields are updated in place (`nodes`, `nextId`, the drag state, the saved entry). Its methods model the source's methods. Helpers: <ul><li>node creation and its defaults</li><li>placement of a new box</li><li>drag clamping</li><li>`drawConnection`</li><li>save and load</li></ul> |
| `ViewNodes` | the viewer's saved and kept node records, and load normalisation |
| `ViewConnectors` | `getAnchorPoint`, the side classification, the three route shapes, which nodes get a line, and the export's shifted lines |
| `ViewZoom` | the zoom clamp, the step, and the wheel and key bindings |
| `Viewer` | `loadFromLocalStorage` as a function on the viewer's state, and the class `OrgChartViewer` with its fields, its loops and its zoom methods |

Modelling choices:

- **Browser inputs become parameters.**
  - The `localStorage` entry and a picked file are parameters, holding a document already parsed by `JSON.parse` (or marking that nothing was stored, that the text did not parse, or that it parsed to `null`). The editor's saved entry is an `Option<Document>`: an entry that does not parse or parses to `null` makes `loadFromLocalStorage` throw into its `catch` before changing anything, which is the same as no entry, so it is `None`.
  - `FileReader.onload` runs after `loadFromFile` returns; the model reads the file at once.
  - The rendered sizes of boxes are parameters too: an `Option<Size>` for each box in the editor, and in the viewer a map from node id to bounding rectangle plus the container's rectangle.
- **Numbers.**
  - Coordinates, widths and zoom levels are `real`. Midpoints and the 0.1 zoom step are exact rationals rather than doubles.
  - The id counter is an `int`.
- **Falsy tests.** JavaScript's falsy tests are written out.
  - A coordinate of `0` becomes `100` in `createNode`, as in the source.
  - The empty text counts as a missing field.
  - A `nextId` that is missing or `0` reads as `1`.
- **Connection sides in the viewer.**
  - Direction texts are classified once by `SideOf` into `Top`, `Bottom`, `Left`, `Right` or `Centre`.
  - `Centre` stands for any other text. `getAnchorPoint`'s default case gives the centre for such a text, and the router then treats it as neither vertical nor horizontal.
- **Termination.**
  - `deleteNode` terminates only when the node is not on a cycle of parent links, so `!Descendant(nodes, id, id)` is its precondition.
  - The layout terminates when no root lies on such a cycle (`LayoutTerminates`), which holds whenever no node has the empty id.

## Model

| member | source | states |
|---|---|---|
| JsMap.Empty | app.js:5 | `new Map()` is an empty, well-formed table |
| JsMap.Set | app.js:66 | `map.set`: the entry gets the value. A new key goes to the end of the order; an existing key keeps its place |
| JsMap.Without | app.js:105-118 | keeps exactly the keys outside the deleted set, in order, without repeats |
| JsMap.WithoutTwice | app.js:105-118 | removing two sets of keys, one after the other, is removing their union |
| JsMap.DeleteAll | app.js:105-118 | `map.delete` once per key removes exactly those entries and those keys from the order |
| JsMap.DeleteAllTwice | app.js:105-118 | two rounds of deletes compose into one |
| JsMap.DeleteNothing | app.js:105-118 | deleting no key leaves the table as it was |
| JsMap.Values | app.js:430 | `Array.from(map.values())` lists every value once, in insertion order |
| JsMap.SetAll | app.js:454-458 | a `forEach` that sets every value under its key keeps the table well-formed |
| JsMap.SetAllStep | view.js:272-292 | one more turn of the fill loop is one more `set` |
| JsMap.SetAllValues | app.js:429-460 | filling an empty map with the values of a table, each under its own key, rebuilds that table, order included |
| JsMap.SetAllPrefix | app.js:454-458 | every prefix of a table's values rebuilds the matching prefix of the table |
| JsMap.SetAllLast | view.js:272-292 | a value that no later value shares its key with is what the filled map holds under that key |
| JsFalsy.TextOr | view.js:278-289 | `t \|\| d`: an empty text gives the default and a non-empty one is kept |
| JsFalsy.NumberOr | app.js:62-63 | `v \|\| d`: 0 gives the default and any other number is kept |
| JsFalsy.NextIdOr1 | app.js:443 | `data.nextId \|\| 1`: a missing or zero counter gives 1, any other is kept, and the result is never 0 |
| Geometry.Half | view.js:123 | the midpoint is equally far from both ends |
| NumberText.DigitChar | app.js:55 | a digit's character lies between `'0'` and `'9'` and has the digit's value |
| NumberText.Digits | app.js:55 | the decimal digits of a natural number are all digits, with no leading zero |
| NumberText.Decimal | app.js:55 | an integer's text is never empty |
| NumberText.DigitsRoundTrip | app.js:55 | reading the digits back gives the number |
| NumberText.DecimalRoundTrip | app.js:55 | reading an integer's text back gives the integer, negatives included |
| NumberText.DecimalInjective | app.js:55 | different counters give different texts |
| AppStore.KeysWithParent | app.js:120-128 | the scan keeps exactly the stored keys whose node has `parentId === p` |
| AppStore.KeysWithParentDistinct | app.js:120-128 | the scan repeats no key |
| AppStore.KeysWithParentNext | app.js:122-126 | one more key scanned is appended exactly when its node has parent `p` |
| AppStore.KeysWithParentOrdered | app.js:120-128 | the kept keys come in table order |
| AppStore.Children | app.js:120-128 | `getChildren(p)` returns the stored node of each kept id, in that order |
| AppStore.ChildrenExactly | app.js:120-128 | a node is returned exactly when it is stored and its parent is `p`, and the result follows insertion order |
| AppStore.ChildrenOfIds | app.js:120-128 | the stored nodes of the kept ids, in order, are `getChildren`'s result |
| AppStore.InSubtrees | app.js:105-118 | a node is in a union of subtrees exactly when it is in one of them |
| AppStore.DescendantStored | app.js:105-118 | a descendant is a stored node |
| AppStore.UpCompose | app.js:105-118 | following parent links `a` times and then `n` more is following them `a + n` times |
| AppStore.ChildIsDescendant | app.js:120-128 | a child is a descendant of its parent |
| AppStore.DescendantOfChild | app.js:105-118 | below a child is below its parent |
| AppStore.DescendantSplit | app.js:105-118 | everything below a node is a child of it or below a child of it |
| AppStore.CycleThroughParent | app.js:105-118 | a cycle through a child passes through its parent |
| AppStore.BelowChildSmaller | app.js:105-118 | the nodes below a child are strictly fewer than those below an acyclic parent, so the recursion ends |
| AppStore.BelowIsChildSubtrees | app.js:105-118 | the nodes below a node are exactly its children's subtrees |
| AppStore.BelowInSubStore | app.js:105-118 | removing nodes never creates an ancestor link |
| AppStore.SubtreeDownClosed | app.js:105-118 | a subtree holds every child of each of its nodes |
| AppStore.UpSurvives | app.js:105-118 | after a down-closed set is deleted, a surviving node keeps its parent chain |
| AppStore.DescendantSurvives | app.js:105-118 | after a down-closed set is deleted, a surviving descendant is still a descendant |
| AppDelete.Pruned | app.js:107-113 | the table after the first `i` children's subtrees are deleted is well-formed |
| AppDelete.SubtreesDownClosed | app.js:107-113 | the deleted subtrees hold every child of each of their members |
| AppDelete.SubtreeSurvives | app.js:107-113 | deleting a down-closed set that misses a subtree leaves that subtree unchanged |
| AppDelete.EarlierSiblingsApart | app.js:107-113 | the next child's subtree shares no node with the earlier children's subtrees |
| AppDelete.SiblingApart | app.js:107-113 | two different children of an acyclic node have disjoint subtrees |
| AppDelete.DeleteChildStep | app.js:107-113 | in each turn the next child is still stored, is acyclic, has fewer nodes below it than the parent, and deleting its subtree gives the next pruned table |
| AppDelete.PruneNext | app.js:107-113 | deleting the next child's subtree in the current table gives the next pruned table |
| AppDelete.ChildSurvives | app.js:107-113 | the next child's subtree is untouched by the earlier turns |
| AppDelete.DeleteLastStep | app.js:105-118 | with every child's subtree gone, deleting the node itself leaves the table without the whole subtree |
| AppDelete.DeleteLeavesNoOrphans | app.js:105-118 | no node left after the delete has its parent inside the deleted subtree |
| AppLayout.IsRoot | app.js:388 | no ensures of its own: a root's `parentId` is falsy, `null` or `""`; `RootKeys` and `RootIds` state what the filter keeps |
| AppLayout.RowOf | app.js:408 | the row of a level is 100 or lower on the page, and strictly lower below level 0 |
| AppLayout.RootKeys | app.js:388-389 | `filter(n => !n.parentId)` keeps exactly the stored keys whose `parentId` is falsy |
| AppLayout.RootKeysDistinct | app.js:388-389 | the filter repeats no key |
| AppLayout.RootIds | app.js:388-389 | the roots, in table order, without repeats |
| AppLayout.LayoutTerminatesWithoutEmptyId | app.js:387-426 | when no node has the empty id, the layout terminates from every root |
| AppLayout.RootChainEnds | app.js:388-389 | when no node has the empty id, the parent chain of a root ends after one step |
| AppLayout.LayoutTree | app.js:392-416 | a subtree's width is at least 180, and it writes at least one node |
| AppLayout.LayoutChildren | app.js:398-405 | a non-empty list of children spans at least 180, and no list spans a negative width |
| AppLayout.LayoutRoots | app.js:418-422 | a non-empty list of roots writes something |
| AppLayout.TreeUnfold | app.js:392-416 | a subtree's plan is its children's writes, then the node at `offset + w/2 - 75` on row `100 + 150·level` with `w = max(total, 180)` |
| AppLayout.ChildrenUnfold | app.js:398-405 | the first child starts at the offset; the next one starts at the offset plus the first one's width |
| AppLayout.RootsUnfold | app.js:418-422 | successive roots start at the previous offset plus the previous width plus 50 |
| AppLayout.LayoutForest | app.js:387-426 | the layout writes nothing exactly when there are no roots |
| AppLayout.Place | app.js:413-414 | one write changes only the coordinates of the written node |
| AppLayout.ApplyPlacements | app.js:387-426 | writes keep the table's keys, order and well-formedness |
| AppLayout.LastWrite | app.js:387-426 | the last write to a node is a write to that id, or there is none |
| AppLayout.ApplyPlacementsValue | app.js:387-426 | after the writes, each node has the coordinates of its last write, or its old ones if none |
| AppLayout.ApplyPlacementsConcat | app.js:387-426 | performing two lists of writes in turn is performing their concatenation |
| AppLayout.ApplyPlacementsTwice | app.js:387-426 | performing the same writes twice is performing them once |
| AppLayout.PlacementsKeepLinks | app.js:387-426 | writes keep every id, its place in the order, and its parent link |
| AppLayout.KeysWithParentLinks | app.js:120-128 | the children scan depends only on parent links |
| AppLayout.RootKeysLinks | app.js:388-389 | the roots depend only on parent links |
| AppLayout.UpLinks | app.js:387-426 | the parent chain depends only on parent links |
| AppLayout.DescendantLinks | app.js:387-426 | so does the descendant relation |
| AppLayout.BelowLinks | app.js:387-426 | so do the nodes below a node and its children |
| AppLayout.LayoutTreeLinks | app.js:392-416 | a subtree's plan does not depend on where its nodes were before |
| AppLayout.LayoutChildrenLinks | app.js:398-405 | nor does the plan of a list of children |
| AppLayout.LayoutRootsLinks | app.js:418-422 | nor do the roots' writes |
| AppLayout.LayoutForestLinks | app.js:387-426 | two tables with the same links get the same layout, whatever their coordinates |
| AppLayout.AutoLaidOut | app.js:387-426 | the table after the layout is well-formed, with the same links, and can be laid out again |
| AppLayout.AutoLayoutIdempotent | app.js:387-426 | running the layout a second time moves nothing |
| AppLayout.IdsConcat | app.js:387-426 | the ids written by two lists of writes are the ids of each |
| AppLayout.SubtreesCons | app.js:398-405 | the subtrees of a list are the first one's subtree plus the rest's |
| AppLayout.LayoutTreeIds | app.js:392-416 | a subtree's layout writes exactly the nodes of that subtree |
| AppLayout.LayoutChildrenIds | app.js:398-405 | the children's layouts write exactly their subtrees |
| AppLayout.LayoutRootsIds | app.js:418-422 | the roots' layouts write exactly their subtrees |
| AppLayout.SubtreeDepth | app.js:392-416 | every node of a subtree reaches its top after some number of steps up |
| AppLayout.ChainThroughSibling | app.js:398-405 | a node below two siblings puts the parent on a cycle |
| AppLayout.SiblingsShareNothing | app.js:398-405 | two different children of an acyclic node have no node in common below them |
| AppLayout.FirstChildApart | app.js:398-405 | the first child's subtree shares no node with the later children's subtrees |
| AppLayout.RootsShareNothing | app.js:418-422 | when no node has the empty id, two different roots have no node in common below them |
| AppLayout.DistinctConcat | app.js:387-426 | two lists of writes that each write a node once, and write different nodes, together write each node once |
| AppLayout.LayoutTreeOnce | app.js:392-416 | a subtree's layout writes each node once |
| AppLayout.LayoutChildrenOnce | app.js:398-405 | the children's layouts write each node once |
| AppLayout.FirstChildWritesApart | app.js:398-405 | the first child's writes and the later children's writes touch different nodes |
| AppLayout.LayoutRootsOnce | app.js:418-422 | when no node has the empty id, the roots' layouts write each node once |
| AppLayout.FirstRootWritesApart | app.js:418-422 | the first root's writes and the later roots' writes touch different nodes |
| AppLayout.LastWriteOfDistinct | app.js:387-426 | in writes that touch each node once, a node's last write is its only write |
| AppLayout.NoOverlapConcat | app.js:398-405 | two non-overlapping lists of writes, the first one left of the second on every shared row, do not overlap together |
| AppLayout.LayoutTreeSpan | app.js:392-416 | a subtree's 150-wide boxes lie strictly inside its span, on its row or lower, and boxes on one row do not overlap |
| AppLayout.LayoutChildrenSpan | app.js:398-405 | the children's boxes lie inside the span of their widths' sum, so sibling spans are disjoint |
| AppLayout.LayoutRootsSpan | app.js:418-422 | every root tree's box lies right of the starting offset, and no two boxes on a row overlap |
| AppLayout.ParentWrittenAboveLeft | app.js:392-416 | a node written below its parent stays so when writes are appended |
| AppLayout.ParentWrittenAboveRight | app.js:392-416 | it also stays so when writes are prepended |
| AppLayout.LayoutTreeLevels | app.js:392-416 | in a subtree's writes, each node but the top is written one row below its parent, and the parent is written later |
| AppLayout.LayoutChildrenLevels | app.js:398-405 | every child is on its level's row and every deeper node lies one row below its parent |
| AppLayout.LayoutRootsLevels | app.js:418-422 | every written node is a root on row 100 or one row below its written parent |
| AppLayout.LeafCount | app.js:392-416 | a subtree has at least one leaf |
| AppLayout.LeafCountUnder | app.js:398-405 | a list of children has at least as many leaves as children |
| AppLayout.Slots | app.js:397 | `n` slots of 180 have a non-negative width |
| AppLayout.SlotsAdd | app.js:404 | widths of slots add up |
| AppLayout.LayoutTreeWidth | app.js:392-416 | a subtree's width is 180 times its number of leaves |
| AppLayout.LayoutChildrenWidth | app.js:398-405 | the children's total width is 180 times their number of leaves |
| AppLayout.CardDisjointUnion | app.js:398-405 | disjoint leaf sets add up in size |
| AppLayout.LeafCountIsLeaves | app.js:392-416 | the count the layout makes is the number of childless nodes in the subtree |
| AppLayout.LeavesOfLeaf | app.js:396-397 | a node without children is its subtree's only leaf |
| AppLayout.LeavesOfInner | app.js:398-405 | an inner node's leaves are its children's leaves |
| AppLayout.LeafCountUnderIsLeaves | app.js:398-405 | the count for a list of children is the number of leaves under them |
| AppLayout.LeavesUnderCons | app.js:398-405 | the leaves under a list of siblings are the first one's plus the rest's, with no overlap |
| AppLayout.AutoLayoutWrites | app.js:387-426 | when no node has the empty id, the layout writes each node reached from a root exactly once and no other node. Boxes on a row never overlap, and every node is a root on the top row or one row below its parent |
| AppLayout.LaidOutStored | app.js:387-426 | the laid-out nodes are stored nodes |
| AppLayout.AutoLayoutMoves | app.js:413-414 | when no node has the empty id, each written node ends with the coordinates of its write and keeps its other fields |
| AppLayout.AutoLayoutKeeps | app.js:387-426 | for every store the layout can finish, it changes only coordinates, and a node not reached from any root keeps its coordinates |
| AppLayout.LastWriteNone | app.js:387-426 | a node that no write names has no last write |
| AppLayout.WriteOf | app.js:387-426 | every laid-out node has a write |
| AppLayout.AutoLayoutRows | app.js:413-414 | after the layout a root is on row 100 and every other laid-out node is 150 below its parent |
| AppLayout.RootRow | app.js:418-422 | when no node has the empty id, a root's write is on the top row |
| AppLayout.ParentRow | app.js:392-416 | when no node has the empty id, a non-root's write is one row below the final position of its parent |
| AppLayout.AutoLayoutApart | app.js:387-426 | after the layout, two different laid-out boxes on the same row do not overlap, each box being 150 wide (the width the `- 75` centring at app.js:406 implies) |
| AppEditor.NodeId | app.js:55 | the id is `node-` followed by the counter's decimal text |
| AppEditor.NodeIdInjective | app.js:55 | different counter values give different ids |
| AppEditor.NewNode | app.js:56-64 | the new node has the given id. Each falsy field takes its default: department name `새 부서`, `parentId` `null`, coordinates 100. Every other field is as given |
| AppEditor.CreateNodeFresh | app.js:54-72 | while the counter is ahead of the stored ids, creating a node adds exactly one new key at the end, keeps every other node, and keeps the counter ahead |
| AppEditor.FreshAfterDelete | app.js:105-118 | deleting nodes keeps the counter ahead of the ids |
| AppEditor.ParentField | app.js:281 | an empty form field means a root, and any other text names that parent (`dataset.parentId \|\| null`) |
| AppEditor.AddPosition | app.js:282-294 | A child goes 180 right per existing sibling and 150 below its parent. A root goes to `x = 100 + 200 · roots`, `y = 100`. An unknown parent gives no node |
| AppEditor.RootIdsAfterAdd | app.js:289-294 | a new root goes to the end of the roots |
| AppEditor.ChildIdsAfterAdd | app.js:284-288 | a new child goes to the end of its parent's children |
| AppEditor.RootPositionAdvances | app.js:289-294 | adding a root moves the next root's place 200 to the right |
| AppEditor.ChildPositionAdvances | app.js:284-288 | adding a child moves the next sibling's place 180 to the right |
| AppEditor.RootKeysSameEntries | app.js:388-389 | the roots depend only on the listed entries |
| AppEditor.KeysWithParentSameEntries | app.js:120-128 | the children depend only on the listed entries |
| AppEditor.AtLeastZero | app.js:155-156 | `Math.max(0, v)` is the larger of `v` and 0 |
| AppEditor.DragTo | app.js:148-163 | The dragged node's corner follows the pointer minus the grab offset, clamped at 0 on each axis. Its other fields and every other node are unchanged |
| AppEditor.DragKeepsGrip | app.js:131-163 | away from the edges, the pointer stays at the same spot of the dragged box |
| AppEditor.ConnectorPath | app.js:208-237 | The path has 4 points, from the parent's bottom centre to the child's top centre. The first and last segments are vertical and equally long, and the middle one is horizontal. There is no path when a box is not rendered |
| AppEditor.LinkedChildren | app.js:197-206 | a line is drawn to exactly the stored nodes whose parent is set and stored |
| AppEditor.Snapshot | app.js:429-435 | the saved document holds every node in table order and the counter |
| AppEditor.Rebuilt | app.js:454-458 | the table rebuilt from a list is well-formed |
| AppEditor.RebuiltWellFormed | app.js:454-458 | setting nodes under their own ids keeps the table well-formed |
| AppEditor.RebuiltKeys | app.js:454-458 | the rebuilt table holds exactly the saved ids |
| AppEditor.SaveLoadRoundTrip | app.js:429-460 | loading what was saved gives back the same table, in the same order, and, for a counter other than 0, the same counter (a saved 0 reads back as 1) |
| AppEditor.ChildrenStart | app.js:398-405 | before the first child nothing is written |
| AppEditor.ChildTurn | app.js:398-405 | the next child is acyclic, in the original table and the current one, and below fewer nodes than its parent |
| AppEditor.ChildWrites | app.js:399-401 | a child's writes on the current table are those planned on the original table |
| AppEditor.ChildrenStep | app.js:398-405 | one turn of the children loop consumes the next child's plan and width |
| AppEditor.ChildrenDone | app.js:398-405 | after the loop, the writes and the total width are those of all children |
| AppEditor.TreeFinish | app.js:408-415 | placing the node above its span completes the subtree's plan and width |
| AppEditor.RootsStart | app.js:418 | before the root loop nothing is written and the offset is 100 |
| AppEditor.RootTurn | app.js:419-421 | the next root is not on a cycle, in the original table and the current one |
| AppEditor.RootsStep | app.js:419-421 | one turn of the root loop consumes the next root's writes, and the offset advances by its width plus 50 |
| AppEditor.RootsDone | app.js:418-422 | after the root loop, all the layout's writes are done |
| AppEditor.OrgChartApp.constructor | app.js:3-13 | An empty table, the counter at 1 and no drag, then the saved document is loaded if one exists |
| AppEditor.OrgChartApp.SaveToLocalStorage | app.js:429-435 | the saved entry becomes the snapshot of the table and the counter |
| AppEditor.OrgChartApp.LoadFromLocalStorage | app.js:437-468 | With nothing saved, nothing changes. Otherwise the counter is read (missing gives 1) and the table is rebuilt from the saved list, or left empty without one |
| AppEditor.OrgChartApp.LoadFromFile | app.js:487-529 | No file or unparsable text changes nothing; `null` clears the table and keeps the counter; otherwise the counter is read, and the table is cleared, or rebuilt from the list and then saved |
| AppEditor.OrgChartApp.Recreate | app.js:454-458 | the fill loop leaves the rebuilt table |
| AppEditor.OrgChartApp.CreateNode | app.js:54-72 | The node gets id `node-<counter>` and its defaults, the counter goes up by exactly 1, the node is set in the table, and the table is saved |
| AppEditor.OrgChartApp.GetChildren | app.js:120-128 | the loop returns exactly the stored nodes whose parent is the argument, in table order |
| AppEditor.OrgChartApp.DeleteNode | app.js:105-118 | the table loses exactly the node and its descendants and is saved |
| AppEditor.OrgChartApp.HandleNodeMouseDown | app.js:131-146 | a left press on a stored node starts dragging it and remembers the grab offset; any other button does nothing |
| AppEditor.OrgChartApp.HandleMouseMove | app.js:148-163 | while dragging, the dragged node moves as `DragTo` says; otherwise nothing changes |
| AppEditor.OrgChartApp.HandleMouseUp | app.js:165-173 | a drag ends and the table is saved; without a drag nothing changes |
| AppEditor.OrgChartApp.SubmitAdd | app.js:280-300 | the new node is placed as `AddPosition` says, or nothing happens for an unknown parent |
| AppEditor.OrgChartApp.SubmitEdit | app.js:301-311 | a stored node takes the three trimmed texts and keeps the rest, and the table is saved; an unknown id changes nothing |
| AppEditor.OrgChartApp.HandleFormSubmit | app.js:269-314 | Add mode gives exactly `SubmitAdd`'s new state: the node placed by `AddPosition`, or no change for an unknown parent. Edit mode gives exactly `SubmitEdit`'s: the three texts of a stored node replaced, or no change for an unknown id, and the counter kept. With no mode nothing changes |
| AppEditor.OrgChartApp.LayoutTreeAt | app.js:392-416 | the closure performs exactly its subtree's planned writes and returns the planned width |
| AppEditor.OrgChartApp.LayoutChildrenAt | app.js:398-405 | the children loop performs the children's planned writes and returns their total width |
| AppEditor.OrgChartApp.AutoLayout | app.js:387-426 | the table becomes `AutoLaidOut` of the old one and is saved; without a root nothing is saved |
| ViewNodes.MembersOf | view.js:275-283 | A non-empty member list is kept. An empty one becomes the older one-person record when its position or name is set, and stays empty otherwise |
| ViewNodes.Normalize | view.js:272-292 | Each default field that is falsy gets `vertical`, `bottom` or `top`. Every other field is copied, and the members are upgraded |
| ViewNodes.NormalizeRoundTrip | view.js:272-292 | reading a normalized node back changes nothing |
| ViewNodes.NormalizeIdempotent | view.js:272-292 | normalizing twice is normalizing once |
| ViewNodes.EditorNodeInViewer | view.js:272-292 | An editor's node shows its one person as its only member, is not independent, and is connected from the bottom to the top. Parent and position are kept |
| ViewNodes.NormalizeAll | view.js:272-292 | every saved node is normalized, in order |
| ViewNodes.Loaded | view.js:268-292 | the filled table keeps every node under its own id, normalized; which node each id holds is stated by `LoadedEntry` |
| ViewNodes.LoadedWellFormed | view.js:272-292 | each `set` of a normalized node keeps the table well-formed |
| ViewNodes.LoadedKeys | view.js:272-292 | the filled table holds exactly the saved ids |
| ViewNodes.LoadedEntry | view.js:272-292 | under the id of a saved node that no later node shares, the table holds that node normalized |
| ViewConnectors.SideOfText | view.js:157-171 | `SideOf` maps `top`, `bottom`, `left` and `right` to their sides and every other text to the centre, each case an if-and-only-if |
| ViewConnectors.AnchorPoint | view.js:150-172 | no ensures of its own: `getAnchorPoint`, whose cases `AnchorPointSides` and `AnchorOnBox` state |
| ViewConnectors.AnchorPointSides | view.js:150-172 | Without an element, the point is the node's position. Otherwise, relative to the container: top and bottom are the middles of those edges, left and right the middles of the sides, and any other direction the centre |
| ViewConnectors.AnchorOnBox | view.js:150-172 | every anchor lies on the box |
| ViewConnectors.Route | view.js:121-142 | no ensures of its own: the path classification, whose three shapes `RouteShape` states |
| ViewConnectors.RouteShape | view.js:121-142 | The route joins its two ends. It has 4 points when both sides are of one kind: vertical–horizontal–vertical through the middle row, or horizontal–vertical–horizontal through the middle column. It has 3 points through the midpoint otherwise |
| ViewConnectors.StartDirection | view.js:112 | a missing start side is `bottom` |
| ViewConnectors.EndDirection | view.js:113 | a missing end side is `top` |
| ViewConnectors.LoadedDirections | view.js:112-113 | on a loaded node the stored sides are used |
| ViewConnectors.Connector | view.js:105-146 | a node gets a line exactly when it is not independent and its parent is set, stored and not independent; the line runs from the parent to the node |
| ViewConnectors.ConnectorPoints | view.js:114-143 | the line is the route from the parent's anchor on the start side to the node's anchor on the end side |
| ViewConnectors.Connectors | view.js:105-146 | at most one line per node |
| ViewConnectors.LineOf | view.js:143 | a missing line adds nothing and a present one adds itself |
| ViewConnectors.ConnectorsStep | view.js:105-146 | one more node adds its line, if any, at the end |
| ViewConnectors.ExportConnectorsStep | view.js:375-424 | so does one more node in the export |
| ViewConnectors.ConnectorsMembers | view.js:105-146 | the lines for a list are exactly the lines of its linked nodes |
| ViewConnectors.LinesOfChart | view.js:102-148 | Every line ends at a stored, linked node, and starts at its stored, non-independent parent. Every stored, linked node gets a line |
| ViewConnectors.Shift | view.js:387-400 | a shifted point is moved by `(minX, minY)` |
| ViewConnectors.ShiftAll | view.js:387-415 | each point of a path is shifted |
| ViewConnectors.ExportConnector | view.js:375-424 | the export draws a line for exactly the linked nodes |
| ViewConnectors.ExportConnectors | view.js:375-424 | at most one exported line per node |
| ViewConnectors.RouteShift | view.js:387-415 | moving both ends of a route moves every point of it, midpoints included |
| ViewConnectors.ExportConnectorShifted | view.js:375-424 | an exported line is its on-screen line moved by `(minX, minY)` |
| ViewConnectors.ExportMatchesScreen | view.js:307-451 | the exported image holds exactly the lines on screen, in the same order |
| ViewZoom.ClampZoom | view.js:195-196 | the level is always within [0.25, 2], a level in range is kept, and one outside goes to the nearer bound |
| ViewZoom.ClampIdempotent | view.js:195-196 | clamping twice is clamping once |
| ViewZoom.ClampMonotone | view.js:195-196 | a higher request never gives a lower level |
| ViewZoom.ZoomInThenOut | view.js:183-189 | in exact arithmetic, away from the bounds, zooming in then out returns to the start (in doubles `1.1 - 0.1` is not `1`) |
| ViewZoom.ZoomAtBounds | view.js:183-189 | zooming in at 2 or out at 0.25 stays there |
| ViewZoom.WheelDelta | view.js:175-181 | scrolling down zooms out by 0.1, otherwise in |
| ViewZoom.KeyCommand | view.js:52-64 | Ctrl with `+` or `=` zooms in, with `-` or `_` out, and with `0` resets. Any other key does nothing |
| Viewer.Load | view.js:234-305 | Missing, unparsable or `null` text changes nothing. Otherwise the counter is read (missing gives 1), and non-empty title and date replace the old ones. The table is cleared. With a node list, it is refilled from that list, the lines are redrawn and a saved spacing replaces the old one. Without one, the lines and spacing are kept. A well-formed table stays well-formed |
| Viewer.LoadIdempotent | view.js:234-305 | loading the same text twice changes nothing more |
| Viewer.LoadedTable | view.js:268-292 | after a load with a node list, the table is well-formed, holds exactly the saved ids, and under each id holds the last saved node with that id, normalized |
| Viewer.FromEditorFile | view.js:234-305 | a document written by the editor has nodes but no title, date or spacing |
| Viewer.EditorFileKeepsHeader | view.js:246-253 | loading an editor's document keeps the viewer's title, date and spacing |
| Viewer.OrgChartViewer.constructor | view.js:3-34 | the default header texts, zoom 1 and spacing 8, then a load from the saved entry |
| Viewer.OrgChartViewer.LoadFromLocalStorage | view.js:234-305 | the new state is `Load` of the old one, and the table stays well-formed |
| Viewer.OrgChartViewer.RefillNodes | view.js:272-292 | the loop leaves the table `Loaded` from the saved list |
| Viewer.OrgChartViewer.UpdateConnections | view.js:102-148 | the lines become exactly those of the linked nodes, in table order |
| Viewer.OrgChartViewer.ScreenLines | view.js:105-146 | the loop collects the lines of the linked nodes in table order |
| Viewer.OrgChartViewer.ExportLines | view.js:375-424 | the export's loop draws exactly the lines shown on screen |
| Viewer.OrgChartViewer.SetZoom | view.js:195-196 | the zoom becomes the clamped level |
| Viewer.OrgChartViewer.ZoomIn | view.js:183-185 | the zoom becomes the clamp of the current level plus 0.1 |
| Viewer.OrgChartViewer.ZoomOut | view.js:187-189 | the zoom becomes the clamp of the current level minus 0.1 |
| Viewer.OrgChartViewer.ZoomReset | view.js:191-193 | the zoom becomes 1 |
| Viewer.OrgChartViewer.HandleMouseWheel | view.js:175-181 | with Ctrl the wheel zooms by its step; without Ctrl nothing changes |
| Viewer.OrgChartViewer.HandleKeyDown | view.js:52-64 | each key command zooms in, out or resets, and any other key changes nothing |

## Left out

- DOM rendering and measurement are not modelled.
  - Not modelled: `renderNode`, `updateNodeElement`, `applyMemberGap`, `selectNode`, `deselectAll`, the modals, the context menu, CSS transforms, and SVG elements.
  - Rendered box sizes and rectangles are parameters instead.
  - Paths are lists of points, not SVG `d` strings.
- `escapeHtml` is not modelled: it relies on the browser's `textContent`/`innerHTML`.
- Event wiring is not modelled: the Escape key, and the editor's Delete key and context-menu delete with their `confirm` prompts. The delete itself is modelled as `DeleteNode`.
- Other browser effects are not modelled: `alert` messages and the `console` output of the catch blocks.
- `localStorage`, `FileReader`, `Blob`/`URL` downloads and `JSON.parse`/`JSON.stringify` are not modelled.
  - The stored entry and the picked file are parsed documents passed as parameters.
  - Values of the wrong JSON type are not modelled: a number where a text is expected, a string `nextId`, a `members` value that is not a list.
- In both load loops, a malformed node entry that throws part way through leaves the table partly filled. The model instead takes the entries as well-formed records.
- `html2canvas`, the cloned nodes and the download in `exportAsImage` are not modelled. Only its connector loop is, with the sheet origin as the constants `(0, 0)` of the source.
- Zoom percentage rounding, the grid size and the title and date placement (`chartTitlePos`, `chartDatePos`) are not modelled: they only affect rendering.
- Floating point is not modelled. Coordinates and zoom are exact `real` numbers, so `0.1` steps have no rounding error and the clamp bounds are exact.
- The editor's dragged node is held as its id, not as an object reference. The table keeps the node records by value, so the object aliasing between `draggedNode` and the map entry is not modelled.
- AppLayout.AutoLayoutWrites: stated only for tables where no node has the empty id. Otherwise a root whose `parentId` is `""` is also a child of the node with id `""`, and is written twice. The layout model itself does not need the assumption to terminate or be defined.
- AppLayout.AutoLayoutMoves: stated only when no node has the empty id, for the reason above. With a node written twice, its last write wins (`ApplyPlacementsValue`).
- AppLayout.AutoLayoutRows: stated only when no node has the empty id, for the reason above.
- AppLayout.RootRow: stated only when no node has the empty id, for the reason above.
- AppLayout.ParentRow: stated only when no node has the empty id, for the reason above.
- AppLayout.AutoLayoutApart: stated only when no node has the empty id, for the reason above.
- AppEditor.OrgChartApp.AutoLayout: requires `LayoutTerminates`, that no root lies on a cycle of parent links. Otherwise the source's `layoutTree` recurses until the stack overflows, after some writes have been made. That can happen only when some node has the id `""`.
- AppEditor.OrgChartApp.DeleteNode: requires that the node is not on a cycle of parent links. The source recurses without end in that case.
