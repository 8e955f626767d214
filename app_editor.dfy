/** The editor (app.js `OrgChartApp`): the node table and the id counter it updates in
    place, the drag state, and the copy of the table it keeps in `localStorage`. The
    browser around it is reduced to parameters: the pointer position and button of a
    mouse event, the trimmed values of the form fields, the parsed content of a file,
    and the rendered sizes of node boxes. */
module AppEditor {
  import opened Wrappers
  import opened JsMap
  import opened AppStore
  import opened AppLayout
  import opened AppDelete
  import opened NumberText
  import opened Geometry
  import opened JsFalsy

  /** The department name a node gets when none is typed. */
  const DefaultDeptName: string := "새 부서"
  /** The coordinate a node gets when the one it is given is 0. */
  const DefaultCoordinate: real := 100.0
  /** A new child goes this far right of its parent per sibling it already has ... */
  const SiblingStep: real := 180.0
  /** ... and this far below its parent. */
  const ChildDrop: real := 150.0
  /** A new root goes this far right per root already present, from `x = 100`, `y = 100`. */
  const RootStep: real := 200.0

  // ---------------------------------------------------------------------------
  // Creating a node

  /** The id `createNode` gives its node: `node-` and the counter's decimal text. */
  function NodeId(n: int): (id: string)
    ensures |id| > 5 && id[..5] == "node-" && id[5..] == Decimal(n)
  {
    "node-" + Decimal(n)
  }

  /** Different counter values give different ids. */
  lemma NodeIdInjective(a: int, b: int)
    requires NodeId(a) == NodeId(b)
    ensures a == b
  {
    assert Decimal(a) == NodeId(a)[5..];
    assert Decimal(b) == NodeId(b)[5..];
    DecimalInjective(a, b);
  }

  /** The `data` argument of `createNode`. */
  datatype NodeData = NodeData(deptName: string, position: string, personName: string,
                               parentId: Option<string>, x: real, y: real)

  /** The node `createNode` builds: every falsy field replaced by its default. */
  function NewNode(id: string, data: NodeData): (n: Node)
    ensures n.id == id
    ensures n.deptName == (if data.deptName == "" then DefaultDeptName else data.deptName)
    ensures n.position == data.position && n.personName == data.personName
    ensures n.parentId == (if data.parentId == Some("") then None else data.parentId)
    ensures n.x == (if data.x == 0.0 then DefaultCoordinate else data.x)
    ensures n.y == (if data.y == 0.0 then DefaultCoordinate else data.y)
    ensures n.deptName != "" && n.parentId != Some("") && n.x != 0.0 && n.y != 0.0
  {
    Node(id, TextOr(data.deptName, DefaultDeptName), TextOr(data.position, ""),
         TextOr(data.personName, ""), if data.parentId == Some("") then None else data.parentId,
         NumberOr(data.x, DefaultCoordinate), NumberOr(data.y, DefaultCoordinate))
  }

  /** No id the counter will still hand out is taken. */
  ghost predicate Fresh(s: Store, n: int) {
    forall m :: m >= n ==> NodeId(m) !in s.entries
  }

  /** While the counter is ahead of every id in the table, `createNode` adds exactly one
      new node at the end of the order, leaves every other node as it was, and keeps the
      counter ahead. */
  lemma CreateNodeFresh(s: Store, n: int, data: NodeData)
    requires WellFormed(s) && Fresh(s, n)
    ensures NodeId(n) !in s.entries
    ensures Set(s, NodeId(n), NewNode(NodeId(n), data)).keys == s.keys + [NodeId(n)]
    ensures forall k :: k in s.entries ==> Set(s, NodeId(n), NewNode(NodeId(n), data)).entries[k] == s.entries[k]
    ensures Set(s, NodeId(n), NewNode(NodeId(n), data)).entries.Keys == s.entries.Keys + {NodeId(n)}
    ensures Fresh(Set(s, NodeId(n), NewNode(NodeId(n), data)), n + 1)
  {
    var r := Set(s, NodeId(n), NewNode(NodeId(n), data));
    forall m | m >= n + 1 ensures NodeId(m) !in r.entries {
      if NodeId(m) == NodeId(n) {
        NodeIdInjective(m, n);
      }
    }
  }

  /** Deleting nodes keeps the counter ahead of the ids. */
  lemma FreshAfterDelete(s: Store, n: int, d: set<string>)
    requires WellFormed(s) && Fresh(s, n)
    ensures Fresh(DeleteAll(s, d), n)
  {
  }

  // ---------------------------------------------------------------------------
  // Where `handleFormSubmit` puts a new node

  /** The form's `parentId` field: the empty text means a root (`|| null`), and any other
      text names that parent. */
  function ParentField(f: string): (p: Option<string>)
    ensures p == None <==> f == ""
    ensures f != "" ==> p == Some(f)
  {
    if f == "" then None else Some(f)
  }

  /** The coordinates the add branch passes to `createNode`: for a child, right of the
      parent by one step per sibling it already has and one row lower; for a root, one
      step right per root already present. Nothing when the parent is not stored: reading
      its `x` then fails before anything is created. */
  function AddPosition(s: Store, parent: Option<string>): (pt: Option<Point>)
    requires WellFormed(s)
    ensures parent.Some? ==> (pt.Some? <==> parent.value in s.entries)
    ensures parent.None? ==> pt == Some(Point(100.0 + RootStep * |RootIds(s)| as real, 100.0))
    ensures parent.Some? && parent.value in s.entries ==>
      pt == Some(Point(s.entries[parent.value].x + |Children(s, parent.value)| as real * SiblingStep,
                       s.entries[parent.value].y + ChildDrop))
  {
    match parent
    case None => Some(Point(100.0 + RootStep * |RootIds(s)| as real, 100.0))
    case Some(p) =>
      if p !in s.entries then None
      else Some(Point(s.entries[p].x + |Children(s, p)| as real * SiblingStep, s.entries[p].y + ChildDrop))
  }

  /** A node added under a new id goes to the end of the roots when it is one. */
  lemma RootIdsAfterAdd(s: Store, n: Node)
    requires WellFormed(s) && n.id !in s.entries
    ensures WellFormed(Set(s, n.id, n))
    ensures RootIds(Set(s, n.id, n)) == RootIds(s) + (if IsRoot(n) then [n.id] else [])
  {
    var t := Set(s, n.id, n);
    assert t.keys[..|t.keys| - 1] == s.keys;
    RootKeysSameEntries(s.keys, s.entries, t.entries);
  }

  /** A node added under a new id goes to the end of its parent's children. */
  lemma ChildIdsAfterAdd(s: Store, p: string, n: Node)
    requires WellFormed(s) && n.id !in s.entries
    ensures WellFormed(Set(s, n.id, n))
    ensures ChildIds(Set(s, n.id, n), p) == ChildIds(s, p) + (if n.parentId == Some(p) then [n.id] else [])
  {
    var t := Set(s, n.id, n);
    assert t.keys[..|t.keys| - 1] == s.keys;
    KeysWithParentSameEntries(s.keys, s.entries, t.entries, p);
  }

  /** Adding a root moves the place of the next root one step right. */
  lemma RootPositionAdvances(s: Store, n: Node)
    requires WellFormed(s) && n.id !in s.entries && IsRoot(n)
    ensures WellFormed(Set(s, n.id, n))
    ensures AddPosition(Set(s, n.id, n), None).value.x == AddPosition(s, None).value.x + RootStep
    ensures AddPosition(Set(s, n.id, n), None).value.y == AddPosition(s, None).value.y
  {
    RootIdsAfterAdd(s, n);
  }

  /** Adding a child of `p` moves the place of `p`'s next child one step right. */
  lemma ChildPositionAdvances(s: Store, p: string, n: Node)
    requires WellFormed(s) && n.id !in s.entries && n.parentId == Some(p) && p in s.entries
    ensures WellFormed(Set(s, n.id, n))
    ensures AddPosition(Set(s, n.id, n), Some(p)).value.x == AddPosition(s, Some(p)).value.x + SiblingStep
    ensures AddPosition(Set(s, n.id, n), Some(p)).value.y == AddPosition(s, Some(p)).value.y
  {
    var t := Set(s, n.id, n);
    ChildIdsAfterAdd(s, p, n);
    assert |Children(t, p)| == |Children(s, p)| + 1;
    assert t.entries[p] == s.entries[p];
  }

  lemma {:induction false} RootKeysSameEntries(ks: seq<string>, e1: map<string, Node>, e2: map<string, Node>)
    requires forall k :: k in ks ==> (k in e1 <==> k in e2) && (k in e1 ==> e1[k] == e2[k])
    ensures RootKeys(ks, e1) == RootKeys(ks, e2)
    decreases |ks|
  {
    if ks != [] {
      RootKeysSameEntries(ks[..|ks| - 1], e1, e2);
    }
  }

  lemma {:induction false} KeysWithParentSameEntries(ks: seq<string>, e1: map<string, Node>, e2: map<string, Node>, p: string)
    requires forall k :: k in ks ==> (k in e1 <==> k in e2) && (k in e1 ==> e1[k] == e2[k])
    ensures KeysWithParent(ks, e1, p) == KeysWithParent(ks, e2, p)
    decreases |ks|
  {
    if ks != [] {
      KeysWithParentSameEntries(ks[..|ks| - 1], e1, e2, p);
    }
  }

  /** The values of the form's text fields, already trimmed. */
  datatype FormFields = FormFields(deptName: string, position: string, personName: string)

  /** `nodeForm.dataset.mode` with the field that goes with it. */
  datatype FormMode = AddMode(parentField: string) | EditMode(nodeId: string) | NoMode

  // ---------------------------------------------------------------------------
  // Dragging

  /** `Math.max(0, v)`. */
  function AtLeastZero(v: real): (r: real)
    ensures r >= 0.0 && r >= v && (r == v || r == 0.0)
  {
    if v >= 0.0 then v else 0.0
  }

  /** The table after the dragged node follows the pointer: the node's corner goes to the
      pointer minus the grab offset, kept off the negative side of each axis; nothing else
      changes, not even the order. */
  function DragTo(s: Store, id: string, offset: Point, clientX: real, clientY: real): (r: Store)
    requires WellFormed(s) && id in s.entries
    ensures WellFormed(r) && r.keys == s.keys && r.entries.Keys == s.entries.Keys
    ensures r.entries[id].x >= 0.0 && r.entries[id].y >= 0.0
    ensures clientX - offset.x >= 0.0 ==> r.entries[id].x == clientX - offset.x
    ensures clientY - offset.y >= 0.0 ==> r.entries[id].y == clientY - offset.y
    ensures clientX - offset.x < 0.0 ==> r.entries[id].x == 0.0
    ensures clientY - offset.y < 0.0 ==> r.entries[id].y == 0.0
    ensures r.entries[id] == s.entries[id].(x := r.entries[id].x, y := r.entries[id].y)
    ensures forall k :: k in s.entries && k != id ==> r.entries[k] == s.entries[k]
  {
    Set(s, id, s.entries[id].(x := AtLeastZero(clientX - offset.x), y := AtLeastZero(clientY - offset.y)))
  }

  /** A node grabbed with the pointer at `(pointerX, pointerY)` and dragged to
      `(clientX, clientY)` keeps its corner at the same distance from the pointer, as long
      as it stays on the canvas. */
  lemma DragKeepsGrip(s: Store, id: string, pointerX: real, pointerY: real, clientX: real, clientY: real)
    requires WellFormed(s) && id in s.entries
    requires clientX - (pointerX - s.entries[id].x) >= 0.0 && clientY - (pointerY - s.entries[id].y) >= 0.0
    ensures clientX - DragTo(s, id, Point(pointerX - s.entries[id].x, pointerY - s.entries[id].y), clientX, clientY).entries[id].x
      == pointerX - s.entries[id].x
    ensures clientY - DragTo(s, id, Point(pointerX - s.entries[id].x, pointerY - s.entries[id].y), clientX, clientY).entries[id].y
      == pointerY - s.entries[id].y
  {
  }

  // ---------------------------------------------------------------------------
  // The connector line between a parent and a child

  /** `drawConnection`: from the bottom centre of the parent's box down to half way, across
      to above the child, and down to the top centre of the child's box. Nothing is drawn
      when either box is not rendered. */
  function ConnectorPath(parent: Node, child: Node, parentBox: Option<Size>, childBox: Option<Size>): (path: Option<seq<Point>>)
    ensures path.None? <==> parentBox.None? || childBox.None?
    ensures path.Some? ==> |path.value| == 4
    ensures path.Some? ==>
      path.value[0] == Point(parent.x + parentBox.value.width / 2.0, parent.y + parentBox.value.height)
      && path.value[3] == Point(child.x + childBox.value.width / 2.0, child.y)
    ensures path.Some? ==>
      path.value[0].x == path.value[1].x && path.value[2].x == path.value[3].x
      && path.value[1].y == path.value[2].y
      && path.value[1].y - path.value[0].y == path.value[3].y - path.value[2].y
  {
    match (parentBox, childBox)
    case (Some(pb), Some(cb)) =>
      var start := Point(parent.x + pb.width / 2.0, parent.y + pb.height);
      var end := Point(child.x + cb.width / 2.0, child.y);
      var midY := Half(start.y, end.y);
      Some([start, Point(start.x, midY), Point(end.x, midY), end])
    case _ => None
  }

  /** The children `updateConnections` draws a line to, in table order: those whose
      `parentId` is set and names a stored node. */
  function LinkedChildren(ks: seq<string>, e: map<string, Node>): (r: seq<string>)
    ensures forall k :: k in r <==>
      k in ks && k in e && e[k].parentId.Some? && e[k].parentId.value != "" && e[k].parentId.value in e
    decreases |ks|
  {
    if ks == [] then []
    else
      var front, last := ks[..|ks| - 1], ks[|ks| - 1];
      assert ks == front + [last];
      LinkedChildren(front, e)
        + (if last in e && e[last].parentId.Some? && e[last].parentId.value != "" && e[last].parentId.value in e
           then [last] else [])
  }

  // ---------------------------------------------------------------------------
  // The saved document

  /** What `saveToLocalStorage` and `saveToFile` write, `{nodes, nextId}`, once parsed back:
      a member that is missing (or not a list, for `nodes`) is `None`. */
  datatype Document = Document(nodes: Option<seq<Node>>, nextId: Option<int>)

  /** A file picked for `loadFromFile`, as `JSON.parse` leaves it. */
  datatype FileContent =
    | NoFile              // no file chosen
    | NotJson             // `JSON.parse` throws
    | JsonNull            // the text is `null`
    | Json(doc: Document) // any other value, read through its `nodes` and `nextId` members

  /** The document saved for a table and a counter. */
  function Snapshot(s: Store, n: int): (d: Document)
    requires WellFormed(s)
    ensures d.nodes.Some? && d.nextId == Some(n)
    ensures |d.nodes.value| == |s.keys|
    ensures forall i :: 0 <= i < |s.keys| ==> d.nodes.value[i] == s.entries[s.keys[i]]
  {
    Document(Some(Values(s)), Some(n))
  }

  function NodeKey(n: Node): string {
    n.id
  }

  /** The table rebuilt from a saved list: each node set under its own id, in list order,
      a later node with an id already seen replacing the earlier one in its place. */
  function Rebuilt(ns: seq<Node>): (t: Store)
    ensures WellFormed(t)
  {
    RebuiltWellFormed(Empty(), ns);
    SetAll(Empty(), ns, NodeKey)
  }

  lemma {:induction false} RebuiltWellFormed(t: Store, ns: seq<Node>)
    requires WellFormed(t)
    ensures WellFormed(SetAll(t, ns, NodeKey))
    decreases |ns|
  {
    if ns != [] {
      RebuiltWellFormed(t, ns[..|ns| - 1]);
    }
  }

  /** The ids of a list of nodes. */
  ghost function IdsOf(ns: seq<Node>): set<string> {
    set n | n in ns :: n.id
  }

  /** Each id in the saved list is in the rebuilt table, and no other. */
  lemma {:induction false} RebuiltKeys(t: Store, ns: seq<Node>)
    requires Valid(t)
    ensures SetAll(t, ns, NodeKey).entries.Keys == t.entries.Keys + IdsOf(ns)
    decreases |ns|
  {
    if ns != [] {
      var front := ns[..|ns| - 1];
      RebuiltKeys(t, front);
      assert ns == front + [ns[|ns| - 1]];
      assert IdsOf(ns) == IdsOf(front) + {ns[|ns| - 1].id};
    }
  }

  /** Loading what was saved gives back the same table, in the same order, and, when the
      counter is not 0, the same counter. A saved 0 reads back as 1 (`data.nextId || 1`). */
  lemma SaveLoadRoundTrip(s: Store, n: int)
    requires WellFormed(s)
    ensures Rebuilt(Snapshot(s, n).nodes.value) == s
    ensures n != 0 ==> NextIdOr1(Snapshot(s, n).nextId) == n
    ensures n == 0 ==> NextIdOr1(Snapshot(s, n).nextId) == 1
  {
    SetAllValues(s, NodeKey);
  }

  // ---------------------------------------------------------------------------
  // The loops of `autoLayout`, turn by turn

  /** After the children of `p` before the `i`th took `total` of the span starting at
      `start`, so that the next one starts at `at`: the writes done so far followed by those
      of the remaining children are the writes of all the children, and `total` and the
      remaining children's width add up to their width. */
  ghost predicate ChildrenRest(s0: Store, p: string, i: nat, level: nat, start: real, at: real, total: real,
                               done: seq<Placement>)
    requires WellFormed(s0) && !Descendant(s0, p, p)
  {
    i <= |ChildIds(s0, p)| && at == start + total
    && var kids := LayoutChildren(s0, p, ChildIds(s0, p), level, start);
    var rest := LayoutChildren(s0, p, ChildIds(s0, p)[i..], level, at);
    done + rest.writes == kids.writes && total + rest.width == kids.width
  }

  /** Before the first child, the remaining plan is the whole plan. */
  lemma ChildrenStart(s0: Store, p: string, level: nat, start: real)
    requires WellFormed(s0) && !Descendant(s0, p, p)
    ensures ChildrenRest(s0, p, 0, level, start, start, 0.0, [])
  {
    var cs := ChildIds(s0, p);
    assert cs[0..] == cs;
  }

  /** Before each turn over the children in `layoutTree`: the next child is not on a
      cycle in the table as it is now and has fewer nodes below it than `p`. */
  lemma ChildTurn(s0: Store, cur: Store, p: string, i: nat)
    requires WellFormed(s0) && !Descendant(s0, p, p) && i < |ChildIds(s0, p)|
    requires WellFormed(cur) && SameLinks(cur, s0)
    ensures !Descendant(s0, ChildIds(s0, p)[i], ChildIds(s0, p)[i])
    ensures !Descendant(cur, ChildIds(s0, p)[i], ChildIds(s0, p)[i])
    ensures Below(cur, ChildIds(s0, p)[i]) < Below(s0, p)
  {
    var c := ChildIds(s0, p)[i];
    assert c in ChildIds(s0, p);
    BelowChildSmaller(s0, c, p);
    BelowLinks(cur, s0, c);
    DescendantLinks(cur, s0);
  }

  /** The writes of one call of `layoutTree`, performed on the table the earlier calls left,
      extend the writes done so far. */
  lemma ChildWrites(s0: Store, before: Store, after: Store, c: string, level: nat, at: real,
                    done: seq<Placement>)
    requires WellFormed(s0) && !Descendant(s0, c, c)
    requires WellFormed(before) && SameLinks(before, s0) && before == ApplyPlacements(s0, done)
    requires !Descendant(before, c, c)
    requires after == ApplyPlacements(before, LayoutTree(before, c, level, at).writes)
    ensures LayoutTree(before, c, level, at) == LayoutTree(s0, c, level, at)
    ensures after == ApplyPlacements(s0, done + LayoutTree(s0, c, level, at).writes)
    ensures SameLinks(after, s0)
  {
    LayoutTreeLinks(s0, before, c, level, at);
    ApplyPlacementsConcat(s0, done, LayoutTree(s0, c, level, at).writes);
    PlacementsKeepLinks(s0, done + LayoutTree(s0, c, level, at).writes);
  }

  /** With the next child's writes and width taken, the remaining plan is that of the
      children after it. */
  lemma ChildrenStep(s0: Store, p: string, i: nat, level: nat, start: real, at: real, total: real,
                     w: real, at': real, total': real, done: seq<Placement>)
    requires WellFormed(s0) && !Descendant(s0, p, p) && i < |ChildIds(s0, p)|
    requires ChildrenRest(s0, p, i, level, start, at, total, done)
    ensures !Descendant(s0, ChildIds(s0, p)[i], ChildIds(s0, p)[i])
    ensures w == LayoutTree(s0, ChildIds(s0, p)[i], level, at).width && at' == at + w && total' == total + w ==>
      ChildrenRest(s0, p, i + 1, level, start, at', total', done + LayoutTree(s0, ChildIds(s0, p)[i], level, at).writes)
  {
    var cs := ChildIds(s0, p);
    var c := cs[i];
    assert c in cs;
    BelowChildSmaller(s0, c, p);
    if w == LayoutTree(s0, c, level, at).width && at' == at + w && total' == total + w {
      ChildrenUnfold(s0, p, cs[i..], level, at, at');
      assert cs[i..][1..] == cs[i + 1..];
    }
  }

  /** After the last child, the writes done are those of all the children, and the width
      taken is theirs. */
  lemma ChildrenDone(s0: Store, p: string, level: nat, start: real, at: real, total: real,
                     done: seq<Placement>)
    requires WellFormed(s0) && !Descendant(s0, p, p)
    requires ChildrenRest(s0, p, |ChildIds(s0, p)|, level, start, at, total, done)
    ensures done == LayoutChildren(s0, p, ChildIds(s0, p), level, start).writes
    ensures total == LayoutChildren(s0, p, ChildIds(s0, p), level, start).width
  {
    var cs := ChildIds(s0, p);
    assert cs[|cs|..] == [];
  }

  /** After the children, or with no child at all, placing the node above the span
      completes the writes of `layoutTree`, and the width of the span is what it returns. */
  lemma TreeFinish(s0: Store, cur: Store, p: string, level: nat, offset: real, total: real,
                   w: real, x: real)
    requires WellFormed(s0) && !Descendant(s0, p, p) && WellFormed(cur)
    requires ChildIds(s0, p) == [] ==> cur == s0 && total == SlotWidth
    requires ChildIds(s0, p) != [] ==>
      cur == ApplyPlacements(s0, LayoutChildren(s0, p, ChildIds(s0, p), level + 1, offset).writes)
      && total == LayoutChildren(s0, p, ChildIds(s0, p), level + 1, offset).width
    requires w == Max(total, SlotWidth) && x == offset + w / 2.0 - HalfBox
    ensures Place(cur, Placement(p, x, RowOf(level))) == ApplyPlacements(s0, LayoutTree(s0, p, level, offset).writes)
    ensures w == LayoutTree(s0, p, level, offset).width
    ensures SameLinks(Place(cur, Placement(p, x, RowOf(level))), s0)
  {
    var cs := ChildIds(s0, p);
    var kids := LayoutChildren(s0, p, cs, level + 1, offset);
    assert cur == ApplyPlacements(s0, kids.writes);
    var last := Placement(p, x, RowOf(level));
    TreeUnfold(s0, p, level, offset, total, w, x);
    ApplyPlacementsConcat(s0, kids.writes, [last]);
    assert ApplyPlacements(cur, [last]) == Place(cur, last) by {
      assert [last][1..] == [];
    }
    PlacementsKeepLinks(s0, kids.writes + [last]);
  }

  /** After `i` roots, the writes done so far followed by those of the remaining roots,
      starting at `offset`, are all the writes of the layout. */
  ghost predicate RootsRest(s0: Store, i: nat, offset: real, done: seq<Placement>)
    requires WellFormed(s0) && LayoutTerminates(s0)
  {
    i <= |RootIds(s0)| && done + LayoutRoots(s0, RootIds(s0)[i..], offset) == LayoutForest(s0)
  }

  lemma RootsStart(s0: Store)
    requires WellFormed(s0) && LayoutTerminates(s0)
    ensures RootsRest(s0, 0, FirstOffset, [])
  {
    assert RootIds(s0)[0..] == RootIds(s0);
  }

  /** Before each turn over the roots in `autoLayout`: the next root is not on a cycle in
      the table as it is now. */
  lemma RootTurn(s0: Store, cur: Store, i: nat)
    requires WellFormed(s0) && LayoutTerminates(s0) && i < |RootIds(s0)|
    requires WellFormed(cur) && SameLinks(cur, s0)
    ensures !Descendant(s0, RootIds(s0)[i], RootIds(s0)[i])
    ensures !Descendant(cur, RootIds(s0)[i], RootIds(s0)[i])
  {
    assert RootIds(s0)[i] in RootIds(s0);
    DescendantLinks(cur, s0);
  }

  /** With the next root's writes taken, the remaining writes are those of the roots after
      it, starting past its span and the gap. */
  lemma RootsStep(s0: Store, i: nat, offset: real, w: real, next: real, done: seq<Placement>)
    requires WellFormed(s0) && LayoutTerminates(s0) && i < |RootIds(s0)|
    requires RootsRest(s0, i, offset, done)
    ensures !Descendant(s0, RootIds(s0)[i], RootIds(s0)[i])
    ensures w == LayoutTree(s0, RootIds(s0)[i], 0, offset).width && next == offset + w + RootGap ==>
      RootsRest(s0, i + 1, next, done + LayoutTree(s0, RootIds(s0)[i], 0, offset).writes)
  {
    var rs := RootIds(s0);
    assert rs[i] in rs;
    if w == LayoutTree(s0, rs[i], 0, offset).width && next == offset + w + RootGap {
      RootsUnfold(s0, rs[i..], offset, next);
      assert rs[i..][1..] == rs[i + 1..];
    }
  }

  /** After the last root, the writes done are all the writes of the layout. */
  lemma RootsDone(s0: Store, offset: real, done: seq<Placement>)
    requires WellFormed(s0) && LayoutTerminates(s0)
    requires RootsRest(s0, |RootIds(s0)|, offset, done)
    ensures done == LayoutForest(s0)
  {
    var rs := RootIds(s0);
    assert rs[|rs|..] == [];
  }

  // ---------------------------------------------------------------------------
  // The application object

  class OrgChartApp {
    var nodes: Store
    var nextId: int
    /** The parsed `orgChartData` entry of `localStorage`, if there is one. */
    var storage: Option<Document>
    /** The id of `draggedNode`. */
    var dragged: Option<string>
    var dragOffset: Point

    ghost predicate Valid()
      reads this
    {
      WellFormed(nodes)
    }

    /** A new editor: an empty table and the counter at 1, then whatever `localStorage`
        holds loaded. */
    constructor (saved: Option<Document>)
      ensures Valid()
      ensures storage == saved && dragged == None && dragOffset == Point(0.0, 0.0)
      ensures saved.None? ==> nodes == Empty() && nextId == 1
      ensures saved.Some? ==> nextId == NextIdOr1(saved.value.nextId)
      ensures saved.Some? && saved.value.nodes.None? ==> nodes == Empty()
      ensures saved.Some? && saved.value.nodes.Some? ==> nodes == Rebuilt(saved.value.nodes.value)
    {
      nodes := Empty();
      dragged := None;
      dragOffset := Point(0.0, 0.0);
      nextId := 1;
      storage := saved;
      new;
      LoadFromLocalStorage();
    }

    /** `saveToLocalStorage`. */
    method SaveToLocalStorage()
      requires Valid()
      modifies this`storage
      ensures storage == Some(Snapshot(nodes, nextId))
    {
      storage := Some(Snapshot(nodes, nextId));
    }

    /** `loadFromLocalStorage`: nothing saved, nothing done; otherwise the counter is read,
        the table cleared, and refilled from the saved list. Without a list the refill
        fails and the table stays empty. */
    method LoadFromLocalStorage()
      requires Valid()
      modifies this`nodes, this`nextId
      ensures Valid()
      ensures storage.None? ==> nodes == old(nodes) && nextId == old(nextId)
      ensures storage.Some? ==> nextId == NextIdOr1(storage.value.nextId)
      ensures storage.Some? && storage.value.nodes.None? ==> nodes == Empty()
      ensures storage.Some? && storage.value.nodes.Some? ==> nodes == Rebuilt(storage.value.nodes.value)
    {
      if storage.None? {
        return;
      }
      var data := storage.value;
      nextId := NextIdOr1(data.nextId);
      nodes := Empty();
      if data.nodes.None? {
        return;
      }
      Recreate(data.nodes.value);
    }

    /** `loadFromFile`: the table is cleared first; the counter is read next (a `null`
        document fails there); the table is refilled and saved only when the document
        has a list. */
    method LoadFromFile(file: FileContent)
      requires Valid()
      modifies this`nodes, this`nextId, this`storage
      ensures Valid()
      ensures file == NoFile || file == NotJson ==>
        nodes == old(nodes) && nextId == old(nextId) && storage == old(storage)
      ensures file == JsonNull ==> nodes == Empty() && nextId == old(nextId) && storage == old(storage)
      ensures file.Json? ==> nextId == NextIdOr1(file.doc.nextId)
      ensures file.Json? && file.doc.nodes.None? ==> nodes == Empty() && storage == old(storage)
      ensures file.Json? && file.doc.nodes.Some? ==>
        nodes == Rebuilt(file.doc.nodes.value) && storage == Some(Snapshot(nodes, nextId))
    {
      if file == NoFile || file == NotJson {
        return;
      }
      nodes := Empty();
      if file == JsonNull {
        return;
      }
      var data := file.doc;
      nextId := NextIdOr1(data.nextId);
      if data.nodes.None? {
        return;
      }
      Recreate(data.nodes.value);
      SaveToLocalStorage();
    }

    /** The `data.nodes.forEach` loop of both loads, starting from the cleared table. */
    method Recreate(ns: seq<Node>)
      requires nodes == Empty()
      modifies this`nodes
      ensures Valid()
      ensures nodes == Rebuilt(ns)
    {
      var i := 0;
      while i < |ns|
        invariant 0 <= i <= |ns|
        invariant nodes == SetAll(Empty(), ns[..i], NodeKey)
      {
        var nodeData := ns[i];
        var node := Node(nodeData.id, nodeData.deptName, nodeData.position, nodeData.personName,
                         nodeData.parentId, nodeData.x, nodeData.y);
        assert ns[..i + 1][..i] == ns[..i];
        nodes := Set(nodes, node.id, node);
        i := i + 1;
      }
      assert ns[..i] == ns;
      assert nodes == Rebuilt(ns);
    }

    /** `createNode`: takes the next id, builds the node with its defaults, adds it (or,
        should that id already be taken, replaces the node there) and saves. */
    method CreateNode(data: NodeData) returns (node: Node)
      requires Valid()
      modifies this`nodes, this`nextId, this`storage
      ensures Valid()
      ensures node == NewNode(NodeId(old(nextId)), data)
      ensures nextId == old(nextId) + 1
      ensures nodes == Set(old(nodes), node.id, node)
      ensures storage == Some(Snapshot(nodes, nextId))
    {
      var id := NodeId(nextId);
      nextId := nextId + 1;
      node := NewNode(id, data);
      nodes := Set(nodes, id, node);
      SaveToLocalStorage();
    }

    /** `getChildren(parentId)`: the scan over the table in its order. */
    method GetChildren(parentId: string) returns (children: seq<Node>)
      requires Valid()
      ensures children == Children(nodes, parentId)
    {
      var keys := nodes.keys;
      var entries := nodes.entries;
      children := [];
      ghost var ids: seq<string> := [];
      var i := 0;
      while i < |keys|
        invariant 0 <= i <= |keys|
        invariant ids == KeysWithParent(keys[..i], entries, parentId)
        invariant |children| == |ids|
        invariant forall j :: 0 <= j < |ids| ==> ids[j] in entries && children[j] == entries[ids[j]]
      {
        var k := keys[i];
        var node := entries[k];
        KeysWithParentNext(keys, entries, parentId, i);
        if node.parentId == Some(parentId) {
          children := children + [node];
          ids := ids + [k];
        }
        i := i + 1;
      }
      assert keys[..i] == keys;
      ChildrenOfIds(nodes, parentId, ids, children);
    }

    /** `deleteNode(nodeId)`: the children's subtrees first, one after another, then the
        node itself; the whole subtree of `nodeId` goes and nothing else. A node on a
        cycle of parent links would make this recurse forever. */
    method DeleteNode(nodeId: string)
      requires Valid() && !Descendant(nodes, nodeId, nodeId)
      modifies this`nodes, this`storage
      ensures Valid()
      ensures nodes == DeleteAll(old(nodes), Subtree(old(nodes), nodeId))
      ensures storage == Some(Snapshot(nodes, nextId))
      decreases Below(nodes, nodeId)
    {
      ghost var s0 := nodes;
      ghost var cs := ChildIds(s0, nodeId);
      var children := GetChildren(nodeId);
      DeleteNothing(s0);
      assert cs[..0] == [];
      var i := 0;
      while i < |children|
        invariant 0 <= i <= |children| == |cs|
        invariant forall j :: 0 <= j < |children| ==> children[j].id == cs[j]
        invariant Valid() && nodes == Pruned(s0, cs, i)
      {
        DeleteChildStep(s0, nodeId, cs, i);
        DeleteNode(children[i].id);
        i := i + 1;
      }
      DeleteLastStep(s0, nodeId);
      nodes := DeleteAll(nodes, {nodeId});
      SaveToLocalStorage();
    }

    /** `handleNodeMouseDown`: a left press on a node starts dragging it and remembers
        where in the box it was grabbed. With no node under that id, the lookup yields
        nothing and reading its `x` fails after `draggedNode` was cleared. */
    method HandleNodeMouseDown(button: int, clientX: real, clientY: real, nodeId: string)
      modifies this`dragged, this`dragOffset
      ensures button != 0 ==> dragged == old(dragged) && dragOffset == old(dragOffset)
      ensures button == 0 && nodeId in nodes.entries ==>
        dragged == Some(nodeId)
        && dragOffset == Point(clientX - nodes.entries[nodeId].x, clientY - nodes.entries[nodeId].y)
      ensures button == 0 && nodeId !in nodes.entries ==> dragged == None && dragOffset == old(dragOffset)
    {
      if button != 0 {
        return;
      }
      if nodeId !in nodes.entries {
        dragged := None;
        return;
      }
      var node := nodes.entries[nodeId];
      dragged := Some(nodeId);
      dragOffset := Point(clientX - node.x, clientY - node.y);
    }

    /** `handleMouseMove`: the dragged node follows the pointer. */
    method HandleMouseMove(clientX: real, clientY: real)
      requires Valid()
      modifies this`nodes
      ensures Valid()
      ensures dragged.None? || dragged.value !in old(nodes).entries ==> nodes == old(nodes)
      ensures dragged.Some? && dragged.value in old(nodes).entries ==>
        nodes == DragTo(old(nodes), dragged.value, dragOffset, clientX, clientY)
    {
      if dragged.None? || dragged.value !in nodes.entries {
        return;
      }
      nodes := DragTo(nodes, dragged.value, dragOffset, clientX, clientY);
    }

    /** `handleMouseUp`: the drag ends and the table is saved. */
    method HandleMouseUp()
      requires Valid()
      modifies this`dragged, this`storage
      ensures old(dragged).None? || old(dragged).value !in nodes.entries ==>
        dragged == old(dragged) && storage == old(storage)
      ensures old(dragged).Some? && old(dragged).value in nodes.entries ==>
        dragged == None && storage == Some(Snapshot(nodes, nextId))
    {
      if dragged.None? || dragged.value !in nodes.entries {
        return;
      }
      dragged := None;
      SaveToLocalStorage();
    }

    /** The add branch of `handleFormSubmit`. */
    method SubmitAdd(parentField: string, fields: FormFields)
      requires Valid()
      modifies this`nodes, this`nextId, this`storage
      ensures Valid()
      ensures AddPosition(old(nodes), ParentField(parentField)).None? ==>
        nodes == old(nodes) && nextId == old(nextId) && storage == old(storage)
      ensures AddPosition(old(nodes), ParentField(parentField)).Some? ==>
        var pt := AddPosition(old(nodes), ParentField(parentField)).value;
        var node := NewNode(NodeId(old(nextId)), NodeData(fields.deptName, fields.position, fields.personName,
                                                ParentField(parentField), pt.x, pt.y));
        nodes == Set(old(nodes), node.id, node) && nextId == old(nextId) + 1
        && storage == Some(Snapshot(nodes, nextId))
    {
      var parentId := ParentField(parentField);
      var x, y := 100.0, 100.0;
      if parentId.Some? {
        if parentId.value !in nodes.entries {
          return;
        }
        var parent := nodes.entries[parentId.value];
        var siblings := GetChildren(parentId.value);
        x := parent.x + |siblings| as real * SiblingStep;
        y := parent.y + ChildDrop;
      } else {
        var rootNodes := RootIds(nodes);
        x := 100.0 + RootStep * |rootNodes| as real;
        y := 100.0;
      }
      assert Point(x, y) == AddPosition(nodes, parentId).value;
      var data := NodeData(fields.deptName, fields.position, fields.personName, parentId, x, y);
      var node := CreateNode(data);
    }

    /** The edit branch of `handleFormSubmit`: a stored node takes the three texts as they
        are (an empty department name stays empty) and the table is saved. */
    method SubmitEdit(nodeId: string, fields: FormFields)
      requires Valid()
      modifies this`nodes, this`storage
      ensures Valid()
      ensures nodeId !in old(nodes).entries ==> nodes == old(nodes) && storage == old(storage)
      ensures nodeId in old(nodes).entries ==>
        nodes == Set(old(nodes), nodeId, old(nodes).entries[nodeId].(deptName := fields.deptName,
                     position := fields.position, personName := fields.personName))
        && nodes.keys == old(nodes).keys
        && storage == Some(Snapshot(nodes, nextId))
    {
      if nodeId !in nodes.entries {
        return;
      }
      var node := nodes.entries[nodeId];
      nodes := Set(nodes, nodeId, node.(deptName := fields.deptName, position := fields.position,
                                        personName := fields.personName));
      SaveToLocalStorage();
    }

    /** `handleFormSubmit`: the branch the form's mode selects. */
    method HandleFormSubmit(mode: FormMode, fields: FormFields)
      requires Valid()
      modifies this`nodes, this`nextId, this`storage
      ensures Valid()
      ensures mode.NoMode? ==> nodes == old(nodes) && nextId == old(nextId) && storage == old(storage)
      ensures mode.AddMode? && AddPosition(old(nodes), ParentField(mode.parentField)).None? ==>
        nodes == old(nodes) && nextId == old(nextId) && storage == old(storage)
      ensures mode.AddMode? && AddPosition(old(nodes), ParentField(mode.parentField)).Some? ==>
        var pt := AddPosition(old(nodes), ParentField(mode.parentField)).value;
        var node := NewNode(NodeId(old(nextId)), NodeData(fields.deptName, fields.position, fields.personName,
                                                ParentField(mode.parentField), pt.x, pt.y));
        nodes == Set(old(nodes), node.id, node) && nextId == old(nextId) + 1
        && storage == Some(Snapshot(nodes, nextId))
      ensures mode.EditMode? ==> nextId == old(nextId)
      ensures mode.EditMode? && mode.nodeId !in old(nodes).entries ==>
        nodes == old(nodes) && storage == old(storage)
      ensures mode.EditMode? && mode.nodeId in old(nodes).entries ==>
        nodes == Set(old(nodes), mode.nodeId, old(nodes).entries[mode.nodeId].(deptName := fields.deptName,
                     position := fields.position, personName := fields.personName))
        && nodes.keys == old(nodes).keys
        && storage == Some(Snapshot(nodes, nextId))
    {
      match mode
      case AddMode(parentField) => SubmitAdd(parentField, fields);
      case EditMode(nodeId) => SubmitEdit(nodeId, fields);
      case NoMode =>
    }

    /** The `layoutTree` closure: the children left to right, then the node centred above
        the span they took on its row. */
    method LayoutTreeAt(id: string, level: nat, offset: real) returns (width: real)
      requires Valid() && !Descendant(nodes, id, id)
      modifies this`nodes
      ensures Valid() && SameLinks(nodes, old(nodes))
      ensures nodes == ApplyPlacements(old(nodes), LayoutTree(old(nodes), id, level, offset).writes)
      ensures width == LayoutTree(old(nodes), id, level, offset).width
      decreases Below(nodes, id), 1
    {
      ghost var s0 := nodes;
      var children := GetChildren(id);
      var totalWidth := 0.0;
      if |children| == 0 {
        totalWidth := SlotWidth;
      } else {
        totalWidth := LayoutChildrenAt(id, children, level + 1, offset);
      }
      var nodeWidth := Max(totalWidth, SlotWidth);
      var x := offset + nodeWidth / 2.0 - HalfBox;
      TreeFinish(s0, nodes, id, level, offset, totalWidth, nodeWidth, x);
      nodes := Place(nodes, Placement(id, x, RowOf(level)));
      width := nodeWidth;
    }

    /** The `children.forEach` loop of `layoutTree`: each child's tree starts where the
        previous one's span ended; the widths add up. */
    method LayoutChildrenAt(id: string, children: seq<Node>, level: nat, offset: real) returns (totalWidth: real)
      requires Valid() && !Descendant(nodes, id, id) && children == Children(nodes, id)
      modifies this`nodes
      ensures Valid() && SameLinks(nodes, old(nodes))
      ensures nodes == ApplyPlacements(old(nodes), LayoutChildren(old(nodes), id, ChildIds(old(nodes), id), level, offset).writes)
      ensures totalWidth == LayoutChildren(old(nodes), id, ChildIds(old(nodes), id), level, offset).width
      decreases Below(nodes, id), 0
    {
      ghost var s0 := nodes;
      ghost var cs := ChildIds(s0, id);
      ghost var done: seq<Placement> := [];
      ghost var at := offset;
      totalWidth := 0.0;
      ChildrenStart(s0, id, level, offset);
      var i := 0;
      while i < |children|
        invariant 0 <= i <= |children| == |cs|
        invariant WellFormed(nodes) && SameLinks(nodes, s0)
        invariant nodes == ApplyPlacements(s0, done)
        invariant at == offset + totalWidth
        invariant ChildrenRest(s0, id, i, level, offset, at, totalWidth, done)
      {
        ChildTurn(s0, nodes, id, i);
        ghost var before := nodes;
        var childOffset := offset + totalWidth;
        assert childOffset == at && children[i].id == cs[i];
        var w := LayoutTreeAt(children[i].id, level, childOffset);
        ChildWrites(s0, before, nodes, cs[i], level, at, done);
        assert w == LayoutTree(s0, cs[i], level, at).width;
        ghost var at', total' := at + w, totalWidth + w;
        ChildrenStep(s0, id, i, level, offset, at, totalWidth, w, at', total', done);
        done := done + LayoutTree(s0, cs[i], level, at).writes;
        totalWidth := totalWidth + w;
        at := at';
        i := i + 1;
      }
      ChildrenDone(s0, id, level, offset, at, totalWidth, done);
    }

    /** `autoLayout`: nothing happens without a root; otherwise each root's tree is laid
        out right of the previous one, and the table is saved. */
    method AutoLayout()
      requires Valid() && LayoutTerminates(nodes)
      modifies this`nodes, this`storage
      ensures Valid()
      ensures nodes == AutoLaidOut(old(nodes))
      ensures RootIds(old(nodes)) == [] ==> storage == old(storage)
      ensures RootIds(old(nodes)) != [] ==> storage == Some(Snapshot(nodes, nextId))
    {
      var rootNodes := RootIds(nodes);
      if |rootNodes| == 0 {
        return;
      }
      ghost var s0 := nodes;
      var totalOffset := FirstOffset;
      ghost var done: seq<Placement> := [];
      RootsStart(s0);
      var i := 0;
      while i < |rootNodes|
        invariant 0 <= i <= |rootNodes| && rootNodes == RootIds(s0)
        invariant WellFormed(nodes) && SameLinks(nodes, s0)
        invariant nodes == ApplyPlacements(s0, done)
        invariant RootsRest(s0, i, totalOffset, done)
      {
        RootTurn(s0, nodes, i);
        ghost var before := nodes;
        var width := LayoutTreeAt(rootNodes[i], 0, totalOffset);
        ChildWrites(s0, before, nodes, rootNodes[i], 0, totalOffset, done);
        var next := totalOffset + width + RootGap;
        RootsStep(s0, i, totalOffset, width, next, done);
        done := done + LayoutTree(s0, rootNodes[i], 0, totalOffset).writes;
        totalOffset := next;
        i := i + 1;
      }
      RootsDone(s0, totalOffset, done);
      PlacementsKeepLinks(s0, done);
      SaveToLocalStorage();
    }
  }
}
