/** The editor's automatic tree layout (app.js `autoLayout`): every tree hanging from a
    root is laid out bottom-up, each subtree occupying a horizontal span as wide as its
    children's spans together (at least one node slot), each node centred above its span
    on the row of its depth. The layout is described here as the list of coordinate
    writes it performs, in the order it performs them, together with the span width
    each call returns. */
module AppLayout {
  import opened Wrappers
  import opened JsMap
  import opened AppStore

  /** Width of the span given to a subtree without children. */
  const SlotWidth: real := 180.0
  /** Half the width of a node box: a node is centred by starting it this far left of its span's middle. */
  const HalfBox: real := 75.0
  /** Vertical distance between two levels, and the `y` of the roots. */
  const LevelHeight: real := 150.0
  const TopRow: real := 100.0
  /** Where the first root's span starts, and the gap left between two roots' spans. */
  const FirstOffset: real := 100.0
  const RootGap: real := 50.0

  /** One coordinate write: `node.x = x; node.y = y` on the node with this id. */
  datatype Placement = Placement(id: string, x: real, y: real)

  /** The writes one `layoutTree` call performs and the width it returns. */
  datatype Plan = Plan(writes: seq<Placement>, width: real)

  function Max(a: real, b: real): real {
    if a >= b then a else b
  }

  /** The row of a level: `100 + level * 150`. */
  function RowOf(level: nat): (y: real)
    ensures y >= TopRow
    ensures level > 0 ==> y > TopRow
  {
    TopRow + level as real * LevelHeight
  }

  // ---------------------------------------------------------------------------
  // Roots

  /** A node the layout starts from: its `parentId` is falsy (`null` or the empty string). */
  predicate IsRoot(n: Node) {
    n.parentId == None || n.parentId == Some("")
  }

  /** The keys among `ks` holding a root, in the order of `ks`. */
  function RootKeys(ks: seq<string>, e: map<string, Node>): (r: seq<string>)
    ensures forall k :: k in r <==> k in ks && k in e && IsRoot(e[k])
    decreases |ks|
  {
    if ks == [] then []
    else
      var front, last := ks[..|ks| - 1], ks[|ks| - 1];
      assert ks == front + [last];
      RootKeys(front, e) + (if last in e && IsRoot(e[last]) then [last] else [])
  }

  /** No key is kept twice from a list without repeats. */
  lemma {:induction false} RootKeysDistinct(ks: seq<string>, e: map<string, Node>)
    requires Distinct(ks)
    ensures Distinct(RootKeys(ks, e))
    decreases |ks|
  {
    if ks != [] {
      var front, last := ks[..|ks| - 1], ks[|ks| - 1];
      assert ks == front + [last];
      assert Distinct(front) by {
        forall i, j | 0 <= i < j < |front| ensures front[i] != front[j] {
          assert front[i] == ks[i] && front[j] == ks[j];
        }
      }
      RootKeysDistinct(front, e);
      assert last !in front by {
        forall i | 0 <= i < |front| ensures front[i] != last {
          assert front[i] == ks[i];
        }
      }
    }
  }

  /** The ids of `Array.from(nodes.values()).filter(n => !n.parentId)`, in store order. */
  function RootIds(s: Store): (r: seq<string>)
    requires WellFormed(s)
    ensures Distinct(r)
    ensures forall k :: k in r <==> k in s.entries && IsRoot(s.entries[k])
  {
    RootKeysDistinct(s.keys, s.entries);
    RootKeys(s.keys, s.entries)
  }

  /** The layout reaches its end: no root lies on a cycle of parent links. */
  ghost predicate LayoutTerminates(s: Store) {
    forall r :: r in s.entries && IsRoot(s.entries[r]) ==> !Descendant(s, r, r)
  }

  /** Without a node whose id is the empty string, every store can be laid out. */
  lemma LayoutTerminatesWithoutEmptyId(s: Store)
    requires WellFormed(s) && "" !in s.entries
    ensures LayoutTerminates(s)
  {
    forall r | r in s.entries && IsRoot(s.entries[r]) ensures !Descendant(s, r, r) {
      forall j: nat | 1 <= j ensures Up(s, r, j) != Some(r) {
        RootChainEnds(s, r, j);
      }
    }
  }

  /** From a root, one step leads to nothing or to the empty id, and no further. */
  lemma {:induction false} RootChainEnds(s: Store, r: string, j: nat)
    requires "" !in s.entries
    requires r in s.entries && IsRoot(s.entries[r])
    requires 1 <= j
    ensures Up(s, r, j) == None || Up(s, r, j) == Some("")
  {
    if j > 1 {
      RootChainEnds(s, r, j - 1);
    }
  }

  // ---------------------------------------------------------------------------
  // The layout as a plan of writes

  /** `layoutTree(node, level, offset)`: lay out the children left to right starting at
      `offset`, then place the node centred above the span they took. */
  function LayoutTree(s: Store, id: string, level: nat, offset: real): (r: Plan)
    requires !Descendant(s, id, id)
    ensures r.width >= SlotWidth
    ensures |r.writes| > 0
    decreases Below(s, id), 1, 0
  {
    var cs := ChildIds(s, id);
    var kids := LayoutChildren(s, id, cs, level + 1, offset);
    var total := if cs == [] then SlotWidth else kids.width;
    var w := Max(total, SlotWidth);
    Plan(kids.writes + [Placement(id, offset + w / 2.0 - HalfBox, RowOf(level))], w)
  }

  /** The `children.forEach` loop: each child is laid out at `offset` plus the widths of
      the children before it; the width is the sum of theirs. */
  function LayoutChildren(s: Store, p: string, cs: seq<string>, level: nat, offset: real): (r: Plan)
    requires !Descendant(s, p, p)
    requires forall c :: c in cs ==> c in s.entries && s.entries[c].parentId == Some(p)
    ensures cs != [] ==> r.width >= SlotWidth
    ensures r.width >= 0.0
    decreases Below(s, p), 0, |cs|
  {
    if cs == [] then Plan([], 0.0)
    else
      BelowChildSmaller(s, cs[0], p);
      var t := LayoutTree(s, cs[0], level, offset);
      var rest := LayoutChildren(s, p, cs[1..], level, offset + t.width);
      Plan(t.writes + rest.writes, t.width + rest.width)
  }

  /** The loop over the roots: each root's tree starts where the previous one's span
      ended, plus the gap. */
  function LayoutRoots(s: Store, rs: seq<string>, offset: real): (ws: seq<Placement>)
    requires forall r :: r in rs ==> !Descendant(s, r, r)
    ensures rs != [] ==> |ws| > 0
    decreases |rs|
  {
    if rs == [] then []
    else
      var t := LayoutTree(s, rs[0], 0, offset);
      t.writes + LayoutRoots(s, rs[1..], offset + t.width + RootGap)
  }

  /** The plan of a subtree opens into its children's writes followed by the node's own. */
  lemma TreeUnfold(s: Store, p: string, level: nat, offset: real, total: real, w: real, x: real)
    requires !Descendant(s, p, p)
    requires total == if ChildIds(s, p) == [] then SlotWidth
                      else LayoutChildren(s, p, ChildIds(s, p), level + 1, offset).width
    requires w == Max(total, SlotWidth) && x == offset + w / 2.0 - HalfBox
    ensures LayoutTree(s, p, level, offset)
      == Plan(LayoutChildren(s, p, ChildIds(s, p), level + 1, offset).writes + [Placement(p, x, RowOf(level))], w)
  {
  }

  /** The plan of a list of children opens into the first one's plan and the others'. */
  lemma ChildrenUnfold(s: Store, p: string, cs: seq<string>, level: nat, at: real, at': real)
    requires !Descendant(s, p, p) && cs != []
    requires forall c :: c in cs ==> c in s.entries && s.entries[c].parentId == Some(p)
    requires !Descendant(s, cs[0], cs[0])
    requires at' == at + LayoutTree(s, cs[0], level, at).width
    ensures LayoutChildren(s, p, cs, level, at).writes
      == LayoutTree(s, cs[0], level, at).writes + LayoutChildren(s, p, cs[1..], level, at').writes
    ensures LayoutChildren(s, p, cs, level, at).width
      == LayoutTree(s, cs[0], level, at).width + LayoutChildren(s, p, cs[1..], level, at').width
  {
  }

  /** The writes of a list of roots open into the first one's and the others'. */
  lemma RootsUnfold(s: Store, rs: seq<string>, offset: real, next: real)
    requires rs != [] && forall r :: r in rs ==> !Descendant(s, r, r)
    requires next == offset + LayoutTree(s, rs[0], 0, offset).width + RootGap
    ensures LayoutRoots(s, rs, offset) == LayoutTree(s, rs[0], 0, offset).writes + LayoutRoots(s, rs[1..], next)
  {
  }

  /** All writes of `autoLayout`. */
  function LayoutForest(s: Store): (ws: seq<Placement>)
    requires WellFormed(s) && LayoutTerminates(s)
    ensures RootIds(s) == [] <==> ws == []
  {
    LayoutRoots(s, RootIds(s), FirstOffset)
  }

  // ---------------------------------------------------------------------------
  // Performing the writes

  /** One write: the stored node with that id gets the new coordinates. */
  function Place(s: Store, w: Placement): (r: Store)
    requires WellFormed(s)
    ensures WellFormed(r) && r.keys == s.keys && r.entries.Keys == s.entries.Keys
    ensures forall k :: k in r.entries ==>
      r.entries[k] == if k == w.id then s.entries[k].(x := w.x, y := w.y) else s.entries[k]
  {
    if w.id in s.entries then Set(s, w.id, s.entries[w.id].(x := w.x, y := w.y)) else s
  }

  /** The writes performed one after another. */
  function ApplyPlacements(s: Store, ws: seq<Placement>): (r: Store)
    requires WellFormed(s)
    ensures WellFormed(r) && r.keys == s.keys && r.entries.Keys == s.entries.Keys
    decreases |ws|
  {
    if ws == [] then s else ApplyPlacements(Place(s, ws[0]), ws[1..])
  }

  /** The last write to `k` among `ws`, if any. */
  function LastWrite(ws: seq<Placement>, k: string): (r: Option<Placement>)
    ensures r.Some? ==> r.value in ws && r.value.id == k
    ensures r.None? ==> forall w :: w in ws ==> w.id != k
    decreases |ws|
  {
    if ws == [] then None
    else
      var later := LastWrite(ws[1..], k);
      if later.Some? then later else if ws[0].id == k then Some(ws[0]) else None
  }

  /** After the writes, every node has the coordinates of the last write to it, or its
      old ones if nothing was written to it; its other fields are untouched. */
  lemma {:induction false} ApplyPlacementsValue(s: Store, ws: seq<Placement>, k: string)
    requires WellFormed(s) && k in s.entries
    ensures ApplyPlacements(s, ws).entries[k] ==
      match LastWrite(ws, k)
      case None => s.entries[k]
      case Some(w) => s.entries[k].(x := w.x, y := w.y)
    decreases |ws|
  {
    if ws != [] {
      ApplyPlacementsValue(Place(s, ws[0]), ws[1..], k);
    }
  }

  /** Performing `a` and then `b` is performing `a + b`. */
  lemma {:induction false} ApplyPlacementsConcat(s: Store, a: seq<Placement>, b: seq<Placement>)
    requires WellFormed(s)
    ensures ApplyPlacements(ApplyPlacements(s, a), b) == ApplyPlacements(s, a + b)
    decreases |a|
  {
    if a == [] {
      assert a + b == b;
    } else {
      assert (a + b)[0] == a[0] && (a + b)[1..] == a[1..] + b;
      ApplyPlacementsConcat(Place(s, a[0]), a[1..], b);
    }
  }

  /** Performing the same writes twice is performing them once. */
  lemma ApplyPlacementsTwice(s: Store, ws: seq<Placement>)
    requires WellFormed(s)
    ensures ApplyPlacements(ApplyPlacements(s, ws), ws) == ApplyPlacements(s, ws)
  {
    var once := ApplyPlacements(s, ws);
    var twice := ApplyPlacements(once, ws);
    forall k | k in s.entries ensures twice.entries[k] == once.entries[k] {
      ApplyPlacementsValue(s, ws, k);
      ApplyPlacementsValue(once, ws, k);
    }
    assert twice.entries == once.entries;
  }

  // ---------------------------------------------------------------------------
  // The layout depends only on the parent links

  /** Same ids in the same order and the same parent links; coordinates may differ. */
  ghost predicate SameLinks(s1: Store, s2: Store) {
    s1.keys == s2.keys && s1.entries.Keys == s2.entries.Keys
    && forall k :: k in s1.entries ==> s1.entries[k].parentId == s2.entries[k].parentId
  }

  lemma PlacementsKeepLinks(s: Store, ws: seq<Placement>)
    requires WellFormed(s)
    ensures SameLinks(ApplyPlacements(s, ws), s)
  {
    var r := ApplyPlacements(s, ws);
    forall k | k in r.entries ensures r.entries[k].parentId == s.entries[k].parentId {
      ApplyPlacementsValue(s, ws, k);
    }
  }

  lemma {:induction false} KeysWithParentLinks(ks: seq<string>, e1: map<string, Node>, e2: map<string, Node>, p: string)
    requires e1.Keys == e2.Keys && forall k :: k in e1 ==> e1[k].parentId == e2[k].parentId
    ensures KeysWithParent(ks, e1, p) == KeysWithParent(ks, e2, p)
    decreases |ks|
  {
    if ks != [] {
      KeysWithParentLinks(ks[..|ks| - 1], e1, e2, p);
    }
  }

  lemma {:induction false} RootKeysLinks(ks: seq<string>, e1: map<string, Node>, e2: map<string, Node>)
    requires e1.Keys == e2.Keys && forall k :: k in e1 ==> e1[k].parentId == e2[k].parentId
    ensures RootKeys(ks, e1) == RootKeys(ks, e2)
    decreases |ks|
  {
    if ks != [] {
      RootKeysLinks(ks[..|ks| - 1], e1, e2);
    }
  }

  lemma {:induction false} UpLinks(s1: Store, s2: Store, d: string, j: nat)
    requires SameLinks(s1, s2)
    ensures Up(s1, d, j) == Up(s2, d, j)
  {
    if j > 0 {
      UpLinks(s1, s2, d, j - 1);
    }
  }

  lemma DescendantLinks(s1: Store, s2: Store)
    requires SameLinks(s1, s2)
    ensures forall d, a :: Descendant(s1, d, a) <==> Descendant(s2, d, a)
  {
    forall d: string, j: nat ensures Up(s1, d, j) == Up(s2, d, j) {
      UpLinks(s1, s2, d, j);
    }
  }

  lemma BelowLinks(s1: Store, s2: Store, a: string)
    requires SameLinks(s1, s2)
    ensures Below(s1, a) == Below(s2, a)
    ensures ChildIds(s1, a) == ChildIds(s2, a)
  {
    DescendantLinks(s1, s2);
    KeysWithParentLinks(s1.keys, s1.entries, s2.entries, a);
  }

  /** The plan of a subtree does not depend on where its nodes were before. */
  lemma {:induction false} LayoutTreeLinks(s1: Store, s2: Store, id: string, level: nat, offset: real)
    requires SameLinks(s1, s2)
    requires !Descendant(s1, id, id)
    ensures !Descendant(s2, id, id)
    ensures LayoutTree(s1, id, level, offset) == LayoutTree(s2, id, level, offset)
    decreases Below(s1, id), 1, 0
  {
    DescendantLinks(s1, s2);
    KeysWithParentLinks(s1.keys, s1.entries, s2.entries, id);
    var cs := ChildIds(s1, id);
    LayoutChildrenLinks(s1, s2, id, cs, level + 1, offset);
    var total := if cs == [] then SlotWidth else LayoutChildren(s1, id, cs, level + 1, offset).width;
    var w := Max(total, SlotWidth);
    var x := offset + w / 2.0 - HalfBox;
    TreeUnfold(s1, id, level, offset, total, w, x);
    TreeUnfold(s2, id, level, offset, total, w, x);
  }

  lemma {:induction false} LayoutChildrenLinks(s1: Store, s2: Store, p: string, cs: seq<string>, level: nat, offset: real)
    requires SameLinks(s1, s2)
    requires !Descendant(s1, p, p)
    requires forall c :: c in cs ==> c in s1.entries && s1.entries[c].parentId == Some(p)
    ensures !Descendant(s2, p, p)
    ensures forall c :: c in cs ==> c in s2.entries && s2.entries[c].parentId == Some(p)
    ensures LayoutChildren(s1, p, cs, level, offset) == LayoutChildren(s2, p, cs, level, offset)
    decreases Below(s1, p), 0, |cs|
  {
    assert !Descendant(s2, p, p) by { DescendantLinks(s1, s2); }
    if cs != [] {
      BelowChildSmaller(s1, cs[0], p);
      LayoutTreeLinks(s1, s2, cs[0], level, offset);
      var next := offset + LayoutTree(s1, cs[0], level, offset).width;
      LayoutChildrenLinks(s1, s2, p, cs[1..], level, next);
      ChildrenUnfold(s1, p, cs, level, offset, next);
      ChildrenUnfold(s2, p, cs, level, offset, next);
    }
  }

  lemma {:induction false} LayoutRootsLinks(s1: Store, s2: Store, rs: seq<string>, offset: real)
    requires SameLinks(s1, s2)
    requires forall r :: r in rs ==> !Descendant(s1, r, r)
    ensures forall r :: r in rs ==> !Descendant(s2, r, r)
    ensures LayoutRoots(s1, rs, offset) == LayoutRoots(s2, rs, offset)
    decreases |rs|
  {
    DescendantLinks(s1, s2);
    if rs != [] {
      LayoutTreeLinks(s1, s2, rs[0], 0, offset);
      var next := offset + LayoutTree(s1, rs[0], 0, offset).width + RootGap;
      LayoutRootsLinks(s1, s2, rs[1..], next);
      RootsUnfold(s1, rs, offset, next);
      RootsUnfold(s2, rs, offset, next);
    }
  }

  /** The layout ignores the coordinates the nodes had: two stores with the same links
      are laid out by the same writes. */
  lemma LayoutForestLinks(s1: Store, s2: Store)
    requires WellFormed(s1) && WellFormed(s2) && SameLinks(s1, s2)
    requires LayoutTerminates(s1)
    ensures LayoutTerminates(s2)
    ensures LayoutForest(s1) == LayoutForest(s2)
  {
    DescendantLinks(s1, s2);
    RootKeysLinks(s1.keys, s1.entries, s2.entries);
    LayoutRootsLinks(s1, s2, RootIds(s1), FirstOffset);
  }

  /** The store after `autoLayout`. */
  function AutoLaidOut(s: Store): (r: Store)
    requires WellFormed(s) && LayoutTerminates(s)
    ensures WellFormed(r) && SameLinks(r, s) && LayoutTerminates(r)
  {
    PlacementsKeepLinks(s, LayoutForest(s));
    var r := ApplyPlacements(s, LayoutForest(s));
    DescendantLinks(r, s);
    r
  }

  /** Running the layout a second time moves nothing. */
  lemma AutoLayoutIdempotent(s: Store)
    requires WellFormed(s) && LayoutTerminates(s)
    ensures AutoLaidOut(AutoLaidOut(s)) == AutoLaidOut(s)
  {
    var once := AutoLaidOut(s);
    LayoutForestLinks(s, once);
    ApplyPlacementsTwice(s, LayoutForest(s));
  }

  // ---------------------------------------------------------------------------
  // Which nodes a layout writes

  /** The ids written by `ws`. */
  ghost function Ids(ws: seq<Placement>): set<string> {
    set w | w in ws :: w.id
  }

  /** A node that no write names has no last write. */
  lemma {:induction false} LastWriteNone(ws: seq<Placement>, k: string)
    ensures k !in Ids(ws) ==> LastWrite(ws, k) == None
  {
    if LastWrite(ws, k).Some? {
      assert LastWrite(ws, k).value in ws;
    }
  }

  lemma IdsConcat(a: seq<Placement>, b: seq<Placement>)
    ensures Ids(a + b) == Ids(a) + Ids(b)
  {
    forall k | k in Ids(a + b) ensures k in Ids(a) + Ids(b) {
      var w :| w in a + b && w.id == k;
      if w in a { assert k in Ids(a); } else { assert k in Ids(b); }
    }
    forall k | k in Ids(a) + Ids(b) ensures k in Ids(a + b) {
      if k in Ids(a) {
        var w :| w in a && w.id == k;
        assert w in a + b;
      } else {
        var w :| w in b && w.id == k;
        assert w in a + b;
      }
    }
  }

  lemma SubtreesCons(s: Store, cs: seq<string>)
    requires cs != []
    ensures Subtrees(s, cs) == Subtree(s, cs[0]) + Subtrees(s, cs[1..])
  {
    forall k ensures k in Subtrees(s, cs) <==> k in Subtree(s, cs[0]) || k in Subtrees(s, cs[1..]) {
      InSubtrees(s, cs, k);
      InSubtrees(s, cs[1..], k);
      if exists i :: 0 <= i < |cs| && k in Subtree(s, cs[i]) {
        var i :| 0 <= i < |cs| && k in Subtree(s, cs[i]);
        if i > 0 { assert cs[1..][i - 1] == cs[i]; }
      }
      if exists i :: 0 <= i < |cs[1..]| && k in Subtree(s, cs[1..][i]) {
        var i :| 0 <= i < |cs[1..]| && k in Subtree(s, cs[1..][i]);
        assert cs[1..][i] == cs[i + 1];
      }
    }
  }

  /** A subtree's layout writes exactly the subtree's nodes. */
  lemma {:induction false} LayoutTreeIds(s: Store, id: string, level: nat, offset: real)
    requires WellFormed(s) && !Descendant(s, id, id)
    ensures Ids(LayoutTree(s, id, level, offset).writes) == Subtree(s, id)
    decreases Below(s, id), 1, 0
  {
    var cs := ChildIds(s, id);
    var kids := LayoutChildren(s, id, cs, level + 1, offset);
    var r := LayoutTree(s, id, level, offset);
    var total := if cs == [] then SlotWidth else kids.width;
    var w := Max(total, SlotWidth);
    var last := Placement(id, offset + w / 2.0 - HalfBox, RowOf(level));
    TreeUnfold(s, id, level, offset, total, w, last.x);
    LayoutChildrenIds(s, id, cs, level + 1, offset);
    assert Ids(kids.writes) == Subtrees(s, cs);
    BelowIsChildSubtrees(s, id);
    assert Ids(kids.writes) == Below(s, id);
    IdsConcat(kids.writes, [last]);
    assert Ids(r.writes) == Ids(kids.writes) + Ids([last]);
  }

  lemma {:induction false} LayoutChildrenIds(s: Store, p: string, cs: seq<string>, level: nat, offset: real)
    requires WellFormed(s) && !Descendant(s, p, p)
    requires forall c :: c in cs ==> c in s.entries && s.entries[c].parentId == Some(p)
    ensures Ids(LayoutChildren(s, p, cs, level, offset).writes) == Subtrees(s, cs)
    decreases Below(s, p), 0, |cs|
  {
    if cs != [] {
      BelowChildSmaller(s, cs[0], p);
      var t := LayoutTree(s, cs[0], level, offset);
      var next := offset + t.width;
      var rest := LayoutChildren(s, p, cs[1..], level, next);
      ChildrenUnfold(s, p, cs, level, offset, next);
      var r := LayoutChildren(s, p, cs, level, offset);
      assert r.writes == t.writes + rest.writes;
      LayoutTreeIds(s, cs[0], level, offset);
      assert Ids(t.writes) == Subtree(s, cs[0]);
      LayoutChildrenIds(s, p, cs[1..], level, next);
      assert Ids(rest.writes) == Subtrees(s, cs[1..]);
      IdsConcat(t.writes, rest.writes);
      assert Ids(r.writes) == Ids(t.writes) + Ids(rest.writes);
      SubtreesCons(s, cs);
    } else {
      assert Ids([]) == {};
    }
  }

  lemma {:induction false} LayoutRootsIds(s: Store, rs: seq<string>, offset: real)
    requires WellFormed(s)
    requires forall r :: r in rs ==> !Descendant(s, r, r)
    ensures Ids(LayoutRoots(s, rs, offset)) == Subtrees(s, rs)
    decreases |rs|
  {
    if rs != [] {
      var t := LayoutTree(s, rs[0], 0, offset);
      var next := offset + t.width + RootGap;
      var rest := LayoutRoots(s, rs[1..], next);
      RootsUnfold(s, rs, offset, next);
      LayoutTreeIds(s, rs[0], 0, offset);
      LayoutRootsIds(s, rs[1..], next);
      IdsConcat(t.writes, rest);
      SubtreesCons(s, rs);
    } else {
      assert Ids([]) == {};
    }
  }

  // ---------------------------------------------------------------------------
  // Subtrees that share nothing

  /** The number of steps from `k` up to the top of a subtree holding it. */
  lemma SubtreeDepth(s: Store, k: string, c: string) returns (j: nat)
    requires k in Subtree(s, c)
    ensures Up(s, k, j) == Some(c)
  {
    if k == c {
      j := 0;
    } else {
      j :| 1 <= j && Up(s, k, j) == Some(c);
    }
  }

  /** If `c2` is above `c1` and both are children of `p`, the chain from `p` returns to `p`. */
  lemma ChainThroughSibling(s: Store, p: string, k: string, c1: string, j1: nat, c2: string, j2: nat)
    requires c1 in s.entries && s.entries[c1].parentId == Some(p)
    requires c2 in s.entries && s.entries[c2].parentId == Some(p)
    requires Up(s, k, j1) == Some(c1) && Up(s, k, j2) == Some(c2) && j1 < j2
    ensures Descendant(s, p, p)
  {
    var m := j2 - j1;
    UpCompose(s, k, j1, c1, m);
    assert Up(s, c1, 1) == Some(p);
    UpCompose(s, c1, 1, p, m - 1);
    UpCompose(s, p, m - 1, c2, 1);
    assert Up(s, p, m) == Some(p);
  }

  /** Two children of the same node have no node in common below them, unless the
      node lies on a cycle. */
  lemma SiblingsShareNothing(s: Store, p: string, c1: string, c2: string, k: string)
    requires c1 in s.entries && s.entries[c1].parentId == Some(p)
    requires c2 in s.entries && s.entries[c2].parentId == Some(p)
    ensures k in Subtree(s, c1) && k in Subtree(s, c2) ==> c1 == c2 || Descendant(s, p, p)
  {
    if k in Subtree(s, c1) && k in Subtree(s, c2) {
      var j1 := SubtreeDepth(s, k, c1);
      var j2 := SubtreeDepth(s, k, c2);
      if j1 < j2 {
        ChainThroughSibling(s, p, k, c1, j1, c2, j2);
      } else if j2 < j1 {
        ChainThroughSibling(s, p, k, c2, j2, c1, j1);
      }
    }
  }

  lemma FirstChildApart(s: Store, p: string, cs: seq<string>)
    requires !Descendant(s, p, p) && Distinct(cs) && cs != []
    requires forall c :: c in cs ==> c in s.entries && s.entries[c].parentId == Some(p)
    ensures forall k :: k in Subtree(s, cs[0]) ==> k !in Subtrees(s, cs[1..])
  {
    forall k | k in Subtree(s, cs[0]) ensures k !in Subtrees(s, cs[1..]) {
      InSubtrees(s, cs[1..], k);
      forall i | 0 <= i < |cs[1..]| ensures k !in Subtree(s, cs[1..][i]) {
        assert cs[1..][i] == cs[i + 1] && cs[i + 1] in cs;
        SiblingsShareNothing(s, p, cs[0], cs[i + 1], k);
      }
    }
  }

  /** Two roots have no node in common below them, as long as no node has the empty id. */
  lemma RootsShareNothing(s: Store, r1: string, r2: string, k: string)
    requires "" !in s.entries
    requires r1 in s.entries && IsRoot(s.entries[r1])
    requires r2 in s.entries && IsRoot(s.entries[r2])
    ensures k in Subtree(s, r1) && k in Subtree(s, r2) ==> r1 == r2
  {
    if k in Subtree(s, r1) && k in Subtree(s, r2) {
      var j1 := SubtreeDepth(s, k, r1);
      var j2 := SubtreeDepth(s, k, r2);
      if j1 < j2 {
        UpCompose(s, k, j1, r1, j2 - j1);
        RootChainEnds(s, r1, j2 - j1);
      } else if j2 < j1 {
        UpCompose(s, k, j2, r2, j1 - j2);
        RootChainEnds(s, r2, j1 - j2);
      }
    }
  }

  lemma FirstRootApart(s: Store, rs: seq<string>)
    requires "" !in s.entries && Distinct(rs) && rs != []
    requires forall r :: r in rs ==> r in s.entries && IsRoot(s.entries[r])
    ensures forall k :: k in Subtree(s, rs[0]) ==> k !in Subtrees(s, rs[1..])
  {
    forall k | k in Subtree(s, rs[0]) ensures k !in Subtrees(s, rs[1..]) {
      InSubtrees(s, rs[1..], k);
      forall i | 0 <= i < |rs[1..]| ensures k !in Subtree(s, rs[1..][i]) {
        assert rs[1..][i] == rs[i + 1] && rs[i + 1] in rs;
        RootsShareNothing(s, rs[0], rs[i + 1], k);
      }
    }
  }

  // ---------------------------------------------------------------------------
  // Every node is written once

  ghost predicate DistinctIds(ws: seq<Placement>) {
    forall i, j :: 0 <= i < j < |ws| ==> ws[i].id != ws[j].id
  }

  lemma DistinctConcat(a: seq<Placement>, b: seq<Placement>)
    requires DistinctIds(a) && DistinctIds(b)
    requires forall k :: k in Ids(a) ==> k !in Ids(b)
    ensures DistinctIds(a + b)
  {
    var ab := a + b;
    forall i, j | 0 <= i < j < |ab| ensures ab[i].id != ab[j].id {
      if j < |a| {
        assert ab[i] == a[i] && ab[j] == a[j];
      } else if i >= |a| {
        assert ab[i] == b[i - |a|] && ab[j] == b[j - |a|];
      } else {
        var u, v := a[i], b[j - |a|];
        assert ab[i] == u && ab[j] == v;
        assert u in a && v in b;
        assert u.id in Ids(a) && v.id in Ids(b);
      }
    }
  }

  lemma {:induction false} LayoutTreeOnce(s: Store, id: string, level: nat, offset: real)
    requires WellFormed(s) && !Descendant(s, id, id)
    ensures DistinctIds(LayoutTree(s, id, level, offset).writes)
    decreases Below(s, id), 1, 0
  {
    var cs := ChildIds(s, id);
    var kids := LayoutChildren(s, id, cs, level + 1, offset);
    var total := if cs == [] then SlotWidth else kids.width;
    var w := Max(total, SlotWidth);
    var last := Placement(id, offset + w / 2.0 - HalfBox, RowOf(level));
    TreeUnfold(s, id, level, offset, total, w, last.x);
    KeysWithParentDistinct(s.keys, s.entries, id);
    LayoutChildrenOnce(s, id, cs, level + 1, offset);
    assert forall k :: k in Ids(kids.writes) ==> k != id by {
      LayoutChildrenIds(s, id, cs, level + 1, offset);
      BelowIsChildSubtrees(s, id);
      assert id !in Below(s, id);
    }
    assert Ids([last]) == {id};
    DistinctConcat(kids.writes, [last]);
  }

  lemma {:induction false} LayoutChildrenOnce(s: Store, p: string, cs: seq<string>, level: nat, offset: real)
    requires WellFormed(s) && !Descendant(s, p, p) && Distinct(cs)
    requires forall c :: c in cs ==> c in s.entries && s.entries[c].parentId == Some(p)
    ensures DistinctIds(LayoutChildren(s, p, cs, level, offset).writes)
    decreases Below(s, p), 0, |cs|
  {
    if cs != [] {
      BelowChildSmaller(s, cs[0], p);
      var t := LayoutTree(s, cs[0], level, offset);
      var next := offset + t.width;
      var rest := LayoutChildren(s, p, cs[1..], level, next);
      ChildrenUnfold(s, p, cs, level, offset, next);
      assert LayoutChildren(s, p, cs, level, offset).writes == t.writes + rest.writes;
      assert Distinct(cs[1..]) by {
        forall i, j | 0 <= i < j < |cs[1..]| ensures cs[1..][i] != cs[1..][j] {
          assert cs[1..][i] == cs[i + 1] && cs[1..][j] == cs[j + 1];
        }
      }
      LayoutTreeOnce(s, cs[0], level, offset);
      LayoutChildrenOnce(s, p, cs[1..], level, next);
      FirstChildWritesApart(s, p, cs, level, offset, next);
      DistinctConcat(t.writes, rest.writes);
    }
  }

  /** The writes for the first child and those for the later ones touch different nodes. */
  lemma FirstChildWritesApart(s: Store, p: string, cs: seq<string>, level: nat, offset: real, next: real)
    requires WellFormed(s) && !Descendant(s, p, p) && Distinct(cs) && cs != []
    requires forall c :: c in cs ==> c in s.entries && s.entries[c].parentId == Some(p)
    requires !Descendant(s, cs[0], cs[0])
    ensures forall k :: k in Ids(LayoutTree(s, cs[0], level, offset).writes) ==>
      k !in Ids(LayoutChildren(s, p, cs[1..], level, next).writes)
  {
    LayoutTreeIds(s, cs[0], level, offset);
    LayoutChildrenIds(s, p, cs[1..], level, next);
    FirstChildApart(s, p, cs);
  }

  lemma {:induction false} LayoutRootsOnce(s: Store, rs: seq<string>, offset: real)
    requires WellFormed(s) && "" !in s.entries && Distinct(rs)
    requires forall r :: r in rs ==> r in s.entries && IsRoot(s.entries[r]) && !Descendant(s, r, r)
    ensures DistinctIds(LayoutRoots(s, rs, offset))
    decreases |rs|
  {
    if rs != [] {
      var t := LayoutTree(s, rs[0], 0, offset);
      var next := offset + t.width + RootGap;
      var rest := LayoutRoots(s, rs[1..], next);
      RootsUnfold(s, rs, offset, next);
      assert LayoutRoots(s, rs, offset) == t.writes + rest;
      assert Distinct(rs[1..]) by {
        forall i, j | 0 <= i < j < |rs[1..]| ensures rs[1..][i] != rs[1..][j] {
          assert rs[1..][i] == rs[i + 1] && rs[1..][j] == rs[j + 1];
        }
      }
      LayoutTreeOnce(s, rs[0], 0, offset);
      LayoutRootsOnce(s, rs[1..], next);
      FirstRootWritesApart(s, rs, offset, next, t.writes, rest);
      DistinctConcat(t.writes, rest);
    }
  }

  /** The writes for the first root's tree and those for the later roots touch different nodes. */
  lemma FirstRootWritesApart(s: Store, rs: seq<string>, offset: real, next: real, a: seq<Placement>, b: seq<Placement>)
    requires WellFormed(s) && "" !in s.entries && Distinct(rs) && rs != []
    requires forall r :: r in rs ==> r in s.entries && IsRoot(s.entries[r]) && !Descendant(s, r, r)
    requires a == LayoutTree(s, rs[0], 0, offset).writes
    requires b == LayoutRoots(s, rs[1..], next)
    ensures forall k :: k in Ids(a) ==> k !in Ids(b)
  {
    assert forall k :: k in Ids(a) ==> k in Subtree(s, rs[0]) by {
      LayoutTreeIds(s, rs[0], 0, offset);
    }
    assert forall k :: k in Ids(b) ==> k in Subtrees(s, rs[1..]) by {
      LayoutRootsIds(s, rs[1..], next);
    }
    FirstRootApart(s, rs);
  }

  lemma {:induction false} LastWriteOfDistinct(ws: seq<Placement>, i: nat)
    requires DistinctIds(ws) && i < |ws|
    ensures LastWrite(ws, ws[i].id) == Some(ws[i])
    decreases |ws|
  {
    if i > 0 {
      assert ws[1..][i - 1] == ws[i];
      LastWriteOfDistinct(ws[1..], i - 1);
    } else {
      forall w | w in ws[1..] ensures w.id != ws[0].id {
        var m :| 0 <= m < |ws[1..]| && ws[1..][m] == w;
        assert ws[m + 1] == w;
      }
    }
  }

  // ---------------------------------------------------------------------------
  // Spans and rows

  /** Every box written by `ws`, `2 * HalfBox` wide, lies strictly inside the span from `lo` to `hi`. */
  ghost predicate InSpan(ws: seq<Placement>, lo: real, hi: real) {
    forall w :: w in ws ==> lo < w.x && w.x + 2.0 * HalfBox < hi
  }

  /** Every write of `ws` is on row `row` or lower. */
  ghost predicate FromRow(ws: seq<Placement>, row: real) {
    forall w :: w in ws ==> row <= w.y
  }

  /** Two boxes written on the same row do not overlap, and the earlier one is to the left. */
  ghost predicate NoOverlap(ws: seq<Placement>) {
    forall i, j :: 0 <= i < j < |ws| && ws[i].y == ws[j].y ==> ws[i].x + 2.0 * HalfBox < ws[j].x
  }

  lemma NoOverlapConcat(a: seq<Placement>, b: seq<Placement>)
    requires NoOverlap(a) && NoOverlap(b)
    requires forall u, v :: u in a && v in b && u.y == v.y ==> u.x + 2.0 * HalfBox < v.x
    ensures NoOverlap(a + b)
  {
    var ab := a + b;
    forall i, j | 0 <= i < j < |ab| && ab[i].y == ab[j].y ensures ab[i].x + 2.0 * HalfBox < ab[j].x {
      if j < |a| {
        assert ab[i] == a[i] && ab[j] == a[j];
      } else if i >= |a| {
        assert ab[i] == b[i - |a|] && ab[j] == b[j - |a|];
      } else {
        assert ab[i] == a[i] && a[i] in a && ab[j] == b[j - |a|] && b[j - |a|] in b;
      }
    }
  }

  /** A subtree's boxes lie inside its span, on its row or lower, and never overlap. */
  lemma {:induction false} LayoutTreeSpan(s: Store, id: string, level: nat, offset: real)
    requires !Descendant(s, id, id)
    ensures InSpan(LayoutTree(s, id, level, offset).writes, offset, offset + LayoutTree(s, id, level, offset).width)
    ensures FromRow(LayoutTree(s, id, level, offset).writes, RowOf(level))
    ensures NoOverlap(LayoutTree(s, id, level, offset).writes)
    decreases Below(s, id), 1, 0
  {
    var cs := ChildIds(s, id);
    var kids := LayoutChildren(s, id, cs, level + 1, offset);
    var r := LayoutTree(s, id, level, offset);
    var last := r.writes[|r.writes| - 1];
    assert r.writes == kids.writes + [last];
    LayoutChildrenSpan(s, id, cs, level + 1, offset);
    assert last.x == offset + r.width / 2.0 - HalfBox && last.y == RowOf(level);
    assert cs == [] ==> kids.writes == [];
    assert cs != [] ==> kids.width <= r.width;
    assert NoOverlap([last]);
    NoOverlapConcat(kids.writes, [last]);
  }

  lemma {:induction false} LayoutChildrenSpan(s: Store, p: string, cs: seq<string>, level: nat, offset: real)
    requires !Descendant(s, p, p)
    requires forall c :: c in cs ==> c in s.entries && s.entries[c].parentId == Some(p)
    ensures InSpan(LayoutChildren(s, p, cs, level, offset).writes, offset, offset + LayoutChildren(s, p, cs, level, offset).width)
    ensures FromRow(LayoutChildren(s, p, cs, level, offset).writes, RowOf(level))
    ensures NoOverlap(LayoutChildren(s, p, cs, level, offset).writes)
    decreases Below(s, p), 0, |cs|
  {
    if cs != [] {
      BelowChildSmaller(s, cs[0], p);
      var t := LayoutTree(s, cs[0], level, offset);
      var next := offset + t.width;
      var rest := LayoutChildren(s, p, cs[1..], level, next);
      ChildrenUnfold(s, p, cs, level, offset, next);
      assert LayoutChildren(s, p, cs, level, offset) == Plan(t.writes + rest.writes, t.width + rest.width);
      LayoutTreeSpan(s, cs[0], level, offset);
      LayoutChildrenSpan(s, p, cs[1..], level, next);
      NoOverlapConcat(t.writes, rest.writes);
    }
  }

  lemma {:induction false} LayoutRootsSpan(s: Store, rs: seq<string>, offset: real)
    requires forall r :: r in rs ==> !Descendant(s, r, r)
    ensures forall w :: w in LayoutRoots(s, rs, offset) ==> offset < w.x
    ensures NoOverlap(LayoutRoots(s, rs, offset))
    decreases |rs|
  {
    if rs != [] {
      var t := LayoutTree(s, rs[0], 0, offset);
      var next := offset + t.width + RootGap;
      var rest := LayoutRoots(s, rs[1..], next);
      RootsUnfold(s, rs, offset, next);
      assert LayoutRoots(s, rs, offset) == t.writes + rest;
      LayoutTreeSpan(s, rs[0], 0, offset);
      LayoutRootsSpan(s, rs[1..], next);
      NoOverlapConcat(t.writes, rest);
    }
  }

  // ---------------------------------------------------------------------------
  // Every node one row below its parent

  /** The write at `i` is of a stored node whose parent is written later, one row higher. */
  ghost predicate ParentWrittenAbove(s: Store, ws: seq<Placement>, i: nat)
    requires i < |ws|
  {
    ws[i].id in s.entries && s.entries[ws[i].id].parentId.Some?
    && exists j :: i < j < |ws| && ws[j].id == s.entries[ws[i].id].parentId.value && ws[j].y + LevelHeight == ws[i].y
  }

  lemma ParentWrittenAboveLeft(s: Store, a: seq<Placement>, b: seq<Placement>, i: nat)
    requires i < |a| && ParentWrittenAbove(s, a, i)
    ensures ParentWrittenAbove(s, a + b, i)
  {
    var j :| i < j < |a| && a[j].id == s.entries[a[i].id].parentId.value && a[j].y + LevelHeight == a[i].y;
    assert (a + b)[j] == a[j] && (a + b)[i] == a[i];
  }

  lemma ParentWrittenAboveRight(s: Store, a: seq<Placement>, b: seq<Placement>, i: nat)
    requires i < |b| && ParentWrittenAbove(s, b, i)
    ensures ParentWrittenAbove(s, a + b, |a| + i)
  {
    var j :| i < j < |b| && b[j].id == s.entries[b[i].id].parentId.value && b[j].y + LevelHeight == b[i].y;
    assert (a + b)[|a| + j] == b[j] && (a + b)[|a| + i] == b[i];
  }

  /** In a subtree's writes, every node but the subtree's top is written below its parent. */
  ghost predicate TreeLevels(s: Store, ws: seq<Placement>, id: string, level: nat) {
    forall i :: 0 <= i < |ws| ==> (ws[i].id == id && ws[i].y == RowOf(level)) || ParentWrittenAbove(s, ws, i)
  }

  /** In the writes for the children of `p`, every node is a child of `p` on row `level`,
      or is written below its parent. */
  ghost predicate ChildrenLevels(s: Store, ws: seq<Placement>, p: string, level: nat) {
    forall i :: 0 <= i < |ws| ==>
      (ws[i].id in s.entries && s.entries[ws[i].id].parentId == Some(p) && ws[i].y == RowOf(level))
      || ParentWrittenAbove(s, ws, i)
  }

  /** In the writes of the whole layout, every node is a root on the top row, or is
      written below its parent. */
  ghost predicate ForestLevels(s: Store, ws: seq<Placement>) {
    forall i :: 0 <= i < |ws| ==>
      (ws[i].id in s.entries && IsRoot(s.entries[ws[i].id]) && ws[i].y == TopRow)
      || ParentWrittenAbove(s, ws, i)
  }

  lemma {:induction false} LayoutTreeLevels(s: Store, id: string, level: nat, offset: real)
    requires !Descendant(s, id, id)
    ensures TreeLevels(s, LayoutTree(s, id, level, offset).writes, id, level)
    decreases Below(s, id), 1, 0
  {
    var cs := ChildIds(s, id);
    var kids := LayoutChildren(s, id, cs, level + 1, offset);
    var ws := LayoutTree(s, id, level, offset).writes;
    var last := ws[|ws| - 1];
    assert ws == kids.writes + [last] && last.id == id && last.y == RowOf(level);
    LayoutChildrenLevels(s, id, cs, level + 1, offset);
    forall i | 0 <= i < |ws| ensures (ws[i].id == id && ws[i].y == RowOf(level)) || ParentWrittenAbove(s, ws, i) {
      if i < |kids.writes| {
        assert ws[i] == kids.writes[i];
        if ParentWrittenAbove(s, kids.writes, i) {
          ParentWrittenAboveLeft(s, kids.writes, [last], i);
        } else {
          assert ws[|kids.writes|] == last && last.y + LevelHeight == ws[i].y;
        }
      }
    }
  }

  lemma {:induction false} LayoutChildrenLevels(s: Store, p: string, cs: seq<string>, level: nat, offset: real)
    requires !Descendant(s, p, p)
    requires forall c :: c in cs ==> c in s.entries && s.entries[c].parentId == Some(p)
    ensures ChildrenLevels(s, LayoutChildren(s, p, cs, level, offset).writes, p, level)
    decreases Below(s, p), 0, |cs|
  {
    if cs != [] {
      BelowChildSmaller(s, cs[0], p);
      var t := LayoutTree(s, cs[0], level, offset);
      var next := offset + t.width;
      var rest := LayoutChildren(s, p, cs[1..], level, next);
      ChildrenUnfold(s, p, cs, level, offset, next);
      var ws := LayoutChildren(s, p, cs, level, offset).writes;
      assert ws == t.writes + rest.writes;
      LayoutTreeLevels(s, cs[0], level, offset);
      LayoutChildrenLevels(s, p, cs[1..], level, next);
      forall i | 0 <= i < |ws|
        ensures (ws[i].id in s.entries && s.entries[ws[i].id].parentId == Some(p) && ws[i].y == RowOf(level))
             || ParentWrittenAbove(s, ws, i)
      {
        if i < |t.writes| {
          assert ws[i] == t.writes[i];
          if ParentWrittenAbove(s, t.writes, i) {
            ParentWrittenAboveLeft(s, t.writes, rest.writes, i);
          }
        } else {
          var m := i - |t.writes|;
          assert ws[i] == rest.writes[m];
          if ParentWrittenAbove(s, rest.writes, m) {
            ParentWrittenAboveRight(s, t.writes, rest.writes, m);
          }
        }
      }
    }
  }

  lemma {:induction false} LayoutRootsLevels(s: Store, rs: seq<string>, offset: real)
    requires forall r :: r in rs ==> r in s.entries && IsRoot(s.entries[r]) && !Descendant(s, r, r)
    ensures ForestLevels(s, LayoutRoots(s, rs, offset))
    decreases |rs|
  {
    if rs != [] {
      var t := LayoutTree(s, rs[0], 0, offset);
      var next := offset + t.width + RootGap;
      var rest := LayoutRoots(s, rs[1..], next);
      RootsUnfold(s, rs, offset, next);
      var ws := LayoutRoots(s, rs, offset);
      assert ws == t.writes + rest;
      LayoutTreeLevels(s, rs[0], 0, offset);
      LayoutRootsLevels(s, rs[1..], next);
      forall i | 0 <= i < |ws|
        ensures (ws[i].id in s.entries && IsRoot(s.entries[ws[i].id]) && ws[i].y == TopRow)
             || ParentWrittenAbove(s, ws, i)
      {
        if i < |t.writes| {
          assert ws[i] == t.writes[i];
          if ParentWrittenAbove(s, t.writes, i) {
            ParentWrittenAboveLeft(s, t.writes, rest, i);
          }
        } else {
          var m := i - |t.writes|;
          assert ws[i] == rest[m];
          if ParentWrittenAbove(s, rest, m) {
            ParentWrittenAboveRight(s, t.writes, rest, m);
          }
        }
      }
    }
  }

  // ---------------------------------------------------------------------------
  // Widths

  /** The number of leaves of the tree under `id`, counted as the layout walks it. */
  function LeafCount(s: Store, id: string): (n: nat)
    requires !Descendant(s, id, id)
    ensures n >= 1
    decreases Below(s, id), 1, 0
  {
    var cs := ChildIds(s, id);
    if cs == [] then 1 else LeafCountUnder(s, id, cs)
  }

  function LeafCountUnder(s: Store, p: string, cs: seq<string>): (n: nat)
    requires !Descendant(s, p, p)
    requires forall c :: c in cs ==> c in s.entries && s.entries[c].parentId == Some(p)
    ensures n >= |cs|
    decreases Below(s, p), 0, |cs|
  {
    if cs == [] then 0
    else
      BelowChildSmaller(s, cs[0], p);
      LeafCount(s, cs[0]) + LeafCountUnder(s, p, cs[1..])
  }

  /** The width of `n` slots side by side. */
  function Slots(n: nat): (w: real)
    ensures w >= 0.0
  {
    if n == 0 then 0.0 else SlotWidth + Slots(n - 1)
  }

  lemma {:induction false} SlotsAdd(a: nat, b: nat)
    ensures Slots(a) + Slots(b) == Slots(a + b)
    decreases b
  {
    if b > 0 {
      SlotsAdd(a, b - 1);
    }
  }

  /** A subtree's span is one slot per leaf: 180 for a leaf, and for any other node the
      sum of its children's spans. */
  lemma {:induction false} LayoutTreeWidth(s: Store, id: string, level: nat, offset: real)
    requires !Descendant(s, id, id)
    ensures LayoutTree(s, id, level, offset).width == Slots(LeafCount(s, id))
    decreases Below(s, id), 1, 0
  {
    var cs := ChildIds(s, id);
    if cs != [] {
      LayoutChildrenWidth(s, id, cs, level + 1, offset);
      assert Slots(LeafCount(s, id)) >= SlotWidth;
    }
  }

  lemma {:induction false} LayoutChildrenWidth(s: Store, p: string, cs: seq<string>, level: nat, offset: real)
    requires !Descendant(s, p, p)
    requires forall c :: c in cs ==> c in s.entries && s.entries[c].parentId == Some(p)
    ensures LayoutChildren(s, p, cs, level, offset).width == Slots(LeafCountUnder(s, p, cs))
    decreases Below(s, p), 0, |cs|
  {
    if cs != [] {
      BelowChildSmaller(s, cs[0], p);
      var t := LayoutTree(s, cs[0], level, offset);
      var next := offset + t.width;
      ChildrenUnfold(s, p, cs, level, offset, next);
      LayoutTreeWidth(s, cs[0], level, offset);
      LayoutChildrenWidth(s, p, cs[1..], level, next);
      var a, b := LeafCount(s, cs[0]), LeafCountUnder(s, p, cs[1..]);
      assert LeafCountUnder(s, p, cs) == a + b;
      SlotsAdd(a, b);
    }
  }

  /** The nodes of the subtree of `a` that have no children. */
  ghost function Leaves(s: Store, a: string): set<string> {
    set k | k in Subtree(s, a) && ChildIds(s, k) == []
  }

  /** The nodes without children in the subtrees of `cs`. */
  ghost function LeavesUnder(s: Store, cs: seq<string>): set<string> {
    set k | k in Subtrees(s, cs) && ChildIds(s, k) == []
  }

  lemma CardDisjointUnion(a: set<string>, b: set<string>)
    requires forall k :: k in a ==> k !in b
    ensures |a + b| == |a| + |b|
  {
    assert a * b == {};
  }

  /** The count the layout makes is the number of childless nodes in the subtree. */
  lemma {:induction false} LeafCountIsLeaves(s: Store, id: string)
    requires WellFormed(s) && !Descendant(s, id, id)
    ensures LeafCount(s, id) == |Leaves(s, id)|
    decreases Below(s, id), 1, 0
  {
    var cs := ChildIds(s, id);
    if cs == [] {
      LeavesOfLeaf(s, id);
    } else {
      KeysWithParentDistinct(s.keys, s.entries, id);
      LeafCountUnderIsLeaves(s, id, cs);
      LeavesOfInner(s, id);
    }
  }

  lemma LeavesOfLeaf(s: Store, id: string)
    requires WellFormed(s) && ChildIds(s, id) == []
    ensures Leaves(s, id) == {id}
  {
    BelowIsChildSubtrees(s, id);
    assert Subtree(s, id) == {id};
  }

  lemma LeavesOfInner(s: Store, id: string)
    requires WellFormed(s) && ChildIds(s, id) != []
    ensures Leaves(s, id) == LeavesUnder(s, ChildIds(s, id))
  {
    BelowIsChildSubtrees(s, id);
  }

  lemma {:induction false} LeafCountUnderIsLeaves(s: Store, p: string, cs: seq<string>)
    requires WellFormed(s) && !Descendant(s, p, p) && Distinct(cs)
    requires forall c :: c in cs ==> c in s.entries && s.entries[c].parentId == Some(p)
    ensures LeafCountUnder(s, p, cs) == |LeavesUnder(s, cs)|
    decreases Below(s, p), 0, |cs|
  {
    if cs == [] {
      assert LeavesUnder(s, cs) == {};
    } else {
      BelowChildSmaller(s, cs[0], p);
      assert Distinct(cs[1..]) by {
        forall i, j | 0 <= i < j < |cs[1..]| ensures cs[1..][i] != cs[1..][j] {
          assert cs[1..][i] == cs[i + 1] && cs[1..][j] == cs[j + 1];
        }
      }
      LeafCountIsLeaves(s, cs[0]);
      LeafCountUnderIsLeaves(s, p, cs[1..]);
      LeavesUnderCons(s, p, cs);
    }
  }

  /** The leaves under a list of siblings are those of the first one and those under the
      rest, with none counted twice. */
  lemma LeavesUnderCons(s: Store, p: string, cs: seq<string>)
    requires !Descendant(s, p, p) && Distinct(cs) && cs != []
    requires forall c :: c in cs ==> c in s.entries && s.entries[c].parentId == Some(p)
    ensures |LeavesUnder(s, cs)| == |Leaves(s, cs[0])| + |LeavesUnder(s, cs[1..])|
  {
    var a, b := Leaves(s, cs[0]), LeavesUnder(s, cs[1..]);
    assert LeavesUnder(s, cs) == a + b by {
      SubtreesCons(s, cs);
    }
    assert forall k :: k in a ==> k !in b by {
      FirstChildApart(s, p, cs);
    }
    CardDisjointUnion(a, b);
  }

  // ---------------------------------------------------------------------------
  // The store after the layout

  /** The nodes `autoLayout` reaches: the roots and everything below them. */
  ghost function LaidOut(s: Store): set<string>
    requires WellFormed(s)
  {
    Subtrees(s, RootIds(s))
  }

  /** What the writes of the whole layout are, when no node has the empty id: one write per
      node reached from a root, each box on the top row or one row below its parent's,
      no two boxes of a row overlapping. */
  lemma AutoLayoutWrites(s: Store)
    requires WellFormed(s) && "" !in s.entries
    ensures LayoutTerminates(s)
    ensures DistinctIds(LayoutForest(s)) && Ids(LayoutForest(s)) == LaidOut(s)
    ensures NoOverlap(LayoutForest(s)) && ForestLevels(s, LayoutForest(s))
  {
    LayoutTerminatesWithoutEmptyId(s);
    var rs := RootIds(s);
    LayoutRootsOnce(s, rs, FirstOffset);
    LayoutRootsIds(s, rs, FirstOffset);
    LayoutRootsSpan(s, rs, FirstOffset);
    LayoutRootsLevels(s, rs, FirstOffset);
  }

  /** The laid-out nodes are stored nodes. */
  lemma LaidOutStored(s: Store, k: string)
    requires WellFormed(s) && k in LaidOut(s)
    ensures k in s.entries
  {
    var rs := RootIds(s);
    InSubtrees(s, rs, k);
    var i :| 0 <= i < |rs| && k in Subtree(s, rs[i]);
    if k != rs[i] {
      DescendantStored(s, k, rs[i]);
    }
  }

  /** Each written node ends with the coordinates of its one write. */
  lemma AutoLayoutMoves(s: Store, i: nat)
    requires WellFormed(s) && "" !in s.entries && LayoutTerminates(s)
    requires i < |LayoutForest(s)|
    ensures LayoutForest(s)[i].id in s.entries
    ensures AutoLaidOut(s).entries[LayoutForest(s)[i].id]
      == s.entries[LayoutForest(s)[i].id].(x := LayoutForest(s)[i].x, y := LayoutForest(s)[i].y)
  {
    var ws := LayoutForest(s);
    AutoLayoutWrites(s);
    assert ws[i].id in Ids(ws);
    LaidOutStored(s, ws[i].id);
    LastWriteOfDistinct(ws, i);
    ApplyPlacementsValue(s, ws, ws[i].id);
  }

  /** A node not reached from any root keeps its coordinates; every node keeps its other fields. */
  lemma AutoLayoutKeeps(s: Store, k: string)
    requires WellFormed(s) && LayoutTerminates(s) && k in s.entries
    ensures k in AutoLaidOut(s).entries
    ensures AutoLaidOut(s).entries[k] == s.entries[k].(x := AutoLaidOut(s).entries[k].x, y := AutoLaidOut(s).entries[k].y)
    ensures k !in LaidOut(s) ==> AutoLaidOut(s).entries[k] == s.entries[k]
  {
    var ws := LayoutForest(s);
    LayoutRootsIds(s, RootIds(s), FirstOffset);
    LastWriteNone(ws, k);
    ApplyPlacementsValue(s, ws, k);
  }

  /** The write to a laid-out node. */
  lemma WriteOf(s: Store, k: string) returns (i: nat)
    requires WellFormed(s) && LayoutTerminates(s) && k in LaidOut(s)
    ensures i < |LayoutForest(s)| && LayoutForest(s)[i].id == k
  {
    var ws := LayoutForest(s);
    LayoutRootsIds(s, RootIds(s), FirstOffset);
    assert k in Ids(ws);
    var w :| w in ws && w.id == k;
    i :| 0 <= i < |ws| && ws[i] == w;
  }

  /** After the layout, a laid-out root is on the top row and any other laid-out node is
      one row below its parent, which is laid out too. */
  lemma AutoLayoutRows(s: Store, k: string)
    requires WellFormed(s) && "" !in s.entries && LayoutTerminates(s) && k in LaidOut(s)
    ensures k in s.entries && k in AutoLaidOut(s).entries
    ensures IsRoot(s.entries[k]) ==> AutoLaidOut(s).entries[k].y == TopRow
    ensures !IsRoot(s.entries[k]) ==>
      var p := s.entries[k].parentId.value;
      p in LaidOut(s) && p in AutoLaidOut(s).entries
      && AutoLaidOut(s).entries[p].y + LevelHeight == AutoLaidOut(s).entries[k].y
  {
    LaidOutStored(s, k);
    var i := WriteOf(s, k);
    AutoLayoutMoves(s, i);
    if IsRoot(s.entries[k]) {
      RootRow(s, i);
    } else {
      ParentRow(s, i);
    }
  }

  /** A root's write is on the top row: it cannot have a parent written above it,
      since no node has the empty id. */
  lemma RootRow(s: Store, i: nat)
    requires WellFormed(s) && "" !in s.entries && LayoutTerminates(s)
    requires i < |LayoutForest(s)|
    requires LayoutForest(s)[i].id in s.entries && IsRoot(s.entries[LayoutForest(s)[i].id])
    ensures LayoutForest(s)[i].y == TopRow
  {
    var ws := LayoutForest(s);
    AutoLayoutWrites(s);
    assert !ParentWrittenAbove(s, ws, i);
  }

  /** A non-root's write is one row below the write of its parent. */
  lemma ParentRow(s: Store, i: nat)
    requires WellFormed(s) && "" !in s.entries && LayoutTerminates(s)
    requires i < |LayoutForest(s)|
    requires LayoutForest(s)[i].id in s.entries && !IsRoot(s.entries[LayoutForest(s)[i].id])
    ensures var p := s.entries[LayoutForest(s)[i].id].parentId.value;
      p in LaidOut(s) && p in AutoLaidOut(s).entries
      && AutoLaidOut(s).entries[p].y + LevelHeight == LayoutForest(s)[i].y
  {
    var ws := LayoutForest(s);
    AutoLayoutWrites(s);
    assert ParentWrittenAbove(s, ws, i);
    var j :| i < j < |ws| && ws[j].id == s.entries[ws[i].id].parentId.value && ws[j].y + LevelHeight == ws[i].y;
    assert ws[j].id in Ids(ws);
    AutoLayoutMoves(s, j);
  }

  /** After the layout, two different laid-out nodes on the same row do not overlap. */
  lemma AutoLayoutApart(s: Store, k1: string, k2: string)
    requires WellFormed(s) && "" !in s.entries && LayoutTerminates(s) && k1 in LaidOut(s) && k2 in LaidOut(s) && k1 != k2
    ensures k1 in AutoLaidOut(s).entries && k2 in AutoLaidOut(s).entries
    ensures AutoLaidOut(s).entries[k1].y == AutoLaidOut(s).entries[k2].y ==>
      AutoLaidOut(s).entries[k1].x + 2.0 * HalfBox < AutoLaidOut(s).entries[k2].x
      || AutoLaidOut(s).entries[k2].x + 2.0 * HalfBox < AutoLaidOut(s).entries[k1].x
  {
    var ws := LayoutForest(s);
    AutoLayoutWrites(s);
    LaidOutStored(s, k1);
    LaidOutStored(s, k2);
    var i1 := WriteOf(s, k1);
    var i2 := WriteOf(s, k2);
    AutoLayoutMoves(s, i1);
    AutoLayoutMoves(s, i2);
  }
}
