/** The editor's node table (app.js): department nodes keyed by id in a `Map`,
    children found by scanning for a `parentId`, and the ancestor relation that
    the recursive delete and the auto-layout walk. */
module AppStore {
  import opened Wrappers
  import opened JsMap

  /** A department box of the editor. `parentId == None` is `null`; `x`, `y` are the
      canvas coordinates of the box's top-left corner. */
  datatype Node = Node(id: string, deptName: string, position: string, personName: string,
                       parentId: Option<string>, x: real, y: real)

  type Store = Table<Node>

  /** The table as the editor keeps it: every node is stored under its own id. */
  ghost predicate WellFormed(s: Store) {
    Valid(s) && forall k :: k in s.entries ==> s.entries[k].id == k
  }

  /** The keys among `ks` whose node's `parentId` is `p`, in the order of `ks`. */
  function KeysWithParent(ks: seq<string>, e: map<string, Node>, p: string): (r: seq<string>)
    ensures forall k :: k in r <==> k in ks && k in e && e[k].parentId == Some(p)
    decreases |ks|
  {
    if ks == [] then []
    else
      var front, last := ks[..|ks| - 1], ks[|ks| - 1];
      assert ks == front + [last];
      KeysWithParent(front, e, p) + (if last in e && e[last].parentId == Some(p) then [last] else [])
  }

  /** No key is kept twice from a list without repeats. */
  lemma {:induction false} KeysWithParentDistinct(ks: seq<string>, e: map<string, Node>, p: string)
    requires Distinct(ks)
    ensures Distinct(KeysWithParent(ks, e, p))
    decreases |ks|
  {
    if ks != [] {
      var front, last := ks[..|ks| - 1], ks[|ks| - 1];
      assert ks == front + [last];
      assert Distinct(front) by {
        forall i, j | 0 <= i < j < |front| ensures front[i] != front[j] {
          assert front[i] == ks[i] && front[j] == ks[j];
        }
      }
      KeysWithParentDistinct(front, e, p);
      assert last !in front by {
        forall i | 0 <= i < |front| ensures front[i] != last {
          assert front[i] == ks[i];
        }
      }
    }
  }

  /** Extending the scanned prefix by one key adds that key when its node has parent `p`. */
  lemma KeysWithParentNext(ks: seq<string>, e: map<string, Node>, p: string, i: nat)
    requires i < |ks|
    ensures KeysWithParent(ks[..i + 1], e, p)
      == KeysWithParent(ks[..i], e, p) + (if ks[i] in e && e[ks[i]].parentId == Some(p) then [ks[i]] else [])
  {
    assert ks[..i + 1][..i] == ks[..i];
  }

  /** `x` occurs in `ks` somewhere before `y`. */
  ghost predicate Before(ks: seq<string>, x: string, y: string) {
    exists a, b :: 0 <= a < b < |ks| && ks[a] == x && ks[b] == y
  }

  /** Every two elements of `r` occur in `ks` in the same order. */
  ghost predicate InOrder(r: seq<string>, ks: seq<string>) {
    forall i, j :: 0 <= i < j < |r| ==> Before(ks, r[i], r[j])
  }

  /** The keys `KeysWithParent` keeps come in the order they have in `ks`. */
  lemma {:induction false} KeysWithParentOrdered(ks: seq<string>, e: map<string, Node>, p: string)
    ensures InOrder(KeysWithParent(ks, e, p), ks)
    decreases |ks|
  {
    if ks != [] {
      var front, last := ks[..|ks| - 1], ks[|ks| - 1];
      var q := KeysWithParent(front, e, p);
      var r := KeysWithParent(ks, e, p);
      KeysWithParentOrdered(front, e, p);
      assert ks == front + [last];
      assert r == q + (if last in e && e[last].parentId == Some(p) then [last] else []);
      assert r[..|q|] == q;
      forall i, j | 0 <= i < j < |r| ensures Before(ks, r[i], r[j]) {
        if j < |q| {
          assert r[i] == q[i] && r[j] == q[j];
          assert Before(front, q[i], q[j]);
          var a, b :| 0 <= a < b < |front| && front[a] == q[i] && front[b] == q[j];
          assert ks[a] == r[i] && ks[b] == r[j];
        } else {
          assert r[j] == last && r[i] == q[i] && q[i] in front;
          var a :| 0 <= a < |front| && front[a] == q[i];
          assert ks[a] == r[i] && ks[|ks| - 1] == r[j];
        }
      }
      assert InOrder(r, ks);
    }
  }

  /** The ids `getChildren(p)` returns, in store order. */
  function ChildIds(s: Store, p: string): seq<string> {
    KeysWithParent(s.keys, s.entries, p)
  }

  /** `getChildren(p)`: the nodes whose `parentId` is `p`, in store order. */
  function Children(s: Store, p: string): (r: seq<Node>)
    requires WellFormed(s)
    ensures |r| == |ChildIds(s, p)|
    ensures forall i :: 0 <= i < |r| ==> r[i] == s.entries[ChildIds(s, p)[i]] && r[i].id == ChildIds(s, p)[i]
  {
    var ids := ChildIds(s, p);
    seq(|ids|, i requires 0 <= i < |ids| => s.entries[ids[i]])
  }

  /** A node is returned by `getChildren(p)` exactly when it is stored and its parent is `p`;
      the nodes come in store order. */
  lemma ChildrenExactly(s: Store, p: string)
    requires WellFormed(s)
    ensures forall n :: n in Children(s, p) <==> n in s.entries.Values && n.parentId == Some(p)
    ensures InOrder(seq(|Children(s, p)|, i requires 0 <= i < |Children(s, p)| => Children(s, p)[i].id), s.keys)
  {
    ChildrenMembers(s, p);
    var r, ids := Children(s, p), ChildIds(s, p);
    KeysWithParentOrdered(s.keys, s.entries, p);
    assert seq(|r|, i requires 0 <= i < |r| => r[i].id) == ids;
  }

  lemma ChildrenMembers(s: Store, p: string)
    requires WellFormed(s)
    ensures forall n :: n in Children(s, p) <==> n in s.entries.Values && n.parentId == Some(p)
  {
    var r, ids := Children(s, p), ChildIds(s, p);
    forall n | n in s.entries.Values && n.parentId == Some(p) ensures n in r {
      var k :| k in s.entries && s.entries[k] == n;
      assert k in ids;
      var i :| 0 <= i < |ids| && ids[i] == k;
      assert r[i] == n;
    }
  }

  /** A list holding, in order, the stored node of each id `getChildren` keeps is its result. */
  lemma ChildrenOfIds(s: Store, p: string, ids: seq<string>, children: seq<Node>)
    requires WellFormed(s) && ids == ChildIds(s, p) && |children| == |ids|
    requires forall j :: 0 <= j < |ids| ==> ids[j] in s.entries && children[j] == s.entries[ids[j]]
    ensures children == Children(s, p)
  {
    var r := Children(s, p);
    assert forall j :: 0 <= j < |children| ==> children[j] == r[j];
  }

  // ---------------------------------------------------------------------------
  // The ancestor relation

  /** One step up the parent chain: the `parentId` of a stored node, otherwise nothing. */
  function Step(s: Store, k: Option<string>): Option<string> {
    if k.Some? && k.value in s.entries then s.entries[k.value].parentId else None
  }

  /** The id reached from `d` after following `parentId` `j` times. The test is the same
      `===` on ids that `getChildren` uses, so the chain of `d` reaches `a` exactly when
      `d` is found by repeated `getChildren` calls starting from `a`. */
  function Up(s: Store, d: string, j: nat): Option<string> {
    if j == 0 then Some(d) else Step(s, Up(s, d, j - 1))
  }

  /** `d` is a stored node below `a`: a child of `a`, a child of a child, and so on. */
  ghost predicate Descendant(s: Store, d: string, a: string) {
    exists j: nat :: 1 <= j && Up(s, d, j) == Some(a)
  }

  /** The stored nodes below `a`. */
  ghost function Below(s: Store, a: string): set<string> {
    set k | k in s.entries && Descendant(s, k, a)
  }

  /** `a` together with every node below it. */
  ghost function Subtree(s: Store, a: string): set<string> {
    {a} + Below(s, a)
  }

  /** The union of the subtrees of `cs`. */
  ghost function Subtrees(s: Store, cs: seq<string>): set<string>
    decreases |cs|
  {
    if cs == [] then {} else Subtrees(s, cs[..|cs| - 1]) + Subtree(s, cs[|cs| - 1])
  }

  lemma {:induction false} InSubtrees(s: Store, cs: seq<string>, k: string)
    ensures k in Subtrees(s, cs) <==> exists i :: 0 <= i < |cs| && k in Subtree(s, cs[i])
    decreases |cs|
  {
    if cs != [] {
      var front := cs[..|cs| - 1];
      InSubtrees(s, front, k);
      if k in Subtrees(s, front) {
        var i :| 0 <= i < |front| && k in Subtree(s, front[i]);
        assert cs[i] == front[i];
      }
      if exists i :: 0 <= i < |cs| && k in Subtree(s, cs[i]) {
        var i :| 0 <= i < |cs| && k in Subtree(s, cs[i]);
        if i < |front| { assert front[i] == cs[i]; }
      }
    }
  }

  lemma DescendantStored(s: Store, d: string, a: string)
    requires Descendant(s, d, a)
    ensures d in s.entries
  {
    var j: nat :| 1 <= j && Up(s, d, j) == Some(a);
    UpStored(s, d, j);
  }

  lemma {:induction false} UpStored(s: Store, d: string, j: nat)
    requires 1 <= j && Up(s, d, j).Some?
    ensures d in s.entries
  {
    if j > 1 { UpStored(s, d, j - 1); }
  }

  /** Following `a` steps and then `n` more is following `n` steps from where `a` steps led. */
  lemma {:induction false} UpCompose(s: Store, d: string, a: nat, x: string, n: nat)
    requires Up(s, d, a) == Some(x)
    ensures Up(s, d, a + n) == Up(s, x, n)
  {
    if n > 0 { UpCompose(s, d, a, x, n - 1); }
  }

  lemma ChildIsDescendant(s: Store, c: string, p: string)
    requires c in s.entries && s.entries[c].parentId == Some(p)
    ensures Descendant(s, c, p)
  {
    assert Up(s, c, 1) == Some(p);
  }

  lemma DescendantOfChild(s: Store, d: string, c: string, p: string)
    requires Descendant(s, d, c)
    requires c in s.entries && s.entries[c].parentId == Some(p)
    ensures Descendant(s, d, p)
  {
    var j: nat :| 1 <= j && Up(s, d, j) == Some(c);
    assert Up(s, d, j + 1) == Some(p);
  }

  /** Everything below `a` is a child of `a` or below a child of `a`. */
  lemma DescendantSplit(s: Store, d: string, a: string)
    requires Descendant(s, d, a)
    ensures (d in s.entries && s.entries[d].parentId == Some(a))
         || exists c :: c in s.entries && s.entries[c].parentId == Some(a) && Descendant(s, d, c)
  {
    var j: nat :| 1 <= j && Up(s, d, j) == Some(a);
    if j == 1 {
      assert Up(s, d, 0) == Some(d);
    } else {
      var c := Up(s, d, j - 1).value;
      assert Descendant(s, d, c);
    }
  }

  /** A cycle through a child passes through its parent. */
  lemma CycleThroughParent(s: Store, c: string, p: string)
    requires c in s.entries && s.entries[c].parentId == Some(p)
    ensures Descendant(s, c, c) ==> Descendant(s, p, p)
  {
    if Descendant(s, c, c) {
      var j: nat :| 1 <= j && Up(s, c, j) == Some(c);
      assert Up(s, c, 1) == Some(p);
      UpCompose(s, c, 1, p, j);
      UpCompose(s, c, j, c, 1);
      assert Up(s, p, j) == Some(p);
    }
  }

  /** The nodes below a child form a proper part of the nodes below its parent: the
      measure that makes the recursive delete and the layout terminate. */
  lemma BelowChildSmaller(s: Store, c: string, p: string)
    requires c in s.entries && s.entries[c].parentId == Some(p)
    requires !Descendant(s, p, p)
    ensures !Descendant(s, c, c)
    ensures Below(s, c) < Below(s, p)
  {
    CycleThroughParent(s, c, p);
    ChildIsDescendant(s, c, p);
    forall k | k in Below(s, c) ensures k in Below(s, p) {
      DescendantOfChild(s, k, c, p);
    }
    assert c in Below(s, p) && c !in Below(s, c);
  }

  /** The nodes below `a` are the subtrees of its children. */
  lemma BelowIsChildSubtrees(s: Store, a: string)
    requires WellFormed(s)
    ensures Below(s, a) == Subtrees(s, ChildIds(s, a))
  {
    forall k | k in Below(s, a) ensures k in Subtrees(s, ChildIds(s, a)) {
      BelowInChildSubtrees(s, a, k);
    }
    forall k | k in Subtrees(s, ChildIds(s, a)) ensures k in Below(s, a) {
      ChildSubtreesInBelow(s, a, k);
    }
  }

  lemma BelowInChildSubtrees(s: Store, a: string, k: string)
    requires WellFormed(s)
    requires k in Below(s, a)
    ensures k in Subtrees(s, ChildIds(s, a))
  {
    var cs := ChildIds(s, a);
    DescendantSplit(s, k, a);
    var c: string;
    if k in s.entries && s.entries[k].parentId == Some(a) {
      c := k;
    } else {
      c :| c in s.entries && s.entries[c].parentId == Some(a) && Descendant(s, k, c);
    }
    assert c in cs;
    var i :| 0 <= i < |cs| && cs[i] == c;
    assert k in Subtree(s, cs[i]);
    InSubtrees(s, cs, k);
  }

  lemma ChildSubtreesInBelow(s: Store, a: string, k: string)
    requires WellFormed(s)
    requires k in Subtrees(s, ChildIds(s, a))
    ensures k in Below(s, a)
  {
    var cs := ChildIds(s, a);
    InSubtrees(s, cs, k);
    var i :| 0 <= i < |cs| && k in Subtree(s, cs[i]);
    var c := cs[i];
    assert c in cs;
    if k == c {
      ChildIsDescendant(s, c, a);
    } else {
      DescendantOfChild(s, k, c, a);
      DescendantStored(s, k, a);
    }
  }

  // ---------------------------------------------------------------------------
  // Removing nodes

  /** `t` holds some of the nodes of `s`, unchanged. */
  ghost predicate SubStore(t: Store, s: Store) {
    forall k :: k in t.entries ==> k in s.entries && t.entries[k] == s.entries[k]
  }

  lemma {:induction false} UpInSubStore(t: Store, s: Store, d: string, j: nat, x: string)
    requires SubStore(t, s)
    requires Up(t, d, j) == Some(x)
    ensures Up(s, d, j) == Some(x)
  {
    if j > 0 {
      var y := Up(t, d, j - 1).value;
      UpInSubStore(t, s, d, j - 1, y);
    }
  }

  /** Removing nodes never creates an ancestor link. */
  lemma BelowInSubStore(t: Store, s: Store, a: string)
    requires SubStore(t, s)
    ensures forall k :: Descendant(t, k, a) ==> Descendant(s, k, a)
    ensures Below(t, a) <= Below(s, a)
  {
    forall k | Descendant(t, k, a) ensures Descendant(s, k, a) {
      var j: nat :| 1 <= j && Up(t, k, j) == Some(a);
      UpInSubStore(t, s, k, j, a);
    }
  }

  /** With every child of a member of `r` also in `r`. */
  ghost predicate DownClosed(s: Store, r: set<string>) {
    forall k :: k in s.entries && s.entries[k].parentId.Some? && s.entries[k].parentId.value in r ==> k in r
  }

  lemma SubtreeDownClosed(s: Store, a: string)
    ensures DownClosed(s, Subtree(s, a))
  {
    forall k | k in s.entries && s.entries[k].parentId.Some? && s.entries[k].parentId.value in Subtree(s, a)
      ensures k in Subtree(s, a)
    {
      var p := s.entries[k].parentId.value;
      if p == a {
        ChildIsDescendant(s, k, a);
      } else {
        DescendantOfChildTrans(s, k, p, a);
      }
    }
  }

  lemma DescendantOfChildTrans(s: Store, k: string, p: string, a: string)
    requires k in s.entries && s.entries[k].parentId == Some(p)
    requires Descendant(s, p, a)
    ensures Descendant(s, k, a)
  {
    var j: nat :| 1 <= j && Up(s, p, j) == Some(a);
    assert Up(s, k, 1) == Some(p);
    UpCompose(s, k, 1, p, j);
  }

  /** After deleting a down-closed set, a surviving node keeps its whole parent chain. */
  lemma {:induction false} UpSurvives(s: Store, r: set<string>, d: string, j: nat, x: string)
    requires Valid(s) && DownClosed(s, r)
    requires d in s.entries && d !in r
    requires Up(s, d, j) == Some(x)
    ensures x in s.entries ==> x !in r
    ensures Up(DeleteAll(s, r), d, j) == Some(x)
  {
    if j > 0 {
      var y := Up(s, d, j - 1).value;
      UpSurvives(s, r, d, j - 1, y);
      assert y in s.entries && s.entries[y].parentId == Some(x);
    }
  }

  lemma DescendantSurvives(s: Store, r: set<string>, d: string, a: string)
    requires Valid(s) && DownClosed(s, r)
    requires d in s.entries && d !in r
    requires Descendant(s, d, a)
    ensures Descendant(DeleteAll(s, r), d, a)
  {
    var j: nat :| 1 <= j && Up(s, d, j) == Some(a);
    UpSurvives(s, r, d, j, a);
  }
}
