/** What the editor's cascading delete (app.js `deleteNode`) removes: a node's children
    are deleted first, one whole subtree after another, and then the node itself. The
    lemmas here follow that order: the subtrees already deleted do not touch the next
    child's subtree, so each recursive call removes exactly what it would have removed
    from the original table. */
module AppDelete {
  import opened JsMap
  import opened AppStore
  import opened AppLayout

  /** The table after the subtrees of the first `i` children in `cs` are deleted. */
  ghost function Pruned(s: Store, cs: seq<string>, i: nat): (t: Store)
    requires WellFormed(s) && i <= |cs|
    ensures WellFormed(t)
  {
    DeleteAll(s, Subtrees(s, cs[..i]))
  }

  /** A union of subtrees holds every child of each of its members. */
  lemma {:induction false} SubtreesDownClosed(s: Store, cs: seq<string>)
    ensures DownClosed(s, Subtrees(s, cs))
    decreases |cs|
  {
    if cs != [] {
      SubtreesDownClosed(s, cs[..|cs| - 1]);
      SubtreeDownClosed(s, cs[|cs| - 1]);
    }
  }

  /** Deleting a down-closed set that misses the subtree of `c` leaves that subtree as it was. */
  lemma SubtreeSurvives(s: Store, r: set<string>, c: string)
    requires WellFormed(s) && DownClosed(s, r)
    requires forall k :: k in Subtree(s, c) ==> k !in r
    ensures Below(DeleteAll(s, r), c) == Below(s, c)
    ensures Subtree(DeleteAll(s, r), c) == Subtree(s, c)
    ensures Descendant(DeleteAll(s, r), c, c) ==> Descendant(s, c, c)
  {
    var t := DeleteAll(s, r);
    assert SubStore(t, s);
    BelowInSubStore(t, s, c);
    forall k | k in Below(s, c) ensures k in Below(t, c) {
      DescendantSurvives(s, r, k, c);
    }
  }

  /** The first `i` siblings' subtrees and the next sibling's subtree share no node. */
  lemma EarlierSiblingsApart(s: Store, p: string, cs: seq<string>, i: nat)
    requires WellFormed(s) && !Descendant(s, p, p) && cs == ChildIds(s, p) && i < |cs|
    ensures forall k :: k in Subtree(s, cs[i]) ==> k !in Subtrees(s, cs[..i])
  {
    KeysWithParentDistinct(s.keys, s.entries, p);
    var front := cs[..i];
    forall k | k in Subtree(s, cs[i]) ensures k !in Subtrees(s, front) {
      InSubtrees(s, front, k);
      forall j | 0 <= j < i ensures k !in Subtree(s, front[j]) {
        SiblingApart(s, p, cs, i, j, k);
      }
    }
  }

  /** The subtree of the `i`-th child and that of an earlier one share no node. */
  lemma SiblingApart(s: Store, p: string, cs: seq<string>, i: nat, j: nat, k: string)
    requires WellFormed(s) && !Descendant(s, p, p) && cs == ChildIds(s, p) && Distinct(cs)
    requires j < i < |cs| && k in Subtree(s, cs[i])
    ensures k !in Subtree(s, cs[..i][j])
  {
    assert cs[..i][j] == cs[j] && cs[j] in cs && cs[i] in cs;
    SiblingsShareNothing(s, p, cs[j], cs[i], k);
  }

  /** One turn of the loop over the children: in the table left by the earlier turns the
      next child is stored, not on a cycle and has fewer nodes below it than `p`, and
      deleting its subtree there leaves the table with one more child's subtree deleted. */
  lemma DeleteChildStep(s: Store, p: string, cs: seq<string>, i: nat)
    requires WellFormed(s) && !Descendant(s, p, p) && cs == ChildIds(s, p) && i < |cs|
    ensures cs[i] in Pruned(s, cs, i).entries
    ensures !Descendant(Pruned(s, cs, i), cs[i], cs[i])
    ensures Below(Pruned(s, cs, i), cs[i]) < Below(s, p)
    ensures DeleteAll(Pruned(s, cs, i), Subtree(Pruned(s, cs, i), cs[i])) == Pruned(s, cs, i + 1)
  {
    assert cs[i] in cs;
    BelowChildSmaller(s, cs[i], p);
    ChildSurvives(s, p, cs, i);
    PruneNext(s, p, cs, i);
  }

  /** Deleting the next child's subtree from the table left by the earlier turns. */
  lemma PruneNext(s: Store, p: string, cs: seq<string>, i: nat)
    requires WellFormed(s) && !Descendant(s, p, p) && cs == ChildIds(s, p) && i < |cs|
    ensures DeleteAll(Pruned(s, cs, i), Subtree(Pruned(s, cs, i), cs[i])) == Pruned(s, cs, i + 1)
  {
    var c := cs[i];
    var r := Subtrees(s, cs[..i]);
    var x := Subtree(s, c);
    var t := Pruned(s, cs, i);
    assert t == DeleteAll(s, r);
    assert Subtree(t, c) == x by {
      ChildSurvives(s, p, cs, i);
    }
    DeleteAllTwice(s, r, x);
    assert Subtrees(s, cs[..i + 1]) == r + x by {
      assert cs[..i + 1][..i] == cs[..i] && cs[..i + 1][i] == c;
    }
  }

  /** The subtree of the next child is untouched by deleting the earlier children's subtrees. */
  lemma ChildSurvives(s: Store, p: string, cs: seq<string>, i: nat)
    requires WellFormed(s) && !Descendant(s, p, p) && cs == ChildIds(s, p) && i < |cs|
    ensures cs[i] in Pruned(s, cs, i).entries
    ensures Below(Pruned(s, cs, i), cs[i]) == Below(s, cs[i])
    ensures Subtree(Pruned(s, cs, i), cs[i]) == Subtree(s, cs[i])
    ensures Descendant(Pruned(s, cs, i), cs[i], cs[i]) ==> Descendant(s, cs[i], cs[i])
  {
    var c := cs[i];
    var r := Subtrees(s, cs[..i]);
    assert c in cs;
    SubtreesDownClosed(s, cs[..i]);
    EarlierSiblingsApart(s, p, cs, i);
    SubtreeSurvives(s, r, c);
    assert c in Subtree(s, c);
  }

  /** After every child's subtree is gone, deleting the node itself leaves the table with
      its whole subtree deleted. */
  lemma DeleteLastStep(s: Store, p: string)
    requires WellFormed(s)
    ensures DeleteAll(Pruned(s, ChildIds(s, p), |ChildIds(s, p)|), {p}) == DeleteAll(s, Subtree(s, p))
  {
    var cs := ChildIds(s, p);
    assert cs[..|cs|] == cs;
    BelowIsChildSubtrees(s, p);
    DeleteAllTwice(s, Subtrees(s, cs), {p});
    assert Subtrees(s, cs) + {p} == Subtree(s, p);
  }

  /** No node left after deleting a subtree has its parent inside that subtree. */
  lemma DeleteLeavesNoOrphans(s: Store, id: string)
    requires WellFormed(s)
    ensures forall k :: k in DeleteAll(s, Subtree(s, id)).entries ==>
      DeleteAll(s, Subtree(s, id)).entries[k].parentId.Some? ==>
      DeleteAll(s, Subtree(s, id)).entries[k].parentId.value !in Subtree(s, id)
  {
    SubtreeDownClosed(s, id);
  }
}
