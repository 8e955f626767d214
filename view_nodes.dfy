/** The viewer's node records (view.js): what `loadFromLocalStorage` reads from the saved
    document, and the record it keeps for each node after filling in the defaults in its
    `data.nodes.forEach` loop. */
module ViewNodes {
  import opened Wrappers
  import opened JsMap
  import opened JsFalsy
  import AppStore

  /** One person listed in a department box. */
  datatype Member = Member(position: string, name: string)

  /** A node of the saved document as `JSON.parse` gives it. A text member that is
      missing reads as the empty text, a missing `members` list as the empty list and a
      missing `isIndependent` as `false`. A missing `id` or `deptName` reads as the empty
      text too; the other texts and the list are used only through `||`, where a missing
      field and an empty one behave alike. */
  datatype RawNode = RawNode(id: string, deptName: string, members: seq<Member>,
                             position: string, personName: string, parentId: Option<string>,
                             isIndependent: bool, layoutDirection: string,
                             connectionStart: string, connectionEnd: string, x: real, y: real)

  /** The node the viewer keeps. */
  datatype ViewNode = ViewNode(id: string, deptName: string, members: seq<Member>,
                               parentId: Option<string>, isIndependent: bool,
                               layoutDirection: string, connectionStart: string,
                               connectionEnd: string, x: real, y: real)

  const DefaultLayoutDirection: string := "vertical"
  const DefaultConnectionStart: string := "bottom"
  const DefaultConnectionEnd: string := "top"

  /** Every field with a default holds a value that is not falsy. */
  predicate Normalized(n: ViewNode) {
    n.layoutDirection != "" && n.connectionStart != "" && n.connectionEnd != ""
  }

  /** The members of a saved node: its list when it has one; otherwise, for a node saved
      in the older one-person form, that one person; otherwise nobody. */
  function MembersOf(r: RawNode): (ms: seq<Member>)
    ensures r.members != [] ==> ms == r.members
    ensures r.members == [] ==> (ms != [] <==> r.position != "" || r.personName != "")
    ensures ms != [] && r.members == [] ==> ms == [Member(r.position, r.personName)]
  {
    if r.members == [] && (r.position != "" || r.personName != "") then
      [Member(TextOr(r.position, ""), TextOr(r.personName, ""))]
    else r.members
  }

  /** The record the loading loop builds from a saved node. */
  function Normalize(r: RawNode): (n: ViewNode)
    ensures Normalized(n)
    ensures n.id == r.id && n.deptName == r.deptName && n.parentId == r.parentId
    ensures n.x == r.x && n.y == r.y && n.members == MembersOf(r)
    ensures n.isIndependent == r.isIndependent
    ensures r.layoutDirection != "" ==> n.layoutDirection == r.layoutDirection
    ensures r.layoutDirection == "" ==> n.layoutDirection == DefaultLayoutDirection
    ensures r.connectionStart != "" ==> n.connectionStart == r.connectionStart
    ensures r.connectionStart == "" ==> n.connectionStart == DefaultConnectionStart
    ensures r.connectionEnd != "" ==> n.connectionEnd == r.connectionEnd
    ensures r.connectionEnd == "" ==> n.connectionEnd == DefaultConnectionEnd
  {
    ViewNode(r.id, r.deptName, MembersOf(r), r.parentId, r.isIndependent,
             TextOr(r.layoutDirection, DefaultLayoutDirection),
             TextOr(r.connectionStart, DefaultConnectionStart),
             TextOr(r.connectionEnd, DefaultConnectionEnd), r.x, r.y)
  }

  /** A kept node written out with its members and without the older one-person fields. */
  function AsSaved(n: ViewNode): RawNode {
    RawNode(n.id, n.deptName, n.members, "", "", n.parentId, n.isIndependent,
            n.layoutDirection, n.connectionStart, n.connectionEnd, n.x, n.y)
  }

  /** Reading a normalized node back changes nothing: the defaults are not applied twice
      and a list of members is kept as it is. */
  lemma NormalizeRoundTrip(n: ViewNode)
    requires Normalized(n)
    ensures Normalize(AsSaved(n)) == n
  {
  }

  /** Normalizing twice is normalizing once. */
  lemma NormalizeIdempotent(r: RawNode)
    ensures Normalize(AsSaved(Normalize(r))) == Normalize(r)
  {
    NormalizeRoundTrip(Normalize(r));
  }

  /** A node as the editor saves it, `{id, deptName, position, personName, parentId, x, y}`,
      read by the viewer. */
  function FromEditor(n: AppStore.Node): RawNode {
    RawNode(n.id, n.deptName, [], n.position, n.personName, n.parentId, false, "", "", "", n.x, n.y)
  }

  /** The viewer shows an editor node with its one person as the only member (none when
      both fields are empty), not independent, laid out vertically and connected from the
      parent's bottom to its own top. */
  lemma EditorNodeInViewer(n: AppStore.Node)
    ensures Normalize(FromEditor(n)).members
      == (if n.position == "" && n.personName == "" then [] else [Member(n.position, n.personName)])
    ensures !Normalize(FromEditor(n)).isIndependent
    ensures Normalize(FromEditor(n)).layoutDirection == "vertical"
    ensures Normalize(FromEditor(n)).connectionStart == "bottom"
    ensures Normalize(FromEditor(n)).connectionEnd == "top"
    ensures Normalize(FromEditor(n)).parentId == n.parentId
    ensures Normalize(FromEditor(n)).x == n.x && Normalize(FromEditor(n)).y == n.y
  {
  }

  // ---------------------------------------------------------------------------
  // The viewer's table

  type Chart = Table<ViewNode>

  /** The table as the viewer keeps it: every node stored under its own id, normalized. */
  ghost predicate ChartWellFormed(t: Chart) {
    Valid(t) && forall k :: k in t.entries ==> t.entries[k].id == k && Normalized(t.entries[k])
  }

  function ViewKey(n: ViewNode): string {
    n.id
  }

  /** The saved nodes after normalization, in their order. */
  function NormalizeAll(rs: seq<RawNode>): (ns: seq<ViewNode>)
    ensures |ns| == |rs|
    ensures forall i :: 0 <= i < |rs| ==> ns[i] == Normalize(rs[i])
  {
    seq(|rs|, i requires 0 <= i < |rs| => Normalize(rs[i]))
  }

  /** The table `loadFromLocalStorage` fills from the saved list, each node set under its
      own id in list order. */
  function Loaded(rs: seq<RawNode>): (t: Chart)
    ensures ChartWellFormed(t)
  {
    LoadedWellFormed(Empty(), NormalizeAll(rs));
    SetAll(Empty(), NormalizeAll(rs), ViewKey)
  }

  lemma {:induction false} LoadedWellFormed(t: Chart, ns: seq<ViewNode>)
    requires ChartWellFormed(t)
    requires forall i :: 0 <= i < |ns| ==> Normalized(ns[i])
    ensures ChartWellFormed(SetAll(t, ns, ViewKey))
    decreases |ns|
  {
    if ns != [] {
      LoadedWellFormed(t, ns[..|ns| - 1]);
    }
  }

  /** The ids of a saved list of nodes. */
  ghost function RawIds(rs: seq<RawNode>): set<string> {
    set r | r in rs :: r.id
  }

  /** Every saved node's id is in the loaded table, and no other id is. */
  lemma {:induction false} LoadedKeys(t: Chart, ns: seq<ViewNode>, rs: seq<RawNode>)
    requires Valid(t) && ns == NormalizeAll(rs)
    ensures SetAll(t, ns, ViewKey).entries.Keys == t.entries.Keys + RawIds(rs)
    decreases |rs|
  {
    if rs != [] {
      var front := rs[..|rs| - 1];
      assert ns[..|ns| - 1] == NormalizeAll(front);
      LoadedKeys(t, ns[..|ns| - 1], front);
      assert rs == front + [rs[|rs| - 1]];
      assert RawIds(rs) == RawIds(front) + {rs[|rs| - 1].id};
    }
  }

  /** A saved node that no later node of the list shares its id with is kept, normalized,
      under its id: the loop's later `set`s write other ids. */
  lemma LoadedEntry(rs: seq<RawNode>, i: nat)
    requires i < |rs|
    requires forall j :: i < j < |rs| ==> rs[j].id != rs[i].id
    ensures rs[i].id in Loaded(rs).entries
    ensures Loaded(rs).entries[rs[i].id] == Normalize(rs[i])
  {
    var ns := NormalizeAll(rs);
    SetAllLast(Empty(), ns, ViewKey, i);
  }
}
