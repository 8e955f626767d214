/** The read-only viewer (view.js, `OrgChartViewer`): its node table, header texts,
    member spacing and zoom, the loading of the saved document, the redrawing of the
    connector lines and the zoom controls. */
module Viewer {
  import opened Wrappers
  import opened JsMap
  import opened JsFalsy
  import opened Geometry
  import opened ViewNodes
  import opened ViewConnectors
  import opened ViewZoom

  /** The saved document as `JSON.parse` gives it, read through the members the viewer
      uses. A missing or non-list `nodes` is `None`, a missing or falsy text is empty,
      and `memberGap` is `None` when it is `undefined`. */
  datatype ViewDocument = ViewDocument(nodes: Option<seq<RawNode>>, nextId: Option<int>,
                                       chartTitle: string, chartDate: string,
                                       memberGap: Option<real>)

  /** What the saved entry holds. */
  datatype SavedText =
    | NoEntry                 // nothing saved, or the empty text
    | Unparsable              // `JSON.parse` throws
    | ParsedNull              // the text is `null`: reading `data.nextId` throws
    | Parsed(doc: ViewDocument)

  const DefaultTitle: string := "용인대학교 교직원 배치표"
  const DefaultDate: string := "2024. 2. 8. 현재"
  const DefaultMemberGap: real := 8.0

  /** Everything loading can change. */
  datatype ViewerState = ViewerState(nodes: Chart, nextId: int, chartTitle: string, chartDate: string,
                                     memberGap: real, lines: seq<Line>)

  function InitialState(): ViewerState {
    ViewerState(Empty(), 1, DefaultTitle, DefaultDate, DefaultMemberGap, [])
  }

  /** The state after `loadFromLocalStorage` from `st`, where `boxes` and `container` are
      the boxes the browser renders. Without a saved document, or with one whose reading
      throws at once, nothing changes. A document without a node list sets the counter
      and the header, empties the table and then throws, so the old lines and the old
      spacing stay. */
  function Load(st: ViewerState, saved: SavedText, boxes: map<string, Rect>, container: Rect): (r: ViewerState)
    requires Valid(st.nodes)
    ensures Valid(r.nodes)
    ensures !saved.Parsed? ==> r == st
    ensures saved.Parsed? ==>
      && r.nextId == NextIdOr1(saved.doc.nextId)
      && (saved.doc.chartTitle != "" ==> r.chartTitle == saved.doc.chartTitle)
      && (saved.doc.chartTitle == "" ==> r.chartTitle == st.chartTitle)
      && (saved.doc.chartDate != "" ==> r.chartDate == saved.doc.chartDate)
      && (saved.doc.chartDate == "" ==> r.chartDate == st.chartDate)
    ensures saved.Parsed? && saved.doc.nodes.None? ==>
      r.nodes == Empty() && r.lines == st.lines && r.memberGap == st.memberGap
    ensures saved.Parsed? && saved.doc.nodes.Some? ==>
      && r.nodes == Loaded(saved.doc.nodes.value)
      && r.lines == Connectors(r.nodes, Values(r.nodes), boxes, container)
      && (saved.doc.memberGap.Some? ==> r.memberGap == saved.doc.memberGap.value)
      && (saved.doc.memberGap.None? ==> r.memberGap == st.memberGap)
    ensures ChartWellFormed(st.nodes) ==> ChartWellFormed(r.nodes)
  {
    match saved
    case Parsed(doc) =>
      var nextId := NextIdOr1(doc.nextId);
      var title := TextOr(doc.chartTitle, st.chartTitle);
      var date := TextOr(doc.chartDate, st.chartDate);
      (match doc.nodes
       case None => ViewerState(Empty(), nextId, title, date, st.memberGap, st.lines)
       case Some(rs) =>
         var t := Loaded(rs);
         var gap := if doc.memberGap.Some? then doc.memberGap.value else st.memberGap;
         ViewerState(t, nextId, title, date, gap, Connectors(t, Values(t), boxes, container)))
    case _ => st
  }

  /** Loading the same saved text a second time changes nothing more. */
  lemma LoadIdempotent(st: ViewerState, saved: SavedText, boxes: map<string, Rect>, container: Rect)
    requires Valid(st.nodes)
    ensures Load(Load(st, saved, boxes, container), saved, boxes, container) == Load(st, saved, boxes, container)
  {
  }

  /** After a load from a document with a node list, the table holds exactly the saved
      ids, each under its own id with its defaults filled in, and under each id the last
      saved node with that id, normalized. */
  lemma LoadedTable(st: ViewerState, doc: ViewDocument, boxes: map<string, Rect>, container: Rect)
    requires Valid(st.nodes) && doc.nodes.Some?
    ensures var t := Load(st, Parsed(doc), boxes, container).nodes;
      && ChartWellFormed(t)
      && t.entries.Keys == RawIds(doc.nodes.value)
    ensures var t, rs := Load(st, Parsed(doc), boxes, container).nodes, doc.nodes.value;
      forall i :: 0 <= i < |rs| && (forall j :: i < j < |rs| ==> rs[j].id != rs[i].id) ==>
        rs[i].id in t.entries && t.entries[rs[i].id] == Normalize(rs[i])
  {
    var rs := doc.nodes.value;
    LoadedKeys(Empty(), NormalizeAll(rs), rs);
    forall i | 0 <= i < |rs| && (forall j :: i < j < |rs| ==> rs[j].id != rs[i].id)
      ensures rs[i].id in Loaded(rs).entries && Loaded(rs).entries[rs[i].id] == Normalize(rs[i])
    {
      LoadedEntry(rs, i);
    }
  }

  /** The saved document an editor file turns into for the viewer: its nodes and its
      counter, no header texts and no spacing. */
  function FromEditorFile(nodes: seq<ViewNodes.RawNode>, nextId: int): (d: ViewDocument)
    ensures d.nodes == Some(nodes) && d.chartTitle == "" && d.chartDate == "" && d.memberGap.None?
  {
    ViewDocument(Some(nodes), Some(nextId), "", "", None)
  }

  /** A document written by the editor keeps the viewer's header texts and spacing. */
  lemma EditorFileKeepsHeader(st: ViewerState, nodes: seq<RawNode>, nextId: int,
                              boxes: map<string, Rect>, container: Rect)
    requires Valid(st.nodes)
    ensures var r := Load(st, Parsed(FromEditorFile(nodes, nextId)), boxes, container);
      r.chartTitle == st.chartTitle && r.chartDate == st.chartDate && r.memberGap == st.memberGap
  {
  }

  class OrgChartViewer {
    var nodes: Chart
    var nextId: int
    var chartTitle: string
    var chartDate: string
    var zoomLevel: real
    var memberGap: real
    var lines: seq<Line>

    ghost predicate Valid()
      reads this
    {
      ChartWellFormed(nodes) && InRange(zoomLevel)
    }

    function State(): ViewerState
      reads this
    {
      ViewerState(nodes, nextId, chartTitle, chartDate, memberGap, lines)
    }

    /** `new OrgChartViewer()`: the defaults, then a load from the saved entry. */
    constructor(saved: SavedText, boxes: map<string, Rect>, container: Rect)
      ensures Valid()
      ensures zoomLevel == DefaultZoom
      ensures State() == Load(InitialState(), saved, boxes, container)
    {
      nodes := Empty();
      nextId := 1;
      chartTitle := DefaultTitle;
      chartDate := DefaultDate;
      zoomLevel := DefaultZoom;
      memberGap := DefaultMemberGap;
      lines := [];
      new;
      LoadFromLocalStorage(saved, boxes, container);
    }

    /** `loadFromLocalStorage`. */
    method LoadFromLocalStorage(saved: SavedText, boxes: map<string, Rect>, container: Rect)
      requires Valid()
      modifies this`nodes, this`nextId, this`chartTitle, this`chartDate, this`memberGap, this`lines
      ensures Valid()
      ensures State() == Load(old(State()), saved, boxes, container)
    {
      if !saved.Parsed? {
        return;
      }
      var doc := saved.doc;
      nextId := NextIdOr1(doc.nextId);
      if doc.chartTitle != "" {
        chartTitle := doc.chartTitle;
      }
      if doc.chartDate != "" {
        chartDate := doc.chartDate;
      }
      nodes := Empty();
      if doc.nodes.None? {
        return;
      }
      RefillNodes(doc.nodes.value);
      UpdateConnections(boxes, container);
      if doc.memberGap.Some? {
        memberGap := doc.memberGap.value;
      }
    }

    /** The `data.nodes.forEach` loop of `loadFromLocalStorage`: every saved node, with its
        defaults filled in, set into the cleared table under its id. */
    method RefillNodes(rs: seq<RawNode>)
      requires nodes == Empty()
      modifies this`nodes
      ensures nodes == Loaded(rs)
    {
      ghost var ns := NormalizeAll(rs);
      var i := 0;
      while i < |rs|
        invariant 0 <= i <= |rs|
        invariant nodes == SetAll(Empty(), ns[..i], ViewKey)
      {
        var n := Normalize(rs[i]);
        SetAllStep(Empty(), ns, i, ViewKey);
        nodes := Set(nodes, n.id, n);
        i := i + 1;
      }
      assert ns[..|rs|] == ns;
    }

    /** `updateConnections`: the old lines are replaced by one line for every linked
        node, in table order. */
    method UpdateConnections(boxes: map<string, Rect>, container: Rect)
      requires JsMap.Valid(nodes)
      modifies this`lines
      ensures lines == Connectors(nodes, Values(nodes), boxes, container)
    {
      var drawn := ScreenLines(boxes, container);
      lines := drawn;
    }

    /** The `forEach` loop of `updateConnections`: the lines it appends, in order. */
    method ScreenLines(boxes: map<string, Rect>, container: Rect) returns (r: seq<Line>)
      requires JsMap.Valid(nodes)
      ensures r == Connectors(nodes, Values(nodes), boxes, container)
    {
      var vs := Values(nodes);
      r := [];
      var i := 0;
      while i < |vs|
        invariant 0 <= i <= |vs|
        invariant r == Connectors(nodes, vs[..i], boxes, container)
      {
        ConnectorsStep(nodes, vs, i, boxes, container);
        var l := Connector(nodes, vs[i], boxes, container);
        if l.Some? {
          r := r + [l.value];
        }
        i := i + 1;
      }
      assert vs[..|vs|] == vs;
    }

    /** The lines `exportAsImage` draws on the exported sheet: they are the lines on
        screen for the same boxes. */
    method ExportLines(boxes: map<string, Rect>, container: Rect) returns (r: seq<Line>)
      requires JsMap.Valid(nodes)
      ensures r == Connectors(nodes, Values(nodes), boxes, container)
    {
      var vs := Values(nodes);
      r := [];
      var i := 0;
      while i < |vs|
        invariant 0 <= i <= |vs|
        invariant r == ExportConnectors(nodes, vs[..i], boxes, container, ExportMinX, ExportMinY)
      {
        ExportConnectorsStep(nodes, vs, i, boxes, container, ExportMinX, ExportMinY);
        var l := ExportConnector(nodes, vs[i], boxes, container, ExportMinX, ExportMinY);
        r := r + LineOf(l);
        i := i + 1;
      }
      assert vs[..|vs|] == vs;
      ExportMatchesScreen(nodes, vs, boxes, container);
    }

    /** `setZoom`. */
    method SetZoom(level: real)
      requires Valid()
      modifies this`zoomLevel
      ensures Valid()
      ensures zoomLevel == ClampZoom(level)
    {
      var upper := if MaxZoom < level then MaxZoom else level;
      zoomLevel := if MinZoom > upper then MinZoom else upper;
    }

    /** `zoomIn`. */
    method ZoomIn()
      requires Valid()
      modifies this`zoomLevel
      ensures Valid()
      ensures zoomLevel == ClampZoom(old(zoomLevel) + ZoomStep)
    {
      SetZoom(zoomLevel + ZoomStep);
    }

    /** `zoomOut`. */
    method ZoomOut()
      requires Valid()
      modifies this`zoomLevel
      ensures Valid()
      ensures zoomLevel == ClampZoom(old(zoomLevel) - ZoomStep)
    {
      SetZoom(zoomLevel - ZoomStep);
    }

    /** `zoomReset`. */
    method ZoomReset()
      requires Valid()
      modifies this`zoomLevel
      ensures Valid()
      ensures zoomLevel == DefaultZoom
    {
      SetZoom(DefaultZoom);
    }

    /** `handleMouseWheel`: only a wheel turned with Ctrl held zooms. */
    method HandleMouseWheel(ctrlKey: bool, deltaY: real)
      requires Valid()
      modifies this`zoomLevel
      ensures Valid()
      ensures ctrlKey ==> zoomLevel == ClampZoom(old(zoomLevel) + WheelDelta(deltaY))
      ensures !ctrlKey ==> zoomLevel == old(zoomLevel)
    {
      if ctrlKey {
        var delta := if deltaY > 0.0 then -ZoomStep else ZoomStep;
        SetZoom(zoomLevel + delta);
      }
    }

    /** `handleKeyDown`. */
    method HandleKeyDown(ctrlKey: bool, key: string)
      requires Valid()
      modifies this`zoomLevel
      ensures Valid()
      ensures KeyCommand(ctrlKey, key) == KeyZoomIn ==> zoomLevel == ClampZoom(old(zoomLevel) + ZoomStep)
      ensures KeyCommand(ctrlKey, key) == KeyZoomOut ==> zoomLevel == ClampZoom(old(zoomLevel) - ZoomStep)
      ensures KeyCommand(ctrlKey, key) == KeyZoomReset ==> zoomLevel == DefaultZoom
      ensures KeyCommand(ctrlKey, key) == KeyNone ==> zoomLevel == old(zoomLevel)
    {
      if ctrlKey && (key == "+" || key == "=") {
        ZoomIn();
      } else if ctrlKey && (key == "-" || key == "_") {
        ZoomOut();
      } else if ctrlKey && key == "0" {
        ZoomReset();
      }
    }
  }
}
