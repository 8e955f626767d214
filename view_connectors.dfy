/** The viewer's connector lines (view.js): where a line attaches to a box
    (`getAnchorPoint`), which nodes get a line and the shape of its path
    (`updateConnections`), and the same paths as `exportAsImage` draws them. */
module ViewConnectors {
  import opened Wrappers
  import opened JsMap
  import opened JsFalsy
  import opened Geometry
  import opened ViewNodes

  /** The point of a node's box where a line attaches. `element` is the rendered box
      (`None` when the node has no element) and `container` the chart's box: the
      attachment point is measured from the container's top-left corner. */
  datatype Side = Top | Bottom | Left | Right | Centre

  function SideOf(d: string): Side {
    if d == "top" then Top else if d == "bottom" then Bottom else if d == "left" then Left
    else if d == "right" then Right else Centre
  }

  /** Each of the four direction texts names its side; every other text names the centre. */
  lemma SideOfText(d: string)
    ensures SideOf(d) == Top <==> d == "top"
    ensures SideOf(d) == Bottom <==> d == "bottom"
    ensures SideOf(d) == Left <==> d == "left"
    ensures SideOf(d) == Right <==> d == "right"
    ensures SideOf(d) == Centre <==> d != "top" && d != "bottom" && d != "left" && d != "right"
  {
  }

  function AnchorPoint(n: ViewNode, side: Side, element: Option<Rect>, container: Rect): (p: Point)
  {
    match element
    case None => Point(n.x, n.y)
    case Some(b) =>
      var rx := b.left - container.left;
      var ry := b.top - container.top;
      match side
      case Top => Point(rx + b.width / 2.0, ry)
      case Bottom => Point(rx + b.width / 2.0, ry + b.height)
      case Left => Point(rx, ry + b.height / 2.0)
      case Right => Point(rx + b.width, ry + b.height / 2.0)
      case Centre => Point(rx + b.width / 2.0, ry + b.height / 2.0)
  }

  /** Where the attachment point lies: the node's own position when it has no element;
      otherwise the middle of the named side of its box, and the box's centre for any
      other direction. */
  lemma AnchorPointSides(n: ViewNode, direction: Side, element: Option<Rect>, container: Rect)
    ensures element.None? ==> AnchorPoint(n, direction, element, container) == Point(n.x, n.y)
    ensures element.Some? ==>
      var p := AnchorPoint(n, direction, element, container);
      var left := element.value.left - container.left;
      var top := element.value.top - container.top;
      var right := left + element.value.width;
      var bottom := top + element.value.height;
      && (direction == Top ==> p.y == top && p.x - left == right - p.x)
      && (direction == Bottom ==> p.y == bottom && p.x - left == right - p.x)
      && (direction == Left ==> p.x == left && p.y - top == bottom - p.y)
      && (direction == Right ==> p.x == right && p.y - top == bottom - p.y)
      && (!IsVertical(direction) && !IsHorizontal(direction) ==>
            p.x - left == right - p.x && p.y - top == bottom - p.y)
  {
  }

  /** A rendered box's attachment point lies on the box, for every direction. */
  lemma AnchorOnBox(n: ViewNode, direction: Side, b: Rect, container: Rect)
    requires b.width >= 0.0 && b.height >= 0.0
    ensures var p := AnchorPoint(n, direction, Some(b), container);
      && b.left - container.left <= p.x <= b.left - container.left + b.width
      && b.top - container.top <= p.y <= b.top - container.top + b.height
  {
  }

  predicate IsVertical(d: Side) {
    d == Top || d == Bottom
  }

  predicate IsHorizontal(d: Side) {
    d == Left || d == Right
  }

  /** The points of a line from `start` to `end`: down, across and down again when both
      ends attach at a top or bottom; across, down and across again when both attach at a
      side; otherwise straight to the midpoint and on. */
  function Route(start: Point, end: Point, sd: Side, ed: Side): (r: seq<Point>)
  {
    if IsVertical(sd) && IsVertical(ed) then
      var midY := Half(start.y, end.y);
      [start, Point(start.x, midY), Point(end.x, midY), end]
    else if IsHorizontal(sd) && IsHorizontal(ed) then
      var midX := Half(start.x, end.x);
      [start, Point(midX, start.y), Point(midX, end.y), end]
    else
      [start, Point(Half(start.x, end.x), Half(start.y, end.y)), end]
  }

  /** The shape of a line: it joins its two ends, has four points exactly when both ends
      attach at a top or bottom or both at a side, turns halfway between the ends in those
      two cases, and bends at the midpoint of the ends otherwise. */
  lemma RouteShape(start: Point, end: Point, sd: Side, ed: Side)
    ensures var r := Route(start, end, sd, ed);
      && 3 <= |r| <= 4 && r[0] == start && r[|r| - 1] == end
      && (|r| == 4 <==> (IsVertical(sd) && IsVertical(ed)) || (IsHorizontal(sd) && IsHorizontal(ed)))
      && (IsVertical(sd) && IsVertical(ed) ==>
            r[1].x == start.x && r[2].x == end.x && r[1].y == r[2].y && r[1].y - start.y == end.y - r[1].y)
      && (IsHorizontal(sd) && IsHorizontal(ed) ==>
            r[1].y == start.y && r[2].y == end.y && r[1].x == r[2].x && r[1].x - start.x == end.x - r[1].x)
      && (|r| == 3 ==> r[1].x - start.x == end.x - r[1].x && r[1].y - start.y == end.y - r[1].y)
  {
  }

  /** The side of the parent's box a node's line leaves from. */
  function StartDirection(n: ViewNode): (d: string)
    ensures n.connectionStart == "" ==> d == "bottom"
    ensures n.connectionStart != "" ==> d == n.connectionStart
  {
    TextOr(n.connectionStart, "bottom")
  }

  /** The side of the node's own box its line arrives at. */
  function EndDirection(n: ViewNode): (d: string)
    ensures n.connectionEnd == "" ==> d == "top"
    ensures n.connectionEnd != "" ==> d == n.connectionEnd
  {
    TextOr(n.connectionEnd, "top")
  }

  /** On a loaded node the defaults change nothing: its stored directions are used. */
  lemma LoadedDirections(n: ViewNode)
    requires Normalized(n)
    ensures StartDirection(n) == n.connectionStart && EndDirection(n) == n.connectionEnd
  {
  }

  /** A drawn path, from the parent `from` to the node `to`. The SVG element holds only
      the points; the two ids say which pair of boxes it joins. */
  datatype Line = Line(from: string, to: string, points: seq<Point>)

  /** A node gets a line when it is not independent and its parent is set, stored and
      not independent. */
  predicate Linked(t: Chart, n: ViewNode) {
    && !n.isIndependent
    && n.parentId.Some? && n.parentId.value != "" && n.parentId.value in t.entries
    && !t.entries[n.parentId.value].isIndependent
  }

  function ElementOf(boxes: map<string, Rect>, id: string): Option<Rect> {
    if id in boxes then Some(boxes[id]) else None
  }

  /** The line the `forEach` callback of `updateConnections` draws for one node, if any.
      `boxes` holds the rendered
      box of every node that has an element. */
  function Connector(t: Chart, n: ViewNode, boxes: map<string, Rect>, container: Rect): (l: Option<Line>)
    ensures l.Some? <==>
      && !n.isIndependent
      && n.parentId.Some? && n.parentId.value != "" && n.parentId.value in t.entries
      && !t.entries[n.parentId.value].isIndependent
    ensures l.Some? ==> l.value.from == n.parentId.value && l.value.to == n.id
  {
    if Linked(t, n) then
      var parent := t.entries[n.parentId.value];
      var sd, ed := SideOf(StartDirection(n)), SideOf(EndDirection(n));
      var start := AnchorPoint(parent, sd, ElementOf(boxes, parent.id), container);
      var end := AnchorPoint(n, ed, ElementOf(boxes, n.id), container);
      Some(Line(n.parentId.value, n.id, Route(start, end, sd, ed)))
    else None
  }

  /** A node's line runs from the parent's anchor on the side the node names (the bottom
      by default) to the node's own anchor on the side it names (the top by default). */
  lemma ConnectorPoints(t: Chart, n: ViewNode, boxes: map<string, Rect>, container: Rect)
    requires Linked(t, n)
    ensures var parent := t.entries[n.parentId.value];
      Connector(t, n, boxes, container).value.points
        == Route(AnchorPoint(parent, SideOf(StartDirection(n)), ElementOf(boxes, parent.id), container),
                 AnchorPoint(n, SideOf(EndDirection(n)), ElementOf(boxes, n.id), container),
                 SideOf(StartDirection(n)), SideOf(EndDirection(n)))
  {
  }

  /** The lines drawn for `vs`, in their order. */
  function Connectors(t: Chart, vs: seq<ViewNode>, boxes: map<string, Rect>, container: Rect): (r: seq<Line>)
    ensures |r| <= |vs|
    decreases |vs|
  {
    if vs == [] then []
    else
      var front, last := vs[..|vs| - 1], vs[|vs| - 1];
      var l := Connector(t, last, boxes, container);
      Connectors(t, front, boxes, container) + (if l.Some? then [l.value] else [])
  }

  /** The line, if any, of one node as a list of none or one. */
  function LineOf(l: Option<Line>): (r: seq<Line>)
    ensures l.None? ==> r == []
    ensures l.Some? ==> r == [l.value]
  {
    if l.Some? then [l.value] else []
  }

  /** One more node adds its line, if it has one, at the end. */
  lemma ConnectorsStep(t: Chart, vs: seq<ViewNode>, i: nat, boxes: map<string, Rect>, container: Rect)
    requires i < |vs|
    ensures Connectors(t, vs[..i + 1], boxes, container)
         == Connectors(t, vs[..i], boxes, container) + LineOf(Connector(t, vs[i], boxes, container))
  {
    assert vs[..i + 1][..i] == vs[..i] && vs[..i + 1][i] == vs[i];
  }

  lemma ExportConnectorsStep(t: Chart, vs: seq<ViewNode>, i: nat, boxes: map<string, Rect>, container: Rect,
                             minX: real, minY: real)
    requires i < |vs|
    ensures ExportConnectors(t, vs[..i + 1], boxes, container, minX, minY)
         == ExportConnectors(t, vs[..i], boxes, container, minX, minY)
            + LineOf(ExportConnector(t, vs[i], boxes, container, minX, minY))
  {
    assert vs[..i + 1][..i] == vs[..i] && vs[..i + 1][i] == vs[i];
  }

  /** The lines drawn for `vs` are exactly the lines of its linked nodes. */
  lemma {:induction false} ConnectorsMembers(t: Chart, vs: seq<ViewNode>, boxes: map<string, Rect>, container: Rect)
    ensures forall l :: l in Connectors(t, vs, boxes, container) <==>
      exists v :: v in vs && Connector(t, v, boxes, container) == Some(l)
    decreases |vs|
  {
    if vs != [] {
      var front, last := vs[..|vs| - 1], vs[|vs| - 1];
      assert vs == front + [last];
      ConnectorsMembers(t, front, boxes, container);
    }
  }

  /** The lines of a loaded chart: a line ends at a stored node exactly when that node is
      linked, and it joins the node to its stored, non-independent parent. */
  lemma LinesOfChart(t: Chart, boxes: map<string, Rect>, container: Rect)
    requires ChartWellFormed(t)
    ensures forall l :: l in Connectors(t, Values(t), boxes, container) ==>
      && l.to in t.entries && Linked(t, t.entries[l.to])
      && t.entries[l.to].parentId == Some(l.from)
      && l.from in t.entries && !t.entries[l.from].isIndependent
    ensures forall k :: k in t.entries && Linked(t, t.entries[k]) ==>
      exists l :: l in Connectors(t, Values(t), boxes, container) && l.to == k
  {
    var vs := Values(t);
    var r := Connectors(t, vs, boxes, container);
    ConnectorsMembers(t, vs, boxes, container);
    forall l | l in r
      ensures l.to in t.entries && Linked(t, t.entries[l.to]) && t.entries[l.to].parentId == Some(l.from)
    {
      var v :| v in vs && Connector(t, v, boxes, container) == Some(l);
      var i :| 0 <= i < |vs| && vs[i] == v;
      assert t.keys[i] in t.entries;
    }
    forall k | k in t.entries && Linked(t, t.entries[k])
      ensures exists l :: l in r && l.to == k
    {
      var i :| 0 <= i < |t.keys| && t.keys[i] == k;
      assert vs[i] in vs;
      var l := Connector(t, vs[i], boxes, container).value;
      assert l in r;
    }
  }

  // ---------------------------------------------------------------------------
  // The image export

  /** The export draws on a sheet whose top-left corner is the chart's origin. */
  const ExportMinX: real := 0.0
  const ExportMinY: real := 0.0

  function Shift(p: Point, minX: real, minY: real): (q: Point)
    ensures q.x + minX == p.x && q.y + minY == p.y
  {
    Point(p.x - minX, p.y - minY)
  }

  function ShiftAll(ps: seq<Point>, minX: real, minY: real): (qs: seq<Point>)
    ensures |qs| == |ps|
    ensures forall i :: 0 <= i < |ps| ==> qs[i] == Shift(ps[i], minX, minY)
  {
    seq(|ps|, i requires 0 <= i < |ps| => Shift(ps[i], minX, minY))
  }

  /** The line the second `forEach` callback of `exportAsImage` draws for one node: the
      same anchors, moved by
      `(minX, minY)` before the path is made. */
  function ExportConnector(t: Chart, n: ViewNode, boxes: map<string, Rect>, container: Rect,
                           minX: real, minY: real): (l: Option<Line>)
    ensures l.Some? <==> Linked(t, n)
  {
    if Linked(t, n) then
      var parent := t.entries[n.parentId.value];
      var sd, ed := SideOf(StartDirection(n)), SideOf(EndDirection(n));
      var start := AnchorPoint(parent, sd, ElementOf(boxes, parent.id), container);
      var end := AnchorPoint(n, ed, ElementOf(boxes, n.id), container);
      Some(Line(n.parentId.value, n.id, Route(Shift(start, minX, minY), Shift(end, minX, minY), sd, ed)))
    else None
  }

  /** The lines of the exported image for `vs`, in their order. */
  function ExportConnectors(t: Chart, vs: seq<ViewNode>, boxes: map<string, Rect>, container: Rect,
                            minX: real, minY: real): (r: seq<Line>)
    ensures |r| <= |vs|
    decreases |vs|
  {
    if vs == [] then []
    else
      var front, last := vs[..|vs| - 1], vs[|vs| - 1];
      var l := ExportConnector(t, last, boxes, container, minX, minY);
      ExportConnectors(t, front, boxes, container, minX, minY) + (if l.Some? then [l.value] else [])
  }

  /** Moving both ends moves the whole path: every point, midpoints included. */
  lemma RouteShift(start: Point, end: Point, sd: Side, ed: Side, minX: real, minY: real)
    ensures Route(Shift(start, minX, minY), Shift(end, minX, minY), sd, ed)
         == ShiftAll(Route(start, end, sd, ed), minX, minY)
  {
    var a := Route(Shift(start, minX, minY), Shift(end, minX, minY), sd, ed);
    var b := ShiftAll(Route(start, end, sd, ed), minX, minY);
    assert |a| == |b|;
    forall i | 0 <= i < |a| ensures a[i] == b[i] {
    }
  }

  /** The exported line of a node is its on-screen line moved by `(minX, minY)`. */
  lemma ExportConnectorShifted(t: Chart, n: ViewNode, boxes: map<string, Rect>, container: Rect,
                               minX: real, minY: real)
    requires Linked(t, n)
    ensures var screen := Connector(t, n, boxes, container).value;
      ExportConnector(t, n, boxes, container, minX, minY)
        == Some(Line(screen.from, screen.to, ShiftAll(screen.points, minX, minY)))
  {
    var parent := t.entries[n.parentId.value];
    ConnectorPoints(t, n, boxes, container);
    RouteShift(AnchorPoint(parent, SideOf(StartDirection(n)), ElementOf(boxes, parent.id), container),
               AnchorPoint(n, SideOf(EndDirection(n)), ElementOf(boxes, n.id), container),
               SideOf(StartDirection(n)), SideOf(EndDirection(n)), minX, minY);
  }

  /** With the sheet's origin at the chart's origin the image holds exactly the lines on
      screen, in the same order. */
  lemma {:induction false} ExportMatchesScreen(t: Chart, vs: seq<ViewNode>, boxes: map<string, Rect>, container: Rect)
    ensures ExportConnectors(t, vs, boxes, container, ExportMinX, ExportMinY) == Connectors(t, vs, boxes, container)
    decreases |vs|
  {
    if vs != [] {
      var front, last := vs[..|vs| - 1], vs[|vs| - 1];
      ExportMatchesScreen(t, front, boxes, container);
      if Linked(t, last) {
        ExportConnectorShifted(t, last, boxes, container, ExportMinX, ExportMinY);
        var ps := Connector(t, last, boxes, container).value.points;
        assert ShiftAll(ps, ExportMinX, ExportMinY) == ps;
      }
    }
  }
}
