/** The viewer's zoom level (view.js): the range `setZoom` keeps it in, the step of the
    buttons, keys and wheel, and which key presses zoom. */
module ViewZoom {

  const MinZoom: real := 0.25
  const MaxZoom: real := 2.0
  const DefaultZoom: real := 1.0
  const ZoomStep: real := 0.1

  predicate InRange(z: real) {
    MinZoom <= z <= MaxZoom
  }

  /** `Math.max(minZoom, Math.min(maxZoom, level))`. */
  function ClampZoom(level: real): (z: real)
    ensures InRange(z)
    ensures InRange(level) ==> z == level
    ensures level < MinZoom ==> z == MinZoom
    ensures level > MaxZoom ==> z == MaxZoom
  {
    var upper := if MaxZoom < level then MaxZoom else level;
    if MinZoom > upper then MinZoom else upper
  }

  /** Clamping a clamped level changes nothing. */
  lemma ClampIdempotent(level: real)
    ensures ClampZoom(ClampZoom(level)) == ClampZoom(level)
  {
  }

  /** A higher requested level never gives a lower zoom. */
  lemma ClampMonotone(a: real, b: real)
    requires a <= b
    ensures ClampZoom(a) <= ClampZoom(b)
  {
  }

  /** Away from the bounds, zooming in and then out returns to the level it started at. */
  lemma ZoomInThenOut(z: real)
    requires InRange(z) && InRange(z + ZoomStep)
    ensures ClampZoom(ClampZoom(z + ZoomStep) - ZoomStep) == z
  {
  }

  /** Zooming in at the largest level, or out at the smallest, stays there. */
  lemma ZoomAtBounds()
    ensures ClampZoom(MaxZoom + ZoomStep) == MaxZoom
    ensures ClampZoom(MinZoom - ZoomStep) == MinZoom
  {
  }

  /** The change the wheel asks for: out when scrolling down, in otherwise. */
  function WheelDelta(deltaY: real): (d: real)
    ensures deltaY > 0.0 ==> d == -ZoomStep
    ensures deltaY <= 0.0 ==> d == ZoomStep
  {
    if deltaY > 0.0 then -ZoomStep else ZoomStep
  }

  /** What a key press does to the zoom. */
  datatype KeyZoom = KeyZoomIn | KeyZoomOut | KeyZoomReset | KeyNone

  /** Ctrl with `+` or `=` zooms in, with `-` or `_` out, with `0` back to 100%. */
  function KeyCommand(ctrlKey: bool, key: string): (c: KeyZoom)
    ensures c == KeyZoomIn <==> ctrlKey && (key == "+" || key == "=")
    ensures c == KeyZoomOut <==> ctrlKey && (key == "-" || key == "_")
    ensures c == KeyZoomReset <==> ctrlKey && key == "0"
  {
    if ctrlKey && (key == "+" || key == "=") then KeyZoomIn
    else if ctrlKey && (key == "-" || key == "_") then KeyZoomOut
    else if ctrlKey && key == "0" then KeyZoomReset
    else KeyNone
  }
}
