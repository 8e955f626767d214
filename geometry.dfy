/** Points on the canvas, in the same coordinates as node positions. */
module Geometry {

  datatype Point = Point(x: real, y: real)

  /** A rendered box's width and height (`offsetWidth`, `offsetHeight`). */
  datatype Size = Size(width: real, height: real)

  /** A rendered box as `getBoundingClientRect` reports it. */
  datatype Rect = Rect(left: real, top: real, width: real, height: real)

  /** The number halfway between `a` and `b`: `(a + b) / 2`. */
  function Half(a: real, b: real): (m: real)
    ensures m - a == b - m
  {
    (a + b) / 2.0
  }
}
