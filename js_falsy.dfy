/** JavaScript's `a || d` on the values the editor and the viewer read back: the empty
    text, the number 0, and a missing member are falsy and give way to the default. */
module JsFalsy {
  import opened Wrappers

  /** `t || d` on a text. */
  function TextOr(t: string, d: string): (r: string)
    ensures d != "" ==> r != ""
    ensures t != "" ==> r == t
    ensures t == "" ==> r == d
  {
    if t == "" then d else t
  }

  /** `v || d` on a number. */
  function NumberOr(v: real, d: real): (r: real)
    ensures d != 0.0 ==> r != 0.0
    ensures v != 0.0 ==> r == v
    ensures v == 0.0 ==> r == d
  {
    if v == 0.0 then d else v
  }

  /** `data.nextId || 1`: a missing or zero counter restarts at 1. */
  function NextIdOr1(v: Option<int>): (n: int)
    ensures n != 0
    ensures v.Some? && v.value != 0 ==> n == v.value
    ensures v.None? || v == Some(0) ==> n == 1
  {
    if v == None || v == Some(0) then 1 else v.value
  }
}
