/** Value types and JavaScript numeric helpers shared by the modules of the model. */
module Js {

  /** An optional value; `None` stands for JavaScript's `undefined` (or a missing key). */
  datatype Option<+T> = None | Some(value: T)

  /** The outcome of an operation whose original can throw. */
  datatype Result<+T> = Ok(value: T) | Throws(message: string)

  function Abs(x: real): (r: real)
    ensures r >= 0.0 && (r == x || r == -x)
  {
    if x < 0.0 then -x else x
  }

  /** `Math.round`: halves are rounded towards positive infinity. */
  function Round(x: real): (r: int)
    ensures x - 0.5 < r as real <= x + 0.5
  {
    (x + 0.5).Floor
  }

  /** Truncation towards zero, as `parseInt` does to the decimal text of a number. */
  function Trunc(x: real): (r: int)
    ensures 0.0 <= x ==> r as real <= x < r as real + 1.0
    ensures x < 0.0 ==> r as real - 1.0 < x <= r as real
  {
    if x >= 0.0 then x.Floor else -((-x).Floor)
  }

  /** `utils.clamp(value, min, max)`, taken as `Math.min(Math.max(value, min), max)`. */
  function Clamp(value: int, lo: int, hi: int): (r: int)
    ensures lo <= hi ==> lo <= r <= hi
    ensures lo <= value <= hi ==> r == value
    ensures lo <= hi && value < lo ==> r == lo
    ensures value > hi ==> r == hi
  {
    var atLeast := if value < lo then lo else value;
    if atLeast > hi then hi else atLeast
  }
}
