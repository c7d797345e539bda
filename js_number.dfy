/** JavaScript number behaviour that the dashboard relies on. Doubles are modelled
    by exact `real`s; `NaN` is kept as its own value because the source reads it. */
module JsNumber {

  /** A JavaScript number as the source sees it: `NaN` or a finite value. */
  datatype JsNumber = NaN | Num(value: real)

  /** `Number(x) || 0`: the value, with `NaN` (and zero) read as 0. */
  function OrZero(x: JsNumber): real {
    match x
    case NaN => 0.0
    case Num(v) => v
  }

  /** `Math.round(x)`: the nearest integer, halves rounded up. */
  function Round(x: real): (r: int)
    ensures x - 0.5 < r as real <= x + 0.5
  {
    (x + 0.5).Floor
  }
}
