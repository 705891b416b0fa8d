/** Values of a floating-point column, idealised: an exact real or NaN.
    NaN is what pandas stores for a blank cell, for a cell that
    `pd.to_numeric(..., errors='coerce')` could not parse, and for the mean
    of an empty series; arithmetic with NaN gives NaN. */
module Numbers {

  datatype Num = Real(r: real) | NaN

  datatype Result<+T, +E> = Ok(value: T) | Err(error: E)

  function Add(a: Num, b: Num): Num {
    if a.NaN? || b.NaN? then NaN else Real(a.r + b.r)
  }

  /** A column scaled by a (non-NaN) constant, as `column * weight`. */
  function Scale(a: Num, k: real): Num {
    if a.NaN? then NaN else Real(a.r * k)
  }

  function Min(a: int, b: int): int {
    if a <= b then a else b
  }
}
