/** Trades as they arrive, and their conversion to scaled integers. */
module Trades {

  const FLOAT_TO_INT_FACTOR := 1000000

  /** A trade; price and volume are exact reals. */
  datatype Trade = Trade(timestamp: int, price: real, volume: real)

  /** The conversion to scaled integers, toward zero. */
  function Scale(x: real): int {
    var scaled := x * 1000000.0;
    if scaled >= 0.0 then scaled.Floor else -((-scaled).Floor)
  }

  /** The nearest integer between zero and a million times the number. */
  lemma ScaleTruncates(x: real)
    ensures x >= 0.0 ==> Scale(x) >= 0 && Scale(x) as real <= x * 1000000.0 < Scale(x) as real + 1.0
    ensures x <= 0.0 ==> Scale(x) <= 0 && Scale(x) as real - 1.0 < x * 1000000.0 <= Scale(x) as real
  {
  }
}
