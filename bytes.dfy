/** Values shared by every part of the model. */
module Bytes {

  /** A byte by its unsigned value, as the converter reads it (`0xff and b.toInt()`). */
  newtype byte = x: int | 0 <= x < 256

  /** A Kotlin nullable value, or the outcome of a call that may throw. */
  datatype Option<T> = None | Some(value: T)

  /** `n` zero bytes: what a freshly allocated Kotlin or direct buffer holds. */
  function Zeros(n: nat): seq<byte>
  {
    seq(n, _ => 0)
  }
}

/** Arithmetic facts the index and rate proofs share. */
module Arith {

  /** Multiplying both sides by a non-negative number keeps the order. */
  lemma MulLeft(a: int, b: int, c: nat)
    requires a <= b
    ensures a * c <= b * c
  {
    assert (b - a) * c >= 0;
    assert (b - a) * c == b * c - a * c;
  }
}
