/** Bytes as unbounded integers restricted to 0..255. */
module Bytes {

  type byte = b: int | 0 <= b < 256

  /** A buffer of n zero bytes (a freshly allocated byte[] in the source). */
  function Zeros(n: nat): (r: seq<byte>)
    ensures |r| == n
    ensures forall i :: 0 <= i < n ==> r[i] == 0
  {
    seq(n, _ => 0)
  }
}
