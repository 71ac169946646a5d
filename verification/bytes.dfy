/** Bytes and zero-filled byte buffers shared by pages and blocks. */
module Bytes {

  /** An unsigned 8-bit value (Rust's `u8`). */
  newtype u8 = x: int | 0 <= x < 256

  /** True when every byte of `s` is zero. */
  predicate AllZero(s: seq<u8>) {
    forall i :: 0 <= i < |s| ==> s[i] == 0
  }

  /** The buffer `[0; n]`. */
  function Zeroes(n: nat): (s: seq<u8>)
    ensures |s| == n && AllZero(s)
  {
    seq(n, _ => 0)
  }
}
