// Bytes as numbers.
module Bytes {

  /** A number below 256 survives being stored in a byte. */
  lemma ByteRoundTrip(n: int)
    requires 0 <= n < 0x100
    ensures (n as bv8) as int == n
  {
  }
}
