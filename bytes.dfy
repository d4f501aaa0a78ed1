/** Conversion of byte-sized naturals to bytes. */
module Bytes {

  /** A byte-sized natural as a byte, counted up one at a time: each step only needs
      that a byte below 255 plus one does not wrap, which the solver settles far more
      cheaply than a direct conversion from an integer. */
  function ToByte(n: nat): (b: bv8)
    requires n < 256
    ensures b as int == n
  {
    if n == 0 then 0 else ToByte(n - 1) + 1
  }
}
