/** Byte values as a Node `Buffer` (a `Uint8Array`) holds them, and the
    conversion every store into such a buffer applies. */
module Bytes {

  /** One element of a `Uint8Array`. */
  type Byte = x: int | 0 <= x < 256

  /** ToUint8 (section 7.1.11 of ECMA-262, 2023 edition) of a value that has
      already been truncated toward zero: the value is taken modulo 256 with a
      non-negative remainder. Nothing is clamped, so 256 stores as 0 and 257 as 1. */
  function ToUint8(n: int): (b: Byte)
    ensures 0 <= n < 256 ==> b == n
    ensures (n - b) % 256 == 0
  {
    n % 256
  }
}
