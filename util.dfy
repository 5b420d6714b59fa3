/** Small shared vocabulary: optional values and the machine integer sizes the
    C++ sources rely on. */
module Util {

  datatype Option<+T> = None | Some(value: T)

  function Min(a: int, b: int): int { if a <= b then a else b }

  /** 2^32: the number of values of `uint32_t` and of the platform's `uint`. */
  const Uint32Modulus: int := 0x1_0000_0000

  /** An unsigned 32-bit value. */
  type Uint32 = n: int | 0 <= n < Uint32Modulus

  /** `a - b` computed on `uint32_t` (of values held modulo 2^32): the
      difference wraps modulo 2^32, so a smaller minuend gives a huge result. */
  function Uint32Diff(a: nat, b: nat): (d: Uint32)
    ensures b <= a < b + Uint32Modulus ==> d == a - b
    ensures a < b <= a + Uint32Modulus ==> d == a - b + Uint32Modulus
  {
    (a - b) % Uint32Modulus
  }

  /** `a + b` computed on `uint32_t` / `uint`: the sum wraps modulo 2^32. */
  function Uint32Add(a: Uint32, b: Uint32): (s: Uint32)
    ensures a + b < Uint32Modulus ==> s == a + b
    ensures a + b >= Uint32Modulus ==> s == a + b - Uint32Modulus
  {
    (a + b) % Uint32Modulus
  }
}
