/** Integer semantics of C++ that differ from Dafny's: truncating division and
    remainder, and 32-bit unsigned wrap-around. */
module CArith {

  const U32_MODULUS: int := 0x1_0000_0000

  /** C++ `unsigned` / `uint32_t`. */
  type U32 = x: int | 0 <= x < U32_MODULUS

  /** Conversion of any integer to a 32-bit unsigned value (modular, as C++ defines it). */
  function ToU32(v: int): (r: U32)
    ensures (r - v) % U32_MODULUS == 0
    ensures 0 <= v < U32_MODULUS ==> r == v
  {
    v % U32_MODULUS
  }

  /** `x + y` on `uint32_t`: the sum wraps past the largest value, which
      reduces it modulo 2^32. */
  function AddU32(x: U32, y: U32): (r: U32)
    ensures r == ToU32(x + y)
  {
    if x + y < U32_MODULUS then x + y
    else
      ModShift(x + y - U32_MODULUS, 1);
      x + y - U32_MODULUS
  }

  /** C++ `a / b` for a positive divisor: the quotient is truncated toward zero. */
  function CDiv(a: int, b: int): (q: int)
    requires b > 0
    ensures a >= 0 ==> q * b <= a < q * b + b
    ensures a < 0 ==> q * b - b < a <= q * b
  {
    if a >= 0 then a / b else -((-a) / b)
  }

  /** C++ `a % b` for a positive divisor: the remainder takes the sign of `a`. */
  function CRem(a: int, b: int): (r: int)
    requires b > 0
    ensures a >= 0 ==> 0 <= r < b
    ensures a < 0 ==> -b < r <= 0
    ensures r == a - CDiv(a, b) * b
  {
    if a >= 0 then a % b else -((-a) % b)
  }

  /** Reducing an intermediate sum modulo 2^32 does not change the final reduction. */
  lemma ToU32Add(a: int, b: int)
    ensures ToU32(ToU32(a) + b) == ToU32(a + b)
  {
    var q := a / U32_MODULUS;
    assert a == U32_MODULUS * q + ToU32(a);
    assert (ToU32(a) + b) + U32_MODULUS * q == a + b;
    ModShift(ToU32(a) + b, q);
  }

  /** Adding multiples of 2^32 does not change the reduction. */
  lemma ModShift(x: int, q: int)
    ensures (x + U32_MODULUS * q) % U32_MODULUS == x % U32_MODULUS
  {
    var r := x % U32_MODULUS;
    var d := x / U32_MODULUS;
    assert x + U32_MODULUS * q == U32_MODULUS * (d + q) + r;
  }

  /** `n` applications of `++` to a `uint32_t` counter that starts at 0. */
  function Increments(n: nat): U32
  {
    if n == 0 then 0 else AddU32(Increments(n - 1), 1)
  }

  /** The counter holds the number of increments modulo 2^32. */
  lemma {:induction false} IncrementsWrap(n: nat)
    ensures Increments(n) == ToU32(n)
  {
    if n > 0 {
      IncrementsWrap(n - 1);
      ToU32Add(n - 1, 1);
    }
  }
}
