/**
 * Helpers shared by the models: C unsigned arithmetic on unbounded integers and
 * an Option type for values the C code leaves unwritten.
 */
module Bits {

  /** 2^32, the modulus of `u32` arithmetic. */
  const U32: nat := 0x1_0000_0000
  /** 2^16, the modulus of `u16` arithmetic. */
  const U16: nat := 0x1_0000

  /** The value of an integer expression after storing it in a `u32`. */
  function Wrap32(x: int): (r: nat)
    ensures r < U32
    ensures 0 <= x < U32 ==> r == x
  {
    x % U32
  }

  /** The value of an integer expression after storing it in a `u16`. */
  function Wrap16(x: int): (r: nat)
    ensures r < U16
    ensures 0 <= x < U16 ==> r == x
  {
    x % U16
  }

  /** Monotonicity of the product of naturals. */
  lemma MulLe(a: nat, b: nat, c: nat, d: nat)
    requires a <= b && c <= d
    ensures a * c <= b * d
  {
    assert a * c <= b * c;
    assert b * c <= b * d;
  }

  /** Integer division is monotone in the dividend. */
  lemma DivLe(x: nat, y: nat, d: nat)
    requires x <= y && d > 0
    ensures x / d <= y / d
  {
    var q, p := x / d, y / d;
    assert d * q <= x;
    assert y < d * p + d;
    if q > p {
      MulLe(d, d, p + 1, q);
      assert false;
    }
  }

  /** The quotient and remainder put back together give the dividend. */
  lemma DivMod(n: nat, d: nat)
    requires d >= 1
    ensures n == (n / d) * d + n % d
  {
  }

  function Min(a: int, b: int): int { if a <= b then a else b }

  function Max(a: int, b: int): int { if a >= b then a else b }

  /** 2^k */
  function Pow2(k: nat): (r: nat)
    ensures r >= 1
  {
    if k == 0 then 1 else 2 * Pow2(k - 1)
  }

  /** Powers of two grow with the exponent. */
  lemma {:induction false} Pow2Mono(a: nat, b: nat)
    requires a <= b
    ensures Pow2(a) <= Pow2(b)
    decreases b
  {
    if a < b {
      Pow2Mono(a, b - 1);
    }
  }

  datatype Option<T> = None | Some(value: T)
}
