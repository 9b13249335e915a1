/**
 * The pseudo-random generators Rand2 and Rand3 of ameba_rand2.c.
 *
 * Each call advances three generators and returns the 32-bit sum of their new
 * values: a linear congruential generator on the shared `rand_x`, a 32-bit
 * xorshift on `y`, and a multiply-with-carry generator on `z` and `c`.  Rand2
 * and Rand3 share `rand_x`; each keeps its own static `y`, `z` and `c`.  The
 * static variables become an explicit state that each call returns.
 */
module Rand {

  import opened Bits

  /** Initial value of the shared `rand_x`. */
  const InitialX: nat := 123456789
  /** Initial values of each function's static y, z and c. */
  const InitialY: bv32 := 362436
  const InitialZ: nat := 521288629
  const InitialC: nat := 7654321

  /** LCG constants: rand_x' = 69069 * rand_x + 12345 (+ seed) mod 2^32. */
  const LcgMul: nat := 69069
  const LcgAdd: nat := 12345
  /** The inverse of 69069 modulo 2^32 (69069 is odd, so it exists). */
  const LcgMulInverse: nat := 2783094533

  /** Multiply-with-carry multiplier `a`. */
  const MwcMul: nat := 698769069
  /** 2^64: the width of the `unsigned long long` the MWC product is computed in. */
  const U64: nat := 0x1_0000_0000_0000_0000

  /** The static part each of Rand2 and Rand3 owns. */
  datatype Stream = Stream(y: bv32, z: nat, c: nat)
  {
    predicate Valid() { z < U32 && c < U32 }
  }

  /** All generator state: the shared `rand_x` and the two functions' statics. */
  datatype State = State(x: nat, s2: Stream, s3: Stream)
  {
    predicate Valid() { x < U32 && s2.Valid() && s3.Valid() }
  }

  function Initial(): (g: State)
    ensures g.Valid()
  {
    var s := Stream(InitialY, InitialZ, InitialC);
    State(InitialX, s, s)
  }

  // ---------------------------------------------------------------------------
  // Linear congruential step
  // ---------------------------------------------------------------------------

  /** rand_x' = 69069 * rand_x + 12345 + seed in u32 arithmetic (Rand2 passes seed 0). */
  function Lcg(x: nat, seed: nat): (r: nat)
    ensures r < U32
  {
    Wrap32(LcgMul * x + LcgAdd + seed)
  }

  /** Undo one LCG step: subtract the increment, multiply by the inverse of 69069. */
  function UnLcg(r: nat, seed: nat): (x: nat)
    ensures x < U32
  {
    Wrap32(LcgMulInverse * (r - LcgAdd - seed))
  }

  /** Adding a multiple of 2^32 does not change a value modulo 2^32. */
  lemma ModAddMultiple(k: int, n: int)
    ensures (k * U32 + n) % U32 == n % U32
  {
  }

  /** The LCG step is a bijection on u32: UnLcg undoes it. */
  lemma LcgInverse(x: nat, seed: nat)
    requires x < U32
    ensures UnLcg(Lcg(x, seed), seed) == x
  {
    var v := LcgMul * x + LcgAdd + seed;
    var r := Lcg(x, seed);
    assert r == v % U32;
    // r - 12345 - seed == (v % U32) - (v - 69069 * x)
    var k := v / U32;
    assert v == k * U32 + r;
    assert r - LcgAdd - seed == LcgMul * x - k * U32;
    assert LcgMulInverse * (r - LcgAdd - seed) == (LcgMulInverse * LcgMul) * x - (LcgMulInverse * k) * U32;
    assert LcgMulInverse * LcgMul == 1 + 44756 * U32;
    assert LcgMulInverse * (r - LcgAdd - seed) == x + (44756 * x - LcgMulInverse * k) * U32;
    ModAddMultiple(44756 * x - LcgMulInverse * k, x);
  }

  // ---------------------------------------------------------------------------
  // Xorshift step
  // ---------------------------------------------------------------------------

  /** `y ^= y << 13` */
  function Shl13Step(y: bv32): bv32 { y ^ (y << 13) }
  /** `y ^= y >> 17` */
  function Shr17Step(y: bv32): bv32 { y ^ (y >> 17) }
  /** `y ^= y << 5` */
  function Shl5Step(y: bv32): bv32 { y ^ (y << 5) }

  /** The xorshift update of `y`: the three steps in program order. */
  function Xorshift(y: bv32): bv32 {
    Shl5Step(Shr17Step(Shl13Step(y)))
  }

  /** Undo `y ^= y << 5`. */
  function UnShl5(r: bv32): bv32 {
    r ^ (r << 5) ^ (r << 10) ^ (r << 15) ^ (r << 20) ^ (r << 25) ^ (r << 30)
  }

  /** Undo `y ^= y >> 17`. */
  function UnShr17(r: bv32): bv32 {
    r ^ (r >> 17)
  }

  /** Undo `y ^= y << 13`. */
  function UnShl13(r: bv32): bv32 {
    r ^ (r << 13) ^ (r << 26)
  }

  /** The three undo steps in reverse order. */
  function UnXorshift(r: bv32): bv32 {
    UnShl13(UnShr17(UnShl5(r)))
  }

  // Each step lemma is stated on the raw expression first: the solver then
  // cancels the XORs word-wise, which it cannot do through a function call.

  lemma UnShl5Raw(b: bv32) ensures UnShl5(b ^ (b << 5)) == b {}
  lemma UnShr17Raw(b: bv32) ensures UnShr17(b ^ (b >> 17)) == b {}
  lemma UnShl13Raw(b: bv32) ensures UnShl13(b ^ (b << 13)) == b {}

  lemma Shl5Raw(b: bv32)
    ensures Shl5Step(b ^ (b << 5) ^ (b << 10) ^ (b << 15) ^ (b << 20) ^ (b << 25) ^ (b << 30)) == b
  {}
  lemma Shr17Raw(b: bv32) ensures Shr17Step(b ^ (b >> 17)) == b {}
  lemma Shl13Raw(b: bv32) ensures Shl13Step(b ^ (b << 13) ^ (b << 26)) == b {}

  lemma UnShl5Inverse(b: bv32)
    ensures UnShl5(Shl5Step(b)) == b
  {
    assert Shl5Step(b) == b ^ (b << 5);
    UnShl5Raw(b);
  }

  lemma Shl5Inverse(b: bv32)
    ensures Shl5Step(UnShl5(b)) == b
  {
    var u := UnShl5(b);
    assert u == b ^ (b << 5) ^ (b << 10) ^ (b << 15) ^ (b << 20) ^ (b << 25) ^ (b << 30);
    Shl5Raw(b);
  }

  lemma UnShr17Inverse(b: bv32)
    ensures UnShr17(Shr17Step(b)) == b
  {
    assert Shr17Step(b) == b ^ (b >> 17);
    UnShr17Raw(b);
  }

  lemma Shr17Inverse(b: bv32)
    ensures Shr17Step(UnShr17(b)) == b
  {
    var u := UnShr17(b);
    assert u == b ^ (b >> 17);
    Shr17Raw(b);
  }

  lemma UnShl13Inverse(b: bv32)
    ensures UnShl13(Shl13Step(b)) == b
  {
    assert Shl13Step(b) == b ^ (b << 13);
    UnShl13Raw(b);
  }

  lemma Shl13Inverse(b: bv32)
    ensures Shl13Step(UnShl13(b)) == b
  {
    var u := UnShl13(b);
    assert u == b ^ (b << 13) ^ (b << 26);
    Shl13Raw(b);
  }

  /** Xorshift is a bijection on u32: UnXorshift undoes it, and it undoes UnXorshift. */
  lemma XorshiftInverse(y: bv32)
    ensures UnXorshift(Xorshift(y)) == y
    ensures Xorshift(UnXorshift(y)) == y
  {
    UnShl5Inverse(Shr17Step(Shl13Step(y)));
    UnShr17Inverse(Shl13Step(y));
    UnShl13Inverse(y);
    Shl13Inverse(UnShr17(UnShl5(y)));
    Shr17Inverse(UnShl5(y));
    Shl5Inverse(y);
  }

  /** The xorshift update is a bijection that fixes zero, so a non-zero y never becomes zero. */
  lemma XorshiftZero(y: bv32)
    ensures Xorshift(y) == 0 <==> y == 0
  {
    XorshiftInverse(y);
    assert Xorshift(0) == 0;
  }

  // ---------------------------------------------------------------------------
  // Multiply-with-carry step
  // ---------------------------------------------------------------------------

  /**
   * t = a * z + c in 64 bits; c' = t >> 32 stored in a u32, z' = t stored in
   * a u32.  Returns (z', c').
   */
  function Mwc(z: nat, c: nat): (r: (nat, nat))
    requires z < U32 && c < U32
    ensures r.0 < U32 && r.1 < U32
  {
    var t := (MwcMul * z + c) % U64;
    (Wrap32(t), Wrap32(t / U32))
  }

  /** The 64-bit product never wraps, and c' * 2^32 + z' is exactly a * z + c. */
  lemma MwcExact(z: nat, c: nat)
    requires z < U32 && c < U32
    ensures MwcMul * z + c < U64
    ensures Mwc(z, c).1 * U32 + Mwc(z, c).0 == MwcMul * z + c
    ensures Mwc(z, c).1 <= MwcMul
  {
    MulLe(MwcMul, MwcMul, z, U32 - 1);
    var t := MwcMul * z + c;
    assert t < MwcMul * U32 + U32;
    assert t / U32 <= MwcMul by {
      DivLe(t, MwcMul * U32 + U32 - 1, U32);
      assert (MwcMul * U32 + U32 - 1) / U32 == MwcMul;
    }
  }

  // ---------------------------------------------------------------------------
  // Rand2 / Rand3
  // ---------------------------------------------------------------------------

  /** One step of a function's own statics. */
  function Advance(s: Stream): (s': Stream)
    requires s.Valid()
    ensures s'.Valid()
  {
    var zc := Mwc(s.z, s.c);
    Stream(Xorshift(s.y), zc.0, zc.1)
  }

  /** rand_x + y + z, wrapped to u32. */
  function Output(x: nat, s: Stream): (r: nat)
    ensures r < U32
  {
    Wrap32(x + s.y as nat + s.z)
  }

  /** Rand2: advance the shared x (no seed) and Rand2's own statics. */
  function Rand2(g: State): (r: (State, nat))
    requires g.Valid()
    ensures r.0.Valid() && r.1 < U32
    ensures r.0.s3 == g.s3
  {
    var x := Lcg(g.x, 0);
    var s := Advance(g.s2);
    (State(x, s, g.s3), Output(x, s))
  }

  /** Rand3: advance the shared x with `seed` added, and Rand3's own statics. */
  function Rand3(g: State, seed: nat): (r: (State, nat))
    requires g.Valid() && seed < U32
    ensures r.0.Valid() && r.1 < U32
    ensures r.0.s2 == g.s2
  {
    var x := Lcg(g.x, seed);
    var s := Advance(g.s3);
    (State(x, g.s2, s), Output(x, s))
  }

  /** Rand3 with seed 0 on the same statics produces what Rand2 produces. */
  lemma Rand3SeedZero(g: State)
    requires g.Valid() && g.s2 == g.s3
    ensures Rand3(g, 0).1 == Rand2(g).1
    ensures Rand3(g, 0).0.x == Rand2(g).0.x
  {
  }

  /** The shared x couples the two: a Rand3 call changes what the next Rand2 returns through x only. */
  lemma SharedX(g: State, seed: nat)
    requires g.Valid() && seed < U32
    ensures Rand2(Rand3(g, seed).0).0.x == Lcg(Lcg(g.x, seed), 0)
    ensures Rand2(Rand3(g, seed).0).0.s2 == Rand2(g).0.s2
  {
  }
}
