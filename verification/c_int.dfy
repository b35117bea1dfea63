/**
  The C and C++ integer conversions the pipeline relies on, written out over
  unbounded integers. Each one is the two's-complement (or modular) reduction
  that the conversion performs on the platforms the sample targets (LP64).
 */
module CInt {

  const TWO_15: int := 0x8000
  const TWO_16: int := 0x1_0000
  const TWO_31: int := 0x8000_0000
  const TWO_32: int := 0x1_0000_0000
  const TWO_64: int := 0x1_0000_0000_0000_0000

  /** Conversion to a 32-bit `int`: wraps modulo 2^32 into [-2^31, 2^31). */
  function Int32(v: int): (r: int)
    ensures -TWO_31 <= r < TWO_31
    ensures (r - v) % TWO_32 == 0
    ensures -TWO_31 <= v < TWO_31 ==> r == v
  {
    (v + TWO_31) % TWO_32 - TWO_31
  }

  /** Conversion to `unsigned int` (32 bits). */
  function U32(v: int): (r: nat)
    ensures r < TWO_32
    ensures (r - v) % TWO_32 == 0
    ensures 0 <= v < TWO_32 ==> r == v
  {
    v % TWO_32
  }

  /** Conversion to `unsigned long` (64 bits on LP64). */
  function ULong(v: int): (r: nat)
    ensures r < TWO_64
    ensures (r - v) % TWO_64 == 0
    ensures 0 <= v < TWO_64 ==> r == v
  {
    v % TWO_64
  }

  /** Conversion to `short` (16 bits). */
  function Short(v: int): (r: int)
    ensures -TWO_15 <= r < TWO_15
    ensures (r - v) % TWO_16 == 0
    ensures -TWO_15 <= v < TWO_15 ==> r == v
  {
    (v + TWO_15) % TWO_16 - TWO_15
  }

  /** C's `/` on signed operands, which truncates toward zero. */
  function CDiv(a: int, b: int): (q: int)
    requires b > 0
    ensures a >= 0 ==> q == a / b
    ensures a < 0 ==> q == -((-a) / b)
  {
    if a >= 0 then a / b else -((-a) / b)
  }

  /** 2^n. */
  function Pow2(n: nat): (p: nat)
    ensures p >= 1
  {
    if n == 0 then 1 else 2 * Pow2(n - 1)
  }

  /** `v >> n` on a non-negative value: `n` halvings, each dropping the low bit. */
  function Shr(v: nat, n: nat): (r: nat)
    ensures r <= v
    ensures n == 0 ==> r == v
  {
    if n == 0 then v else Shr(v / 2, n - 1)
  }

  /** `v << n` without overflow: `n` doublings. */
  function Shl(v: nat, n: nat): (r: nat)
    ensures r >= v
    ensures n == 0 ==> r == v
  {
    if n == 0 then v else 2 * Shl(v, n - 1)
  }

  /** `Shl` is C's `<<` without overflow: multiplication by 2^n. */
  lemma {:induction false} ShlIsMul(v: nat, n: nat)
    ensures Shl(v, n) == v * Pow2(n)
  {
    if n > 0 {
      ShlIsMul(v, n - 1);
      assert 2 * (v * Pow2(n - 1)) == v * (2 * Pow2(n - 1));
    }
  }

  /** Shifting right by `s` undoes a shift left by `s`, whatever fills the low `s` bits. */
  lemma {:induction false} ShrUndoesShl(v: nat, low: nat, s: nat)
    requires low < Pow2(s)
    ensures Shr(Shl(v, s) + low, s) == v
  {
    if s > 0 {
      assert (Shl(v, s) + low) / 2 == Shl(v, s - 1) + low / 2;
      ShrUndoesShl(v, low / 2, s - 1);
    }
  }
}
