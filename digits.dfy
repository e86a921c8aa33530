/** Digit arithmetic of the radix tree: a 64-bit key is consumed six bits
    per level, most significant digit first. The constants are the header's
    RADIX_TREE_MAP_SHIFT, RADIX_TREE_MAP_SIZE and RADIX_TREE_MAP_MASK. */
module Digits {

  /** Bits consumed per level (RADIX_TREE_MAP_SHIFT). */
  const SHIFT: nat := 6
  /** Child slots per node (RADIX_TREE_MAP_SIZE, 1 << SHIFT). */
  const SIZE: nat := 64
  /** Mask of one digit (RADIX_TREE_MAP_MASK, SIZE - 1). */
  const MASK: nat := 63
  /** 2^64: keys and residuals are uint64_t / size_t values. */
  const WORD: nat := 0x1_0000_0000_0000_0000
  /** Largest tree height whose digit shift height * SHIFT stays below 64. */
  const MAX_HEIGHT: nat := 10

  function Pow2(n: nat): (p: nat)
    ensures p >= 1
  {
    if n == 0 then 1 else 2 * Pow2(n - 1)
  }

  lemma {:induction false} Pow2Add(m: nat, n: nat)
    ensures Pow2(m + n) == Pow2(m) * Pow2(n)
  {
    if m > 0 {
      Pow2Add(m - 1, n);
      calc {
        Pow2(m + n);
        2 * Pow2(m - 1 + n);
        2 * (Pow2(m - 1) * Pow2(n));
        (2 * Pow2(m - 1)) * Pow2(n);
      }
    }
  }

  /** x >> n on an unsigned value. */
  function Shr(x: nat, n: nat): nat { Quotient(x, Pow2(n)) }

  /** Unsigned division. */
  function Quotient(x: nat, p: nat): nat
    requires p > 0
  {
    x / p
  }

  /** x << n, before any truncation to 64 bits. */
  function Shl(x: nat, n: nat): nat { x * Pow2(n) }

  /** Reduction modulo 2^64: what an unsigned 64-bit subtraction stores. */
  function Wrap64(x: int): (w: nat)
    ensures w < WORD
    ensures 0 <= x < WORD ==> w == x
    ensures (w - x) % WORD == 0
  {
    x % WORD
  }

  /** Weight of the digit consumed at height h: 1 << (h * SHIFT). */
  function Unit(h: nat): (u: nat)
    ensures u >= 1
  {
    Pow2(SHIFT * h)
  }

  /** One more level multiplies the weight by the node fan-out. */
  lemma {:induction false} UnitStep(h: nat)
    ensures Unit(h + 1) == SIZE * Unit(h)
  {
    Pow2Add(SHIFT * h, SHIFT);
    assert SHIFT * (h + 1) == SHIFT * h + SHIFT;
  }

  /** The digit of entry at height h: entry >> (h * SHIFT). */
  function Digit(entry: nat, h: nat): (d: nat)
    ensures Shl(d, SHIFT * h) <= entry < Shl(d, SHIFT * h) + Unit(h)
  {
    Shr(entry, SHIFT * h)
  }

  /** What is left of entry once its digit at height h is removed:
      entry - ((entry >> (h * SHIFT)) << (h * SHIFT)). It is exactly the
      low h * SHIFT bits of entry. */
  function Residual(entry: nat, h: nat): (r: nat)
    ensures r == entry % Unit(h)
    ensures r < Unit(h) && r <= entry
  {
    entry - Shl(Digit(entry, h), SHIFT * h)
  }

  /** The source's bound check: when entry fits in h + 1 digits its digit at
      height h indexes one of the SIZE slots, and the residual handed to the
      next level fits in h digits. */
  lemma DigitBound(entry: nat, h: nat)
    requires entry < Unit(h + 1)
    ensures Digit(entry, h) < SIZE
    ensures Residual(entry, h) < Unit(h)
    ensures entry - Shl(Digit(entry, h), SHIFT * h) == entry % Unit(h)
  {
    UnitStep(h);
  }

  /** A key is determined by its digit at height h and its residual below. */
  lemma DigitResidualDetermine(k: nat, e: nat, h: nat)
    ensures k == e <==> Digit(k, h) == Digit(e, h) && Residual(k, h) == Residual(e, h)
  {
    var u := Unit(h);
    assert k == Digit(k, h) * u + Residual(k, h);
    assert e == Digit(e, h) * u + Residual(e, h);
  }

  /** The header constants agree: SIZE is 1 << SHIFT and MASK is SIZE - 1,
      so masking with MASK keeps the low digit. */
  lemma MaskKeepsLowDigit(x: bv64)
    ensures SIZE == Shl(1, SHIFT) && MASK == SIZE - 1
    ensures MASK as bv64 == 63 && SIZE as bv64 == 64
    ensures x & (MASK as bv64) < SIZE as bv64
    ensures x & 63 == x % 64
  {
    assert Pow2(SHIFT) == 64;
  }

  /** The digit weights of the lowest four heights. */
  lemma SmallUnits()
    ensures Unit(0) == 1 && Unit(1) == 64 && Unit(2) == 4096 && Unit(3) == 262144
  {
    UnitStep(0);
    UnitStep(1);
    UnitStep(2);
  }

  /** 1 << 63 is the top bit of a 64-bit word. */
  lemma TopBit()
    ensures Pow2(63) == 0x8000_0000_0000_0000
  {
    SmallUnits();
    assert Pow2(18) == 262144 by { assert Unit(3) == Pow2(18); }
    assert Pow2(9) == 512;
    Pow2Add(18, 18);
    Pow2Add(36, 18);
    Pow2Add(54, 9);
  }

  /** A left shift by 63 bits on 64 bits keeps only the lowest bit of d,
      moved to the top. */
  lemma ShiftBy63(d: nat)
    ensures Wrap64(Shl(d, 63)) == (d % 2) * 0x8000_0000_0000_0000
  {
    TopBit();
    var q := d / 2;
    var m := d % 2;
    assert d == 2 * q + m;
    calc {
      Shl(d, 63);
      d * 0x8000_0000_0000_0000;
      q * WORD + m * 0x8000_0000_0000_0000;
    }
    ModOfMultiple(q, m * 0x8000_0000_0000_0000);
  }

  /** A negative difference wraps around to 2^64 above it. */
  lemma WrapBelowZero(x: int)
    requires -(WORD as int) <= x < 0
    ensures Wrap64(x) == x + WORD
  {
    var w := Wrap64(x);
    assert (w - x) % WORD == 0 && 0 < w - x < 2 * WORD;
  }

  /** Adding whole multiples of 2^64 does not change the stored value. */
  lemma ModOfMultiple(q: nat, r: nat)
    requires r < WORD
    ensures Wrap64(q * WORD + r) == r
  {
    var w := Wrap64(q * WORD + r);
    assert (w - r) % WORD == 0 by {
      assert w - r == w - (q * WORD + r) + q * WORD;
    }
  }
}
