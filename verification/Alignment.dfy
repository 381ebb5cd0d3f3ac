/** Rounding addresses and sizes up to a boundary. */
module Alignment {
  function AlignUpTo8(n: nat): (r: nat)
    ensures r % 8 == 0 && n <= r < n + 8
  {
    (n + 7) / 8 * 8
  }

  function DivideRoundingUp(i: nat, j: nat): nat
    requires j > 0
  {
    (i + (j - 1)) / j
  }

  /** The least multiple of `alignment` that is not below `offset`. */
  function AlignTo(offset: nat, alignment: nat): nat
    requires alignment > 0
  {
    DivideRoundingUp(offset, alignment) * alignment
  }

  predicate PowerOfTwo(n: nat) {
    n == 1 || (n > 1 && n % 2 == 0 && PowerOfTwo(n / 2))
  }

  lemma MulAtLeast(d: int, a: int)
    requires d >= 1 && a > 0
    ensures d * a >= a
  {
  }

  lemma FundamentalDivMod(x: int, a: int)
    requires a > 0
    ensures x == (x / a) * a + x % a && 0 <= x % a < a
  {
  }

  lemma RemainderUnique(q: int, q': int, r: int, r': int, a: int)
    requires a > 0 && 0 <= r < a && 0 <= r' < a && q * a + r == q' * a + r'
    ensures q == q' && r == r'
  {
    assert (q - q') * a == r' - r;
    if q > q' { MulAtLeast(q - q', a); }
    assert (q' - q) * a == r - r';
    if q' > q { MulAtLeast(q' - q, a); }
  }

  lemma MultipleMod(k: int, a: int)
    requires a > 0
    ensures (k * a) % a == 0
  {
    FundamentalDivMod(k * a, a);
    RemainderUnique(k, (k * a) / a, 0, (k * a) % a, a);
  }

  /** Rounding up reaches a multiple, and moves by less than the alignment. */
  lemma {:induction false} AlignToBounds(offset: nat, alignment: nat)
    requires alignment > 0
    ensures AlignTo(offset, alignment) % alignment == 0
    ensures offset <= AlignTo(offset, alignment) < offset + alignment
  {
    MultipleMod(DivideRoundingUp(offset, alignment), alignment);
    FundamentalDivMod(offset + (alignment - 1), alignment);
  }

  /** ... and to the least such multiple. */
  lemma {:induction false} AlignToLeast(offset: nat, alignment: nat, m: nat)
    requires alignment > 0 && offset <= m && m % alignment == 0
    ensures AlignTo(offset, alignment) <= m
  {
    AlignToBounds(offset, alignment);
    var r := AlignTo(offset, alignment);
    FundamentalDivMod(r, alignment);
    FundamentalDivMod(m, alignment);
    var d := r / alignment - m / alignment;
    assert d * alignment == r - m;
    if d >= 1 { MulAtLeast(d, alignment); }
  }

  lemma PowerAbove8(align: nat)
    requires PowerOfTwo(align) && align > 8
    ensures align % 8 == 0
  {
    assert PowerOfTwo(align / 2) && PowerOfTwo(align / 2 / 2) && PowerOfTwo(align / 2 / 2 / 2);
  }

  lemma MultipleOfMultiple(x: nat, m: nat)
    requires m > 0 && x % (8 * m) == 0
    ensures x % 8 == 0
  {
    var k := x / (8 * m);
    FundamentalDivMod(x, 8 * m);
    assert x == 8 * (k * m);
  }

  /** Asking for size + align - 8 bytes leaves room for an object of `size` bytes aligned to
      `align` inside the 8-aligned range that is returned. */
  lemma {:induction false} OverAlignedFits(p: nat, size: nat, align: nat)
    requires PowerOfTwo(align) && align > 8 && p % 8 == 0
    ensures AlignTo(p, align) % align == 0
    ensures p <= AlignTo(p, align) && AlignTo(p, align) + size <= p + (size + align - 8)
  {
    PowerAbove8(align);
    AlignToBounds(p, align);
    MultipleOfMultiple(AlignTo(p, align), align / 8);
  }

  // ----- rounding by masking -----

  /** Bitwise and. */
  function BitAnd(a: nat, b: nat): nat {
    if a == 0 || b == 0 then 0 else 2 * BitAnd(a / 2, b / 2) + (a % 2) * (b % 2)
  }

  /** In words of `w` values, w - align is the two's complement of align: masking with it clears
      the bits below align. */
  lemma {:induction false} MaskRoundsDown(x: nat, align: nat, w: nat)
    requires PowerOfTwo(align) && PowerOfTwo(w) && align <= w && x < w
    ensures BitAnd(x, w - align) == x - x % align
  {
    if w == align {
      SmallRemainder(x, align);
    } else {
      assert w == 2 * (w / 2) && PowerOfTwo(w / 2);
      assert align != 1 ==> align == 2 * (align / 2) && PowerOfTwo(align / 2);
      assert BitAnd(x, 0) == 0;
      hide PowerOfTwo, BitAnd;
      if align == 1 {
        MaskRoundsDown(x / 2, 1, w / 2);
        BitAndHalves(x, w / 2 - 1, 1);
      } else {
        MaskRoundsDown(x / 2, align / 2, w / 2);
        BitAndHalves(x, w / 2 - align / 2, 0);
        HalvedRemainder(x, align / 2);
      }
    }
  }

  lemma SmallRemainder(x: nat, a: nat)
    requires x < a
    ensures x % a == x
  {
    FundamentalDivMod(x, a);
    RemainderUnique(0, x / a, x, x % a, a);
  }

  lemma BitAndHalves(x: nat, m: nat, bit: nat)
    requires bit <= 1
    ensures BitAnd(x, 2 * m + bit) == 2 * BitAnd(x / 2, m) + (x % 2) * bit
  {
    assert (2 * m + bit) / 2 == m && (2 * m + bit) % 2 == bit;
  }

  lemma HalvedRemainder(x: nat, half: nat)
    requires half > 0
    ensures x - x % (2 * half) == 2 * (x / 2 - x / 2 % half)
  {
    FundamentalDivMod(x / 2, half);
    FundamentalDivMod(x, 2 * half);
    var q, r := x / 2 / half, 2 * (x / 2 % half) + x % 2;
    assert q * (2 * half) == 2 * (q * half);
    RemainderUnique(q, x / (2 * half), r, x % (2 * half), 2 * half);
  }

  /** The two ways in which the code rounds up, by dividing and by masking, agree for every power
      of two. */
  lemma {:induction false} MaskingIsAlignTo(offset: nat, align: nat, w: nat)
    requires PowerOfTwo(align) && PowerOfTwo(w) && align <= w && offset + align - 1 < w
    ensures BitAnd(offset + (align - 1), w - align) == AlignTo(offset, align)
  {
    MaskRoundsDown(offset + (align - 1), align, w);
    FundamentalDivMod(offset + (align - 1), align);
  }
}
