/** Doubles by their 64 bits: neighbours are one apart, and 2^52 steps double the number. */
module Ieee {
  import opened Arith
  import opened Words
  import opened Doubles
  import opened DtoaScale
  import opened Dtoa

  const SMALLEST: int := -1074

  /** The bits without the sign. */
  function Bits(word0: Word, word1: Word): nat {
    word0 % 0x8000_0000 * 0x1_0000_0000 + word1
  }

  /** The number that n stands for, in units of 2^-1074. */
  function Magnitude(n: nat): nat {
    if n < 0x20_0000_0000_0000 then n else 2 * Magnitude(n - 0x10_0000_0000_0000)
  }

  /** By exponent field and fraction. */
  lemma {:induction false} MagnitudeIs(e: nat, f: nat)
    requires f < 0x10_0000_0000_0000
    ensures Magnitude(e * 0x10_0000_0000_0000 + f)
         == if e == 0 then f else (0x10_0000_0000_0000 + f) * Exp2(e - 1)
  {
    if e <= 1 {
      assert Exp2(0) == 1;
    } else {
      MagnitudeIs(e - 1, f);
      MulAssoc(2, 0x10_0000_0000_0000 + f, Exp2(e - 2));
      MulAssoc(0x10_0000_0000_0000 + f, 2, Exp2(e - 2));
    }
  }

  function Fraction(word0: Word, word1: Word): (f: nat)
    ensures f < 0x10_0000_0000_0000
  {
    word0 % 0x10_0000 * 0x1_0000_0000 + word1
  }

  lemma {:induction false} Fields(word0: Word, word1: Word)
    ensures Bits(word0, word1) == Biased(word0) * 0x10_0000_0000_0000 + Fraction(word0, word1)
    ensures Significand(word0, word1)
         == (if Biased(word0) > 0 then 0x10_0000_0000_0000 else 0) + Fraction(word0, word1)
    ensures Biased(word0) == Bits(word0, word1) / 0x10_0000_0000_0000 < 0x800
  {
    var e, r := word0 / 0x10_0000, word0 % 0x10_0000;
    assert word0 % 0x8000_0000 == e % 0x800 * 0x10_0000 + r by {
      assert e == e / 0x800 * 0x800 + e % 0x800;
      DivModUnique(word0, 0x8000_0000, e / 0x800, e % 0x800 * 0x10_0000 + r);
    }
    DivModUnique(Bits(word0, word1), 0x10_0000_0000_0000, Biased(word0), Fraction(word0, word1));
  }

  /** Sign, exponent and significand of the words are those of the bits. */
  lemma {:induction false} WordsAreBits(word0: Word, word1: Word)
    ensures Unit(word0) >= SMALLEST
    ensures Significand(word0, word1) * Exp2(Unit(word0) - SMALLEST) == Magnitude(Bits(word0, word1))
    ensures Finite(word0) <==> Bits(word0, word1) < 0x7ff0_0000_0000_0000
    ensures Significand(word0, word1) == 0 <==> Bits(word0, word1) == 0
    ensures Negative(word0) <==> word0 != word0 % 0x8000_0000
  {
    Fields(word0, word1);
    MagnitudeIs(Biased(word0), Fraction(word0, word1));
    assert Exp2(0) == 1;
  }

  lemma {:induction false} PowersOfTwo(e: nat)
    ensures Exp2(0) == 1 && (e > 0 ==> Exp2(e) == 2 * Exp2(e - 1))
  {
  }

  /** From one double to the next it is one unit in the last place of the lower one. */
  lemma {:induction false} Step(e: nat, f: nat)
    requires f < 0x10_0000_0000_0000
    ensures var n := e * 0x10_0000_0000_0000 + f; Magnitude(n + 1) - Magnitude(n) == Exp2(Max(e, 1) - 1)
  {
    hide Magnitude, Exp2;
    PowersOfTwo(e);
    MagnitudeIs(e, f);
    if f + 1 < 0x10_0000_0000_0000 {
      MagnitudeIs(e, f + 1);
    } else {
      MagnitudeIs(e + 1, 0);
    }
  }

  /** The unit of d, and half of it below a power of two, separate d from its neighbours. */
  lemma {:induction false} Distances(word0: Word, word1: Word)
    requires Bits(word0, word1) > 0
    ensures var n, u := Bits(word0, word1), Exp2(Unit(word0) - SMALLEST);
            && Magnitude(n + 1) - Magnitude(n) == u
            && (if Boundary(word0, word1) then 2 * (Magnitude(n) - Magnitude(n - 1)) == u
                else Magnitude(n) - Magnitude(n - 1) == u)
  {
    var e, f := Biased(word0), Fraction(word0, word1);
    Fields(word0, word1);
    Step(e, f);
    if f > 0 {
      Step(e, f - 1);
    } else {
      Step(e - 1, 0x10_0000_0000_0000 - 1);
      assert e > 1 ==> Exp2(e - 1) == 2 * Exp2(e - 2);
    }
  }

  /** Over 10^k, the double is the number that its bits stand for. */
  lemma {:induction false} SameNumber(word0: Word, word1: Word, k: int)
    ensures Numerator(Significand(word0, word1), Unit(word0), k) * Denominator(SMALLEST, k)
         == Denominator(Unit(word0), k) * Numerator(Magnitude(Bits(word0, word1)), SMALLEST, k)
  {
    WordsAreBits(word0, word1);
    hide Magnitude, Exp2, Numerator, Denominator, Significand, Unit, Bits;
    SameRatio(Significand(word0, word1), Unit(word0), Magnitude(Bits(word0, word1)), SMALLEST, k);
  }

  /** The interval around d that ShortestFor speaks of reaches half way to the previous and to the next double. */
  lemma {:induction false} HalfWay(word0: Word, word1: Word, k: int)
    requires Bits(word0, word1) > 0
    ensures var n, b, e := Bits(word0, word1), UnitB(Significand(word0, word1), Unit(word0), k), Unit(word0);
            && 2 * UnitLo(e, k, Boundary(word0, word1)) * Magnitude(n) == b * (Magnitude(n) - Magnitude(n - 1))
            && 2 * UnitHi(e, k) * Magnitude(n) == b * (Magnitude(n + 1) - Magnitude(n))
  {
    hide Magnitude, Exp2, Numerator, Boundary, Significand, Unit, Bits;
    var n, m, e, spec := Bits(word0, word1), Significand(word0, word1), Unit(word0), Boundary(word0, word1);
    Distances(word0, word1);
    WordsAreBits(word0, word1);
    OneTimes(m, e, k);
    Exchange(Numerator(1, e, k), m, Exp2(e - SMALLEST), Magnitude(n) - Magnitude(n - 1), spec);
  }

  lemma {:induction false} OneTimes(m: nat, e: int, k: int)
    ensures Numerator(m, e, k) == m * Numerator(1, e, k)
  {
  }

  lemma {:induction false} Exchange(one: nat, m: nat, u: nat, lo: nat, spec: bool)
    requires if spec then 2 * lo == u else lo == u
    ensures 2 * ((if spec then 1 else 2) * one) * (m * u) == 4 * (m * one) * lo
    ensures 2 * (2 * one) * (m * u) == 4 * (m * one) * u
  {
    MulAssoc(one, m, u);
    MulAssoc(m, one, u);
    MulAssoc(m * one, 2, lo);
    assert one * m == m * one;
  }
}
