/** The number formatter: dtoa in mode 2, and its digits laid out as text. */
module Fpconv {
  import opened Arith
  import opened Decimals
  import opened DtoaFixed
  import opened DtoaScale
  import opened Words
  import opened Bigints
  import opened Doubles
  import opened Workspace
  import opened Dtoa
  import opened Ieee
  import GFmt

  /** Copies t. */
  method PutText(b: array<char>, n: nat, t: string) returns (n': nat)
    requires n + |t| <= b.Length
    modifies b
    ensures n' == n + |t| && b[..n'] == old(b[..n]) + t
  {
    n' := n;
    var i := 0;
    while i < |t|
      invariant i <= |t| && n' == n + i && b[..n'] == old(b[..n]) + t[..i]
    {
      n' := GFmt.Put(b, n', t[i]);
      i := i + 1;
    }
  }

  const INFINITY: nat := 0x7ff0_0000_0000_0000

  /** The text of a double that is not a number dtoa has digits for: zero, an infinity, or not a number. */
  function SpecialText(word0: Word, word1: Word): string {
    GFmt.SignText(Negative(word0))
    + if Finite(word0) then "0" else if word1 == 0 && word0 % 0x10_0000 == 0 then "inf" else "nan"
  }

  /** The text of a double: the digits of its number, rounded, in their layout. */
  ghost predicate Written(t: string, word0: Word, word1: Word, precision: nat) {
    var n := Bits(word0, word1);
    if 0 < n < INFINITY then
      exists s, k, k1 :: RoundedTo(s, k, k1, Magnitude(n), SMALLEST, precision)
                         && t == GFmt.Text(Negative(word0), s, k + 1, precision)
    else t == SpecialText(word0, word1)
  }

  /**
   * The text denotes d rounded to the precision, ties to even, and fits in 21 characters.
   * Nothing dtoa allocates for it stays behind but cached powers of five.
   */
  method FormatDouble(b: array<char>, pool: Pool, word0: Word, word1: Word, precision: nat, k0: int, kCheck: bool,
                      ghost base: set<Bigint>)
    returns (n: nat, ghost s: seq<Digit>, ghost k: int, ghost k1: int)
    requires Working(pool, base, {}) && 1 <= precision <= 14 && b.Length >= 21 && b !in Space(pool, {})
    requires Finite(word0) && Significand(word0, word1) > 0 ==> Estimate(word0, word1, k0, kCheck)
    modifies b, Space(pool, {})
    ensures Working(pool, base, {}) && old(pool.powers) <= pool.powers
    ensures forall o | o in Space(pool, {}) :: o in old(Space(pool, {})) || fresh(o)
    ensures n <= 21 && Written(b[..n], word0, word1, precision)
    ensures !Finite(word0) || Significand(word0, word1) == 0 ==> n <= 4 && b[..n] == SpecialText(word0, word1)
    ensures Finite(word0) && Significand(word0, word1) > 0 ==>
              && GFmt.Denotes(b[..n], Negative(word0), s, k + 1)
              && RoundedTo(s, k, k1, Significand(word0, word1), Unit(word0), precision)
              && b[..n] == GFmt.Text(Negative(word0), s, k + 1, precision)
  {
    hide Working, Space, Significand, GFmt.Denotes, GFmt.Text, RoundedTo, Estimate, Bits, Magnitude, Written,
      SpecialText;
    if Finite(word0) && Significand(word0, word1) > 0 {
      EstimateRange(word0, word1, k0, kCheck);
      var t, decpt;
      t, decpt, k1 := FixedDigits(pool, word0, word1, k0, kCheck, precision, base);
      s, k := t, decpt;
      DigitsFit(t, decpt, k1, Significand(word0, word1), Unit(word0), precision);
      GFmt.FitsIn21(precision, decpt + 1);
      n := GFmt.Format(b, Negative(word0), t, decpt + 1, precision);
      DigitsWritten(word0, word1, s, k, k1, precision);
    } else {
      SpecialWritten(word0, word1, precision);
      n := PutText(b, 0, SpecialText(word0, word1));
      assert b[..n] == SpecialText(word0, word1);
      s, k, k1 := [], 0, 0;
    }
  }

  lemma {:induction false} DigitsWritten(word0: Word, word1: Word, s: seq<Digit>, k: int, k1: int, precision: nat)
    requires Finite(word0) && Significand(word0, word1) > 0
    requires s != [] && RoundedTo(s, k, k1, Significand(word0, word1), Unit(word0), precision)
    ensures Written(GFmt.Text(Negative(word0), s, k + 1, precision), word0, word1, precision)
  {
    WordsAreBits(word0, word1);
    SameNumber(word0, word1, k1);
    hide Significand, Unit, Bits, Magnitude, RoundedTo, GFmt.Text, Numerator, Denominator;
    SameRounding(s, k, k1, Significand(word0, word1), Unit(word0), Magnitude(Bits(word0, word1)), SMALLEST, precision);
  }

  lemma {:induction false} SpecialWritten(word0: Word, word1: Word, precision: nat)
    requires !Finite(word0) || Significand(word0, word1) == 0
    ensures Written(SpecialText(word0, word1), word0, word1, precision) && |SpecialText(word0, word1)| <= 4
  {
    WordsAreBits(word0, word1);
    hide Significand, Bits, Magnitude, RoundedTo, GFmt.Text;
  }

  lemma {:induction false} DigitsFit(s: seq<Digit>, k: int, k1: int, m: nat, e: int, precision: nat)
    requires RoundedTo(s, k, k1, m, e, precision)
    ensures s != [] && |s| <= precision && k1 <= k <= k1 + 1
  {
  }

  lemma {:induction false} OfInteger(f: nat, be: nat, k: int)
    ensures k >= 0 ==> Numerator(f, be, k) == f * Exp2(be) && Denominator(be, k) == Pow(10, k)
    ensures k < 0 ==> Numerator(f, be, k) == (f * Exp2(be)) * Pow(10, -k) && Denominator(be, k) == 1
  {
    assert Pow(10, 0) == 1 && Exp2(0) == 1;
    if k < 0 {
      MulAssoc(f, Exp2(be), Pow(10, -k));
    }
  }

  lemma {:induction false} CancelTens(a: nat, n: nat, x: nat, y: nat)
    requires a * Pow(10, x) == n * Pow(10, y)
    ensures x >= y ==> a * Pow(10, x - y) == n
    ensures x < y ==> a == n * Pow(10, y - x)
  {
    if x >= y {
      PowAdd(10, x - y, y);
      MulAssoc(a, Pow(10, x - y), Pow(10, y));
      MulEqual(a * Pow(10, x - y), n, Pow(10, y));
    } else {
      PowAdd(10, y - x, x);
      MulAssoc(n, Pow(10, y - x), Pow(10, x));
      MulEqual(a, n * Pow(10, y - x), Pow(10, x));
    }
  }

  lemma {:induction false} LastDigit(s: seq<Digit>, n: nat, y: nat)
    requires s != [] && y > 0 && DecVal(s) == n * Pow(10, y)
    ensures s[|s| - 1] == 0
  {
    MulAssoc(n, 10, Pow(10, y - 1));
    MulAssoc(10, n, Pow(10, y - 1));
    assert DecVal(s) == 10 * (n * Pow(10, y - 1));
    assert DecVal(s) == 10 * DecVal(s[..|s| - 1]) + s[|s| - 1];
  }

  lemma {:induction false} ExponentOf(n: nat, k1: int, f: nat, be: nat, precision: nat)
    requires n == f * Exp2(be) && 0 < n < Pow(10, precision)
    requires Denominator(be, k1) <= Numerator(f, be, k1) < 10 * Denominator(be, k1)
    ensures 0 <= k1 < precision && Pow(10, k1) <= n < 10 * Pow(10, k1)
    ensures Numerator(f, be, k1) == n && Denominator(be, k1) == Pow(10, k1)
  {
    OfInteger(f, be, k1);
    if k1 < 0 {
      PowMonotone(10, 1, -k1);
      assert Pow(10, 1) == 10;
      MulMonotone(1, n, Pow(10, -k1));
    } else if k1 >= precision {
      PowMonotone(10, precision, k1);
    }
  }

  /** An integer times a power of ten is its own nearest integer. */
  lemma {:induction false} NearestIsExact(v: int, n: nat, k1: nat, precision: nat)
    requires k1 < precision && NearestEven(v, n * Pow(10, precision - 1), Pow(10, k1))
    ensures v == n * Pow(10, precision - 1 - k1)
  {
    var m := n * Pow(10, precision - 1 - k1);
    PowAdd(10, precision - 1 - k1, k1);
    MulAssoc(n, Pow(10, precision - 1 - k1), Pow(10, k1));
    assert m * Pow(10, k1) == n * Pow(10, precision - 1);
    NearestEvenUnique(v, m, n * Pow(10, precision - 1), Pow(10, k1));
  }

  /** The double of these words is n or -n. */
  ghost predicate IsInteger(word0: Word, word1: Word, n: nat) {
    var m, e := Significand(word0, word1), Unit(word0);
    if e >= 0 then n == m * Exp2(e) else m == n * Exp2(-e)
  }

  /** The integer d = f * 2^be below 10^precision keeps all its digits. */
  lemma {:induction false} IntegerExact(s: seq<Digit>, k: int, k1: int, f: nat, be: nat, precision: nat)
    requires RoundedTo(s, k, k1, f, be, precision) && 0 < f * Exp2(be) < Pow(10, precision)
    ensures |s| <= k + 1 <= precision && DecVal(s) * Pow(10, k + 1 - |s|) == f * Exp2(be)
  {
    var n := f * Exp2(be);
    ExponentOf(n, k1, f, be, precision);
    hide Numerator, Denominator, NearestEven, Exp2, Pow, DecVal;
    var x, y := precision - |s| + (k - k1), precision - 1 - k1;
    NearestIsExact(DecVal(s) * Pow(10, x), n, k1, precision);
    CancelTens(DecVal(s), n, x, y);
    if x < y {
      LastDigit(s, n, y - x);
    }
    if k == k1 + 1 {
      OneIsPower(k1);
    }
  }

  lemma {:induction false} OneIsPower(k1: nat)
    ensures DecVal([1]) * Pow(10, k1 + 1) == 10 * Pow(10, k1)
  {
    assert DecVal([1]) == 1;
  }

  /** A double that is an integer of at most precision digits is printed exactly. */
  lemma {:induction false} WholeNumber(s: seq<Digit>, k: int, k1: int, word0: Word, word1: Word, n: nat, precision: nat)
    requires RoundedTo(s, k, k1, Significand(word0, word1), Unit(word0), precision)
    requires IsInteger(word0, word1, n) && 0 < n < Pow(10, precision)
    ensures |s| <= k + 1 <= precision && DecVal(s) * Pow(10, k + 1 - |s|) == n
  {
    var m, e := Significand(word0, word1), Unit(word0);
    assert Exp2(0) == 1;
    hide Numerator, Denominator, Exp2, Pow, DecVal, RoundedTo, Significand, Unit;
    if e >= 0 {
      SameRatio(m, e, n, 0, k1);
    } else {
      SameRatio(n, 0, m, e, k1);
    }
    SameRounding(s, k, k1, m, e, n, 0, precision);
    IntegerExact(s, k, k1, n, 0, precision);
  }

  /** An integer by its bits. */
  lemma {:induction false} IntegerBits(word0: Word, word1: Word, n: nat)
    ensures IsInteger(word0, word1, n) <==> n * Exp2(1074) == Magnitude(Bits(word0, word1))
  {
    var m, e := Significand(word0, word1), Unit(word0);
    WordsAreBits(word0, word1);
    hide Magnitude, Bits, Exp2, Significand, Unit;
    var a := Exp2(Max(-e, 0));
    Exp2Add(Max(-e, 0), 1074 + Min(e, 0));
    Exp2Add(Max(e, 0), 1074);
    MulAssoc(n, a, Exp2(1074 + Min(e, 0)));
    MulAssoc(m, Exp2(Max(e, 0)), Exp2(1074));
    if n * Exp2(1074) == Magnitude(Bits(word0, word1)) {
      if e >= 0 {
        MulEqual(n, m * Exp2(e), Exp2(1074));
      } else {
        MulEqual(n * a, m, Exp2(1074 + e));
      }
    }
  }

  // ---- One text for each double, and the sign ----

  ghost predicate Scales(f: nat, be: int, k: int, n: nat, d: nat) {
    n * Denominator(be, k) == d * Numerator(f, be, k)
  }

  lemma {:induction false} PowersUp(f: nat, be: int, k: int, j: nat)
    ensures Scales(f, be, k + j, Numerator(f, be, k), Pow(10, j) * Denominator(be, k))
  {
    hide Numerator, Denominator, Pow;
    var n, d := Numerator(f, be, k), Denominator(be, k);
    if j == 0 {
      PowZero();
    } else {
      var p := Pow(10, j - 1);
      PowersUp(f, be, k, j - 1);
      TenUp(f, be, k + j - 1);
      PowNext(j - 1);
      MulAssoc(10, p, d);
      TenMore(n, Denominator(be, k + j - 1), p * d, Numerator(f, be, k + j));
    }
  }

  lemma {:induction false} PowZero()
    ensures Pow(10, 0) == 1
  {
  }

  lemma {:induction false} PowNext(j: nat)
    ensures Pow(10, j + 1) == 10 * Pow(10, j)
  {
  }

  lemma {:induction false} TenMore(n: int, d: int, q: int, m: int)
    ensures n * d == q * m ==> n * (10 * d) == (10 * q) * m
    ensures n * d == q * (10 * m) ==> n * d == (10 * q) * m
  {
    TenFirst(n, d);
    MulAssoc(10, q, m);
    TenFirst(q, m);
  }

  /** A number has one decimal exponent. */
  lemma {:induction false} DecadeUnique(f: nat, be: int, k: int, j: nat)
    requires Denominator(be, k) <= Numerator(f, be, k) < 10 * Denominator(be, k)
    requires Denominator(be, k + j) <= Numerator(f, be, k + j)
    ensures j == 0
  {
    if j > 0 {
      PowersUp(f, be, k, j);
      var n, d, d', n' := Numerator(f, be, k), Denominator(be, k), Denominator(be, k + j), Numerator(f, be, k + j);
      assert Pow(10, j) >= 10 by {
        PowMonotone(10, 1, j);
        assert Pow(10, 1) == 10;
      }
      hide Numerator, Denominator, Pow;
      MulMonotone(10, Pow(10, j), d);
      MulMonotone(d', n', n);
      MulStrict(n, Pow(10, j) * d, n');
    }
  }

  lemma {:induction false} RoundedParts(s: seq<Digit>, k: int, k1: int, f: nat, be: int, precision: nat)
    requires RoundedTo(s, k, k1, f, be, precision)
    ensures s != [] && |s| <= precision && s[|s| - 1] != 0
    ensures k1 <= k <= k1 + 1 && (k > k1 ==> |s| == 1 && DecVal(s) == 1)
    ensures Denominator(be, k1) <= Numerator(f, be, k1) < 10 * Denominator(be, k1)
    ensures NearestEven(DecVal(s) * Pow(10, precision - |s| + (k - k1)), Numerator(f, be, k1) * Pow(10, precision - 1),
                        Denominator(be, k1))
  {
    assert DecVal([1]) == 1;
  }

  /** Without trailing zeros, fewer digits cannot have the value of more. */
  lemma {:induction false} NotFewer(s: seq<Digit>, t: seq<Digit>, precision: nat)
    requires s != [] && t != [] && |s| < |t| <= precision && t[|t| - 1] != 0
    ensures DecVal(s) * Pow(10, precision - |s|) != DecVal(t) * Pow(10, precision - |t|)
  {
    if DecVal(s) * Pow(10, precision - |s|) == DecVal(t) * Pow(10, precision - |t|) {
      hide DecVal, Pow;
      CancelTens(DecVal(t), DecVal(s), precision - |t|, precision - |s|);
      LastDigit(t, DecVal(s), |t| - |s|);
    }
  }

  lemma {:induction false} SameDigits(s: seq<Digit>, t: seq<Digit>, precision: nat)
    requires s != [] && t != [] && |s| <= precision && |t| <= precision && s[|s| - 1] != 0 && t[|t| - 1] != 0
    requires DecVal(s) * Pow(10, precision - |s|) == DecVal(t) * Pow(10, precision - |t|)
    ensures s == t
  {
    hide DecVal, Pow;
    if |s| < |t| {
      NotFewer(s, t, precision);
    } else if |t| < |s| {
      NotFewer(t, s, precision);
    } else {
      MulEqual(DecVal(s), DecVal(t), Pow(10, precision - |s|));
      DigitsUnique(s, t);
    }
  }

  /** A digit string never reaches the next power of ten. */
  lemma {:induction false} BelowPower(t: seq<Digit>, precision: nat)
    requires |t| <= precision
    ensures DecVal(t) * Pow(10, precision - |t|) < Pow(10, precision)
  {
    DecValBound(t);
    PowAdd(10, |t|, precision - |t|);
    MulStrict(DecVal(t), Pow(10, |t|), Pow(10, precision - |t|));
  }

  /** The digits of a number rounded to a precision, and their exponent, are determined. */
  lemma {:induction false} RoundedUnique(s: seq<Digit>, k: int, k1: int, t: seq<Digit>, l: int, l1: int,
                                         f: nat, be: int, precision: nat)
    requires RoundedTo(s, k, k1, f, be, precision) && RoundedTo(t, l, l1, f, be, precision)
    ensures s == t && k == l
  {
    hide RoundedTo, Numerator, Denominator, Pow, DecVal, NearestEven;
    RoundedParts(s, k, k1, f, be, precision);
    RoundedParts(t, l, l1, f, be, precision);
    if k1 <= l1 {
      DecadeUnique(f, be, k1, l1 - k1);
    } else {
      DecadeUnique(f, be, l1, k1 - l1);
    }
    NearestEvenUnique(DecVal(s) * Pow(10, precision - |s| + (k - k1)), DecVal(t) * Pow(10, precision - |t| + (l - l1)),
                      Numerator(f, be, k1) * Pow(10, precision - 1), Denominator(be, k1));
    if k > l {
      BelowPower(t, precision);
    } else if k < l {
      BelowPower(s, precision);
    } else if k == k1 {
      SameDigits(s, t, precision);
    } else {
      DigitsUnique(s, t);
    }
  }

  lemma {:induction false} WrittenParts(t: string, word0: Word, word1: Word, precision: nat)
    returns (s: seq<Digit>, k: int, k1: int)
    requires Written(t, word0, word1, precision) && 0 < Bits(word0, word1) < INFINITY
    ensures RoundedTo(s, k, k1, Magnitude(Bits(word0, word1)), SMALLEST, precision) && s != []
    ensures t == GFmt.Text(Negative(word0), s, k + 1, precision)
  {
    s, k, k1 :| RoundedTo(s, k, k1, Magnitude(Bits(word0, word1)), SMALLEST, precision)
                && t == GFmt.Text(Negative(word0), s, k + 1, precision);
  }

  /** Two doubles that differ in the sign bit only, zeros, infinities and non-numbers included. */
  lemma {:induction false} MinusSign(t: string, u: string, word0: Word, word1: Word, precision: nat)
    requires word0 < 0x8000_0000
    requires Written(t, word0, word1, precision) && Written(u, word0 + 0x8000_0000, word1, precision)
    ensures t != [] && t[0] != '-' && u == "-" + t
  {
    SameMagnitude(word0, word1);
    if 0 < Bits(word0, word1) < INFINITY {
      hide Bits, Written, RoundedTo, GFmt.Text, Magnitude;
      var s, k, k1 := WrittenParts(t, word0, word1, precision);
      var r, l, l1 := WrittenParts(u, word0 + 0x8000_0000, word1, precision);
      RoundedUnique(s, k, k1, r, l, l1, Magnitude(Bits(word0, word1)), SMALLEST, precision);
      GFmt.TextForm(false, s, k + 1, precision);
    } else {
      SpecialSign(word0, word1);
    }
  }

  /** The sign bit is no part of the magnitude. */
  lemma {:induction false} SameMagnitude(word0: Word, word1: Word)
    requires word0 < 0x8000_0000
    ensures Bits(word0 + 0x8000_0000, word1) == Bits(word0, word1)
    ensures !Negative(word0) && Negative(word0 + 0x8000_0000)
  {
  }

  lemma {:induction false} SpecialSign(word0: Word, word1: Word)
    requires word0 < 0x8000_0000
    ensures var t := SpecialText(word0, word1);
            t != [] && t[0] != '-' && SpecialText(word0 + 0x8000_0000, word1) == "-" + t
  {
    assert (word0 + 0x8000_0000) / 0x10_0000 == word0 / 0x10_0000 + 0x800;
    assert (word0 + 0x8000_0000) % 0x10_0000 == word0 % 0x10_0000;
  }

  /** The texts of zero, of the infinities and of what is no number, by the bits. */
  lemma {:induction false} Names(t: string, word0: Word, word1: Word, precision: nat)
    requires word0 < 0x8000_0000 && Written(t, word0, word1, precision)
    ensures var n := Bits(word0, word1);
            && (n == 0 ==> t == "0")
            && (n == INFINITY ==> t == "inf")
            && (n > INFINITY ==> t == "nan")
  {
    Fields(word0, word1);
    assert GFmt.SignText(false) == "";
  }

  lemma {:induction false} SameScaled(v: nat, x: int, w: nat, g: int, j: nat)
    requires GFmt.Same(v, x, w, g)
    ensures GFmt.Same(v, x, w * Pow(10, j), g - j)
  {
    if x >= g {
      PowAdd(10, x - g, j);
      MulAssoc(v, Pow(10, x - g), Pow(10, j));
    } else if x >= g - j {
      PowAdd(10, g - x, x - (g - j));
      MulAssoc(w, Pow(10, g - x), Pow(10, x - (g - j)));
    } else {
      PowAdd(10, j, g - j - x);
      MulAssoc(w, Pow(10, j), Pow(10, g - j - x));
    }
  }

  lemma {:induction false} TextReads(neg: bool, s: seq<Digit>, decpt: int, precision: nat)
    requires s != []
    ensures var r := GFmt.ReadNumber(GFmt.Text(neg, s, decpt, precision));
            r.Number? && r.neg == neg && GFmt.Same(r.digits, r.exponent, DecVal(s), decpt - |s|)
  {
    hide GFmt.ReadNumber, GFmt.Text, GFmt.Same, DecVal;
    GFmt.TextDenotes(neg, s, decpt, precision);
  }

  /**
   * Read as a decimal number, the text is n units in the last place of the precision, where n is the integer nearest
   * to the double in these units, ties to even; the unit is 10^(k + 1 - precision) for a double in [10^k, 10^(k + 1)).
   */
  lemma {:induction false} ReadsAsRounded(t: string, word0: Word, word1: Word, precision: nat)
    returns (n: nat, k: int)
    requires Written(t, word0, word1, precision) && 0 < Bits(word0, word1) < INFINITY && precision > 0
    ensures var a, b := Numerator(Magnitude(Bits(word0, word1)), SMALLEST, k), Denominator(SMALLEST, k);
            b <= a < 10 * b && NearestEven(n, a * Pow(10, precision - 1), b)
    ensures var r := GFmt.ReadNumber(t);
            r.Number? && (r.neg <==> word0 >= 0x8000_0000) && GFmt.Same(r.digits, r.exponent, n, k + 1 - precision)
  {
    hide Written, RoundedTo, Pow, DecVal, GFmt.ReadNumber, GFmt.Text, GFmt.Same, Numerator, Denominator, NearestEven,
      Magnitude, Bits;
    var s, e, k1 := WrittenParts(t, word0, word1, precision);
    RoundedParts(s, e, k1, Magnitude(Bits(word0, word1)), SMALLEST, precision);
    k := k1;
    var j := precision - |s| + (e - k1);
    n := DecVal(s) * Pow(10, j);
    TextReads(Negative(word0), s, e + 1, precision);
    var r := GFmt.ReadNumber(t);
    SameScaled(r.digits, r.exponent, DecVal(s), e + 1 - |s|, j);
  }
}
