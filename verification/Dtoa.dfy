/** dtoa on its exact path: from the parts of a double to its decimal digits and exponent. */
module Dtoa {
  import opened Arith
  import opened Words
  import opened Bigints
  import opened BigintDiv
  import opened Decimals
  import opened Doubles
  import opened Workspace
  import opened DtoaScale
  import opened DtoaShortest
  import opened DtoaFixed

  /**
   * d = m * 2^e over 10^k, in quarters of a unit in its last place: the value is UnitB / UnitS, and the numbers
   * that read back as d reach UnitLo / UnitS below it and UnitHi / UnitS above it.
   * That is half a unit, but only a quarter below a power of two (spec).
   */
  function UnitB(m: nat, e: int, k: int): nat {
    4 * Numerator(m, e, k)
  }

  function UnitS(e: int, k: int): nat {
    4 * Denominator(e, k)
  }

  function UnitLo(e: int, k: int, spec: bool): nat {
    (if spec then 1 else 2) * Numerator(1, e, k)
  }

  function UnitHi(e: int, k: int): nat {
    2 * Numerator(1, e, k)
  }

  /** The digits s with exponent k are a shortest decimal that reads back as d, and no other of that length is
      nearer. */
  ghost predicate ShortestFor(s: seq<Digit>, k: int, m: nat, e: int, spec: bool, even: bool) {
    var b, S, lo, hi := UnitB(m, e, k), UnitS(e, k), UnitLo(e, k, spec), UnitHi(e, k);
    && s != [] && s[0] != 0 && s[|s| - 1] != 0
    && (var v, t := DecVal(s), Pow(10, |s| - 1);
        ReadsBack(v, t, b, S, lo, hi, even) && Nearest(v, b * t, S, lo * t, hi * t, even))
    && NoneShorter(|s|, b, S, lo, hi, even)
  }

  /** The digits s with exponent k are d, of decimal exponent k0, rounded to ndigits digits, without trailing zeros. */
  ghost predicate RoundedTo(s: seq<Digit>, k: int, k0: int, f: nat, be: int, ndigits: nat) {
    && s != [] && s[0] != 0 && s[|s| - 1] != 0 && |s| <= ndigits
    && Denominator(be, k0) <= Numerator(f, be, k0) < 10 * Denominator(be, k0)
    && (k == k0 || (k == k0 + 1 && s == [1]))
    && NearestEven(DecVal(s) * Pow(10, ndigits - |s| + (k - k0)),
                   Numerator(f, be, k0) * Pow(10, ndigits - 1), Denominator(be, k0))
  }

  lemma {:induction false} ScaleWithin(v: int, x: int, S: nat, lo: int, hi: int, closed: bool, c: nat)
    requires c > 0
    ensures Within(v, c * x, c * S, c * lo, c * hi, closed) == Within(v, x, S, lo, hi, closed)
  {
    assert v * (c * S) == (v * S) * c by {
      MulAssoc(v, c, S);
      MulAssoc(c, v, S);
    }
    ScaleOrder(x - lo, v * S, c);
    ScaleOrder(v * S, x + hi, c);
    Spread(c, x, lo, hi);
  }

  lemma {:induction false} Spread(c: int, x: int, lo: int, hi: int)
    ensures c * x - c * lo == (x - lo) * c && c * x + c * hi == (x + hi) * c
  {
  }

  lemma {:induction false} ScaleDistance(v: int, w: int, x: int, S: nat, c: nat)
    requires c > 0
    ensures Abs(v * (c * S) - c * x) == c * Abs(v * S - x)
    ensures Abs(v * S - x) <= Abs(w * S - x) <==> Abs(v * (c * S) - c * x) <= Abs(w * (c * S) - c * x)
    ensures Abs(v * S - x) == Abs(w * S - x) <==> Abs(v * (c * S) - c * x) == Abs(w * (c * S) - c * x)
  {
    Distance(v, x, S, c);
    Distance(w, x, S, c);
    ScaleOrder(Abs(v * S - x), Abs(w * S - x), c);
    ScaleOrder(Abs(w * S - x), Abs(v * S - x), c);
  }

  lemma {:induction false} Distance(v: int, x: int, S: nat, c: nat)
    ensures Abs(v * (c * S) - c * x) == c * Abs(v * S - x)
  {
    MulAssoc(v, c, S);
    MulAssoc(c, v, S);
    var y := v * S - x;
    assert v * (c * S) - c * x == c * y;
    if y < 0 {
      MulNonnegative(c, -y);
    } else {
      MulNonnegative(c, y);
    }
  }

  lemma {:induction false} ScaleNearest(v: int, x: int, S: nat, lo: int, hi: int, closed: bool, c: nat)
    requires c > 0
    ensures Nearest(v, c * x, c * S, c * lo, c * hi, closed) == Nearest(v, x, S, lo, hi, closed)
  {
    hide Within, Abs;
    forall w
      ensures Within(w, c * x, c * S, c * lo, c * hi, closed) == Within(w, x, S, lo, hi, closed)
      ensures Within(w, c * x, c * S, c * lo, c * hi, false) == Within(w, x, S, lo, hi, false)
      ensures Abs(v * S - x) <= Abs(w * S - x) <==> Abs(v * (c * S) - c * x) <= Abs(w * (c * S) - c * x)
      ensures Abs(v * S - x) == Abs(w * S - x) <==> Abs(v * (c * S) - c * x) == Abs(w * (c * S) - c * x)
    {
      ScaleWithin(w, x, S, lo, hi, closed, c);
      ScaleWithin(w, x, S, lo, hi, false, c);
      ScaleDistance(v, w, x, S, c);
    }
  }

  lemma {:induction false} ScaleReadsBack(v: nat, t: nat, b: nat, S: nat, lo: nat, hi: nat, even: bool, c: nat)
    requires c > 0
    ensures ReadsBack(v, t, c * b, c * S, c * lo, c * hi, even) == ReadsBack(v, t, b, S, lo, hi, even)
  {
    MulAssoc(c, b, t);
    MulAssoc(c, lo, t);
    MulAssoc(c, hi, t);
    ScaleWithin(v, b * t, S, lo * t, hi * t, even, c);
  }

  lemma {:induction false} ScaleNoneShorter(n: nat, b: nat, S: nat, lo: nat, hi: nat, even: bool, c: nat)
    requires c > 0
    ensures NoneShorter(n, c * b, c * S, c * lo, c * hi, even) == NoneShorter(n, b, S, lo, hi, even)
  {
    hide ReadsBack, Pow;
    forall q: nat, x: nat, t: nat
      ensures Decimal(q, x, t, c * b, c * S, c * lo, c * hi, even) == Decimal(q, x, t, b, S, lo, hi, even)
    {
      ScaleReadsBack(q * Pow(10, x), Pow(10, t), b, S, lo, hi, even, c);
    }
  }

  /** The scaled start and the fraction of the parts of d are the same up to a factor. */
  lemma {:induction false} SameUnits(m: nat, e: int, k: int, spec: bool, b: nat, S: nat, lo: nat, hi: nat)
    requires m > 0 && Scaled(m, e, k, b, S) && Halves(m, 1, spec, b, lo, hi)
    ensures var c := UnitS(e, k);
            && c > 0 && c * b == S * UnitB(m, e, k) && c * S == S * UnitS(e, k)
            && c * lo == S * UnitLo(e, k, spec) && c * hi == S * UnitHi(e, k)
  {
    var x, d := Numerator(1, e, k), Denominator(e, k);
    assert Exp2(1) == 2 && Numerator(m, e, k) == m * x;
    hide Numerator, Denominator, Exp2;
    Cross(x, d, m, b, S, hi);
    assert d * (2 * lo) == 2 * (d * lo) && d * (2 * hi) == 2 * (d * hi);
  }

  lemma {:induction false} Cross(x: int, d: int, m: int, b: int, S: int, hi: int)
    requires m > 0 && b * d == S * (m * x) && b == m * 2 * hi
    ensures 4 * d * b == S * (4 * (m * x)) && 4 * d * hi == S * (2 * x)
  {
    assert (2 * hi * d) * m == (S * x) * m by {
      MulAssoc(m, 2 * hi, d);
      MulAssoc(S, m, x);
      MulAssoc(m, S, x);
      assert m * 2 * hi == m * (2 * hi);
    }
    MulEqual(2 * hi * d, S * x, m);
  }

  /** What holds of the scaled start holds of d itself. */
  lemma {:induction false} OfTheDouble(s: seq<Digit>, k: int, m: nat, e: int, spec: bool, even: bool,
                                       b: nat, S: nat, lo: nat, hi: nat)
    requires m > 0 && Scaled(m, e, k, b, S) && Halves(m, 1, spec, b, lo, hi)
    requires s != [] && s[0] != 0 && s[|s| - 1] != 0
    requires ReadsBack(DecVal(s), Pow(10, |s| - 1), b, S, lo, hi, even)
    requires var t := Pow(10, |s| - 1); Nearest(DecVal(s), b * t, S, lo * t, hi * t, even)
    requires NoneShorter(|s|, b, S, lo, hi, even)
    ensures ShortestFor(s, k, m, e, spec, even)
  {
    SameUnits(m, e, k, spec, b, S, lo, hi);
    var v, t, c := DecVal(s), Pow(10, |s| - 1), UnitS(e, k);
    var ub, us, ul, uh := UnitB(m, e, k), UnitS(e, k), UnitLo(e, k, spec), UnitHi(e, k);
    hide ReadsBack, Nearest, NoneShorter, UnitB, UnitS, UnitLo, UnitHi, DecVal, Pow;
    ScaleReadsBack(v, t, b, S, lo, hi, even, c);
    ScaleReadsBack(v, t, ub, us, ul, uh, even, S);
    ScaleNoneShorter(|s|, b, S, lo, hi, even, c);
    ScaleNoneShorter(|s|, ub, us, ul, uh, even, S);
    ScaleNearest(v, b * t, S, lo * t, hi * t, even, c);
    ScaleNearest(v, ub * t, us, ul * t, uh * t, even, S);
    Factors(c, b, t, S, ub);
    Factors(c, lo, t, S, ul);
    Factors(c, hi, t, S, uh);
  }

  lemma {:induction false} Factors(c: int, b: int, t: int, S: int, u: int)
    requires c * b == S * u
    ensures c * (b * t) == S * (u * t)
  {
    MulAssoc(c, b, t);
    MulAssoc(S, u, t);
  }

  /** The passed-over case needs 10 * S to be an odd multiple, between 11 and 19, of half a unit. */
  lemma {:induction false} NoDoubleRoundsNinePast(f: nat, i: nat, spec: bool, b: nat, S: nat, lo: nat, hi: nat,
      even: bool)
    requires i > 0 && Halves(f, i, spec, b, lo, hi) && Smooth(S) && Smooth(hi)
    ensures !RoundsNinePast(b, S, lo, hi, even)
  {
    if RoundsNinePast(b, S, lo, hi, even) {
      var m := f * Exp2(i);
      MulAssoc(f, 2, Exp2(i - 1));
      MulAssoc(2, f, Exp2(i - 1));
      assert m == 2 * (f * Exp2(i - 1));
      OddFactor(m, hi, S);
      SmoothTwice(S);
      SmoothFiveTimes(2 * S);
    }
  }

  lemma {:induction false} OddFactor(m: nat, hi: nat, S: nat)
    requires m % 2 == 0 && m * hi + hi == 10 * S && 0 < hi <= S <= 2 * hi
    ensures !Smooth(10 * S)
  {
    FactorRange(m, hi, S);
    if m == 10 {
      DivModUnique(10 * S, 11, hi, 0);
    } else if m == 12 {
      DivModUnique(10 * S, 13, hi, 0);
    } else if m == 14 {
      DivModUnique(10 * S, 3, 5 * hi, 0);
    } else if m == 16 {
      DivModUnique(10 * S, 17, hi, 0);
    } else {
      DivModUnique(10 * S, 19, hi, 0);
    }
  }

  lemma {:induction false} FactorRange(m: nat, hi: nat, S: nat)
    requires m * hi + hi == 10 * S && 0 < hi <= S <= 2 * hi
    ensures 9 <= m <= 19
  {
    if m > 19 {
      MulMonotone(20, m, hi);
    } else if m < 9 {
      MulMonotone(m, 8, hi);
    }
  }

  lemma {:induction false} TenAsOne(b: nat, S: nat, lo: nat, hi: nat, even: bool)
    requires 0 < b < 10 * S && ReadsBack(10, 1, b, S, lo, hi, even) && Nearest(10, b, S, lo, hi, even)
    ensures ReadsBack(1, 1, b, 10 * S, lo, hi, even) && Nearest(1, b, 10 * S, lo, hi, even)
  {
    forall w | Within(w, b, 10 * S, lo, hi, even)
      ensures Abs(1 * (10 * S) - b) <= Abs(w * (10 * S) - b)
      ensures w != 1 && Abs(1 * (10 * S) - b) == Abs(w * (10 * S) - b) && Within(w, b, 10 * S, lo, hi, false) ==> false
    {
      MulAssoc(w, 10, S);
      assert Within(10 * w, b, S, lo, hi, even);
      OtherTens(w, b, S, lo, hi, even);
    }
  }

  lemma {:induction false} OtherTens(w: int, b: nat, S: nat, lo: nat, hi: nat, even: bool)
    requires 0 < b < 10 * S && Within(10, b, S, lo, hi, even) && Nearest(10, b, S, lo, hi, even)
    ensures w != 1 && Abs(10 * S - b) == Abs(10 * w * S - b) ==> !Within(10 * w, b, S, lo, hi, false)
  {
    if w >= 2 {
      MulMonotone(20, 10 * w, S);
    } else if w < 0 {
      MulMonotone(10 * w, -10, S);
    }
    if w == 0 && 10 * S - b == b && Within(0, b, S, lo, hi, false) {
      assert Within(5, b, S, lo, hi, even);
    }
  }

  lemma {:induction false} ScaledUp(f: nat, be: int, k: int, b: nat, S: nat)
    requires Scaled(f, be, k, b, S)
    ensures Scaled(f, be, k + 1, b, 10 * S)
  {
    hide Numerator, Denominator;
    TenUp(f, be, k);
    TenFirst(b, Denominator(be, k));
    TenFirst(S, Numerator(f, be, k + 1));
  }

  // ---- From the words of d ----

  /** d2b leaves out z trailing zero bits of the significand m: the same number, over 10^k the same fraction. */
  lemma {:induction false} SameRatio(f: nat, be: int, m: nat, e: int, k: int)
    requires be >= e && f * Exp2(be - e) == m
    ensures Numerator(f, be, k) * Denominator(e, k) == Denominator(be, k) * Numerator(m, e, k)
  {
    var z, u, v := be - e, Max(-k, 0), Max(k, 0);
    NumeratorIs(f, be, k);
    NumeratorIs(m, e, k);
    hide Numerator, Denominator, FivesTwos, Exp2;
    var n, d := FivesTwos(u, Max(be, 0) + u), FivesTwos(v, Max(-be, 0) + v);
    var n', d' := FivesTwos(u, Max(e, 0) + u), FivesTwos(v, Max(-e, 0) + v);
    FivesTwosAdd(u, Max(be, 0) + u, v, Max(-e, 0) + v);
    FivesTwosAdd(v, Max(-be, 0) + v, u, Max(e, 0) + u);
    FivesTwosAdd(0, z, u + v, Max(-be, 0) + v + Max(e, 0) + u);
    Twos(z);
    assert n * d' == FivesTwos(0, z) * (d * n');
    Interchange(f, Exp2(z), n, d', d, n');
  }

  lemma {:induction false} Twos(z: nat)
    ensures FivesTwos(0, z) == Exp2(z)
  {
    assert Pow(5, 0) == 1;
  }

  lemma {:induction false} Interchange(f: int, z: int, n: int, d': int, d: int, n': int)
    requires n * d' == z * (d * n')
    ensures (f * n) * d' == d * ((f * z) * n')
  {
    MulAssoc(f, n, d');
    MulAssoc(f, z, d * n');
    MulAssoc(f * z, d, n');
    MulAssoc(d, f * z, n');
  }

  /** What the estimate of k promises of d it promises of the number d2b makes. */
  lemma {:induction false} SameEstimate(f: nat, be: int, m: nat, e: int, k: int)
    requires be >= e && f * Exp2(be - e) == m
    ensures Numerator(m, e, k) < 10 * Denominator(e, k) ==> Numerator(f, be, k) < 10 * Denominator(be, k)
    ensures Denominator(e, k) <= Numerator(m, e, k) ==> Denominator(be, k) <= Numerator(f, be, k)
    ensures Denominator(e, k) <= 10 * Numerator(m, e, k) ==> Denominator(be, k) <= 10 * Numerator(f, be, k)
  {
    SameRatio(f, be, m, e, k);
    hide Numerator, Denominator;
    ScaledCompare(Numerator(f, be, k), Denominator(e, k), Denominator(be, k), Numerator(m, e, k));
  }

  lemma {:induction false} SameScaled(f: nat, be: int, m: nat, e: int, k: int, b: nat, S: nat)
    requires be >= e && f * Exp2(be - e) == m && Scaled(f, be, k, b, S)
    ensures Scaled(m, e, k, b, S)
  {
    SameRatio(f, be, m, e, k);
    hide Numerator, Denominator;
    Transfer(Numerator(f, be, k), Denominator(be, k), Numerator(m, e, k), Denominator(e, k), b, S);
  }

  lemma {:induction false} Transfer(n: nat, d: nat, n': nat, d': nat, b: nat, S: nat)
    requires d > 0 && n * d' == d * n' && b * d == S * n
    ensures b * d' == S * n'
  {
    calc {
      (b * d') * d;
    == { MulAssoc(b, d, d'); MulAssoc(b, d', d); }
      (b * d) * d';
    == { MulAssoc(S, n, d'); }
      S * (d * n');
    == { MulAssoc(S, n', d); }
      (S * n') * d;
    }
    MulEqual(b * d', S * n', d);
  }

  lemma {:induction false} SameHalves(f: nat, z: nat, m: nat, spec: bool, b: nat, lo: nat, hi: nat)
    requires f * Exp2(z) == m && Halves(f, z + 1, spec, b, lo, hi)
    ensures Halves(m, 1, spec, b, lo, hi)
  {
    Exp2Add(z, 1);
    MulAssoc(f, Exp2(z), 2);
  }

  /** k0 is the decimal exponent of d, or one more when kCheck asks for a test. */
  ghost predicate Estimate(word0: Word, word1: Word, k0: int, kCheck: bool) {
    var m, e := Significand(word0, word1), Unit(word0);
    && Denominator(e, k0) <= 10 * Numerator(m, e, k0) && Numerator(m, e, k0) < 10 * Denominator(e, k0)
    && (!kCheck ==> Denominator(e, k0) <= Numerator(m, e, k0))
  }

  /** The exponent of d in base two, for a d of the given bits, and the j of d == b * 2^-j. */
  method BinaryExponent(word0: Word, be: int, bbits: int) returns (j: int)
    requires Biased(word0) > 0 ==> bbits + (be - Unit(word0)) == P
    ensures j == -be
  {
    var i := Biased(word0);
    if i > 0 {
      i := i - BIAS;
    } else {
      i := bbits + be + (BIAS + (P - 1) - 1);
      i := i - (BIAS + (P - 1) - 1) - 1;
    }
    j := bbits - i - 1;
  }

  /** Gives all four numbers back, where mlo and mhi may be one block. */
  method ReleaseAll(pool: Pool, b: Bigint, S: Bigint, mlo: Bigint, mhi: Bigint, ghost base: set<Bigint>)
    requires Working(pool, base, {S, mlo, mhi} + {b}) && b !in {S, mlo, mhi} && S !in {mlo, mhi}
    modifies Space(pool, {S, mlo, mhi} + {b})
    ensures Working(pool, base, {}) && pool.powers == old(pool.powers)
    ensures forall o | o in Space(pool, {}) :: o in old(Space(pool, {S, mlo, mhi} + {b})) || fresh(o)
  {
    hide Working, Space, Num;
    assert {S, mlo, mhi} + {b} == {b, mlo, mhi} + {S};
    Release(pool, S, base, {b, mlo, mhi});
    if mlo != mhi {
      assert {b, mlo, mhi} == {b, mhi} + {mlo};
      Release(pool, mlo, base, {b, mhi});
    }
    assert {b, mhi} == {b} + {mhi};
    assert mlo == mhi ==> {b, mlo, mhi} == {b, mhi};
    Release(pool, mhi, base, {b});
    assert {b} == {} + {b};
    Release(pool, b, base, {});
  }

  /** Mode 0: the shortest decimal that reads back as d. Nothing it allocates stays behind but cached powers. */
  method ShortestDigits(pool: Pool, word0: Word, word1: Word, k0: int, kCheck: bool, ghost base: set<Bigint>)
    returns (s: seq<Digit>, k: int)
    requires Working(pool, base, {}) && Finite(word0) && Significand(word0, word1) > 0
    requires Estimate(word0, word1, k0, kCheck)
    modifies Space(pool, {})
    ensures Working(pool, base, {}) && old(pool.powers) <= pool.powers
    ensures forall o | o in Space(pool, {}) :: o in old(Space(pool, {})) || fresh(o)
    ensures ShortestFor(s, k, Significand(word0, word1), Unit(word0), Boundary(word0, word1), word1 % 2 == 0)
  {
    hide Working, Space, Num, FourZeroTop, Significand;
    hide Scaled, Halves, Smooth, Denominator, Numerator, Exp2, IsShortest, RoundsNinePast, ShortestFor;
    ghost var m, e := Significand(word0, word1), Unit(word0);
    var b, be, bbits := D2b(pool, word0, word1, base);
    ghost var f := Num(b);
    SameEstimate(f, be, m, e, k0);
    var j := BinaryExponent(word0, be, bbits);
    var i := if Biased(word0) > 0 then 1 + P - bbits else be + (BIAS + (P - 1) - 1 + 1);
    var spec, even := Boundary(word0, word1), word1 % 2 == 0;
    var S, mlo, mhi, k1;
    b, S, mlo, mhi, k1 := ScaleInterval(pool, b, j, k0, kCheck, i, spec, base, f);
    ghost var v, w, lo, hi := Num(b), Num(S), Num(mlo), Num(mhi);
    SameScaled(f, be, m, e, k1, v, w);
    SameHalves(f, be - e, m, spec, v, lo, hi);
    HalvesMeans(m, spec, v, lo, hi);
    b, mlo, mhi, s, k := Shortest(pool, b, S, mlo, mhi, even, k1, base, v, w, lo, hi);
    NoDoubleRoundsNinePast(m, 1, spec, v, w, lo, hi, even);
    FromScaled(s, k, m, e, spec, even, v, w, lo, hi, k1);
    ReleaseAll(pool, b, S, mlo, mhi, base);
  }

  lemma {:induction false} HalvesMeans(m: nat, spec: bool, b: nat, lo: nat, hi: nat)
    requires Halves(m, 1, spec, b, lo, hi)
    ensures 0 < lo <= hi
  {
  }

  lemma {:induction false} FromScaled(s: seq<Digit>, k: int, m: nat, e: int, spec: bool, even: bool,
                                      b: nat, S: nat, lo: nat, hi: nat, k0: int)
    requires m > 0 && 0 < S <= b < 10 * S && Scaled(m, e, k0, b, S) && Halves(m, 1, spec, b, lo, hi)
    requires IsShortest(s, k, b, S, lo, hi, even, k0) && !RoundsNinePast(b, S, lo, hi, even)
    ensures ShortestFor(s, k, m, e, spec, even)
  {
    hide Scaled, Halves, ShortestFor, ReadsBack, Nearest, NoneShorter;
    if k == k0 {
      OfTheDouble(s, k, m, e, spec, even, b, S, lo, hi);
    } else {
      assert s == [1] && DecVal(s) == 1 && Pow(10, 0) == 1;
      TenAsOne(b, S, lo, hi, even);
      ScaledUp(m, e, k0, b, S);
      NoneOfNoDigits(b, 10 * S, lo, hi, even);
      OfTheDouble(s, k, m, e, spec, even, b, 10 * S, lo, hi);
    }
  }

  lemma {:induction false} NoneOfNoDigits(b: nat, S: nat, lo: nat, hi: nat, even: bool)
    ensures NoneShorter(1, b, S, lo, hi, even)
  {
    assert Pow(10, 0) == 1;
  }

  /** Mode 2: d rounded to ndigits digits. Nothing it allocates stays behind but cached powers. */
  method FixedDigits(pool: Pool, word0: Word, word1: Word, k0: int, kCheck: bool, ndigits: int, ghost base: set<Bigint>)
    returns (s: seq<Digit>, k: int, ghost k1: int)
    requires Working(pool, base, {}) && Finite(word0) && Significand(word0, word1) > 0
    requires Estimate(word0, word1, k0, kCheck)
    modifies Space(pool, {})
    ensures Working(pool, base, {}) && old(pool.powers) <= pool.powers
    ensures forall o | o in Space(pool, {}) :: o in old(Space(pool, {})) || fresh(o)
    ensures RoundedTo(s, k, k1, Significand(word0, word1), Unit(word0), if ndigits <= 0 then 1 else ndigits)
    ensures k0 - 1 <= k1 <= k0
  {
    hide Working, Space, Num, FourZeroTop, Significand, Scaled, Denominator, Numerator, Exp2, IsFixed, RoundedTo;
    ghost var m, e := Significand(word0, word1), Unit(word0);
    var ilim := if ndigits <= 0 then 1 else ndigits;
    var b, be, bbits := D2b(pool, word0, word1, base);
    ghost var f := Num(b);
    SameEstimate(f, be, m, e, k0);
    var j := BinaryExponent(word0, be, bbits);
    var S, k2;
    b, S, k2 := ScaleValue(pool, b, j, k0, kCheck, base, f);
    ghost var v, w := Num(b), Num(S);
    SameScaled(f, be, m, e, k2, v, w);
    b, s, k := Fixed(pool, b, S, ilim, k2, base, v, w);
    k1 := k2;
    FromFixed(s, k, m, e, v, w, k2, ilim);
    assert {S} + {b} == {b} + {S};
    Release(pool, S, base, {b});
    assert {b} == {} + {b};
    Release(pool, b, base, {});
  }

  lemma {:induction false} FromFixed(s: seq<Digit>, k: int, f: nat, be: int, b: nat, S: nat, k0: int, ilim: nat)
    requires Scaled(f, be, k0, b, S) && S <= b < 10 * S && ilim > 0 && IsFixed(s, k, b, S, ilim, k0)
    ensures RoundedTo(s, k, k0, f, be, ilim)
  {
    var n, d, t := Numerator(f, be, k0), Denominator(be, k0), Pow(10, ilim - 1);
    var v := DecVal(s) * Pow(10, ilim - |s| + (k - k0));
    hide Numerator, Denominator, DecVal, Pow, NearestEven;
    ScaleNearestEven(v, b * t, S, d);
    ScaleNearestEven(v, n * t, d, S);
    Factors(d, b, t, S, n);
    SameRange(b, d, S, n);
  }

  lemma {:induction false} SameRange(b: nat, d: nat, S: nat, n: nat)
    requires S > 0 && d > 0 && b * d == S * n && S <= b < 10 * S
    ensures d <= n < 10 * d
  {
    MulMonotone(S, b, d);
    MulCancel(b, 10 * S, 1);
    MulStrict(b, 10 * S, d);
    MulAssoc(10, S, d);
    TenFirst(S, d);
    if n < d {
      MulStrict(n, d, S);
    }
    if n >= 10 * d {
      MulMonotone(10 * d, n, S);
    }
  }

  lemma {:induction false} ScaleNearestEven(v: int, x: int, S: nat, c: nat)
    requires c > 0
    ensures NearestEven(v, c * x, c * S) == NearestEven(v, x, S)
  {
    var y := Abs(v * S - x);
    Distance(v, x, S, c);
    MulAssoc(c, 2, y);
    assert 2 * (c * y) == c * (2 * y);
    ScaleOrder(2 * y, S, c);
    ScaleOrder(S, 2 * y, c);
  }

  /** Rounding depends on the number only, and not on how it is split into m and e. */
  lemma {:induction false} SameRounding(s: seq<Digit>, k: int, k0: int, m: nat, e: int, n: nat, e': int, ndigits: nat)
    requires RoundedTo(s, k, k0, m, e, ndigits)
    requires Numerator(m, e, k0) * Denominator(e', k0) == Denominator(e, k0) * Numerator(n, e', k0)
    ensures RoundedTo(s, k, k0, n, e', ndigits)
  {
    var N, D, N', D' := Numerator(m, e, k0), Denominator(e, k0), Numerator(n, e', k0), Denominator(e', k0);
    var v, t := DecVal(s) * Pow(10, ndigits - |s| + (k - k0)), Pow(10, ndigits - 1);
    hide Numerator, Denominator, DecVal, Pow, NearestEven;
    ScaleNearestEven(v, N * t, D, D');
    ScaleNearestEven(v, N' * t, D', D);
    Factors(D', N, t, D, N');
    SameRange(N, D', D, N');
  }

  /** Ten is above eight. */
  lemma {:induction false} TenAbove(n: nat)
    ensures Exp2(3 * n) <= Pow(10, n)
  {
    if n == 0 {
    } else {
      TenAbove(n - 1);
      assert Exp2(3) == 8;
      Exp2Add(3, 3 * (n - 1));
    }
  }

  lemma {:induction false} NotTooLarge(m: nat, e: int, k: nat)
    requires m < Exp2(P) && e <= 971 && Denominator(e, k) <= 10 * Numerator(m, e, k)
    ensures k <= 343
  {
    assert Pow(10, 0) == 1 && Exp2(4) == 16;
    TenAbove(k);
    hide Exp2, Pow;
    Exp2Monotone(Max(e, 0), 971);
    Below(Exp2(Max(-e, 0)), Pow(10, k), m, Exp2(Max(e, 0)), Exp2(P), Exp2(971));
    Exp2Add(4, P);
    Exp2Add(4 + P, 971);
    if 3 * k >= 1028 {
      Exp2Monotone(1028, 3 * k);
    }
  }

  lemma {:induction false} NotTooSmall(m: nat, e: int, k: int)
    requires m > 0 && e >= -1074 && k < 0 && Numerator(m, e, k) < 10 * Denominator(e, k)
    ensures -360 <= k
  {
    assert Pow(10, 0) == 1 && Exp2(4) == 16;
    TenAbove(-k);
    hide Exp2, Pow;
    Exp2Monotone(Max(-e, 0), 1074);
    Above(m, Exp2(Max(e, 0)), Pow(10, -k), Exp2(Max(-e, 0)), Exp2(1074));
    Exp2Add(4, 1074);
    if 3 * -k >= 1078 {
      Exp2Monotone(1078, 3 * -k);
    }
  }

  /** The decimal exponent of a double has three digits at most. */
  lemma {:induction false} EstimateRange(word0: Word, word1: Word, k0: int, kCheck: bool)
    requires Finite(word0) && Significand(word0, word1) > 0 && Estimate(word0, word1, k0, kCheck)
    ensures -360 <= k0 <= 343
  {
    SignificandBound(word0, word1);
    hide Significand, Exp2, Pow, Numerator, Denominator;
    if k0 >= 0 {
      NotTooLarge(Significand(word0, word1), Unit(word0), k0);
    } else {
      NotTooSmall(Significand(word0, word1), Unit(word0), k0);
    }
  }

  lemma {:induction false} SignificandBound(word0: Word, word1: Word)
    ensures Significand(word0, word1) < Exp2(P)
  {
    if Biased(word0) > 0 {
      NormalBits(word0, word1);
    } else {
      assert TopBits(word0) < 0x10_0000;
      SmallShifts();
      hide Exp2;
      Exp2Add(16, 4);
      Exp2Add(20, 32);
      Exp2Add(52, 1);
    }
  }

  lemma {:induction false} Below(x: nat, p: nat, m: nat, y: nat, a: nat, b: nat)
    requires x > 0 && y > 0 && x * p <= 10 * (m * (y * 1)) && m < a && y <= b
    ensures p < 16 * a * b
  {
    MulMonotone(1, x, p);
    MulStrict(m, a, y);
    MulMonotone(y, b, a);
    assert p <= 10 * (a * y) <= 10 * (a * b);
    assert 16 * a * b == 16 * (a * b);
    MulPositive(a, b);
  }

  lemma {:induction false} Above(m: nat, y: nat, p: nat, x: nat, b: nat)
    requires m > 0 && y > 0 && m * (y * p) < 10 * (x * 1) && x <= b
    ensures p < 16 * b
  {
    MulMonotone(1, y, p);
    MulMonotone(1, m, y * p);
  }
}
