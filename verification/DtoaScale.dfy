/** How dtoa turns a double f * 2^be and an estimate k of its decimal exponent into a quotient b / S. */
module DtoaScale {
  import opened Arith
  import opened Words
  import opened Bigints
  import opened BigintDiv
  import opened Workspace

  /** d / 10^k as a fraction, where d = f * 2^be. */
  function Numerator(f: nat, be: int, k: int): nat {
    f * (Exp2(Max(be, 0)) * Pow(10, Max(-k, 0)))
  }

  function Denominator(be: int, k: int): (n: nat)
    ensures n > 0
  {
    MulPositive(Exp2(Max(-be, 0)), Pow(10, Max(k, 0)));
    Exp2(Max(-be, 0)) * Pow(10, Max(k, 0))
  }

  /** 5^m * 2^n. */
  function FivesTwos(m: nat, n: nat): (p: nat)
    ensures p > 0
  {
    MulPositive(Pow(5, m), Exp2(n));
    Pow(5, m) * Exp2(n)
  }

  lemma {:induction false} FivesTwosAdd(m: nat, n: nat, m': nat, n': nat)
    ensures FivesTwos(m, n) * FivesTwos(m', n') == FivesTwos(m + m', n + n')
  {
    PowAdd(5, m, m');
    Exp2Add(n, n');
    Regroup(Pow(5, m), Exp2(n), Pow(5, m'), Exp2(n'));
  }

  lemma {:induction false} Regroup(a: int, b: int, c: int, d: int)
    ensures (a * b) * (c * d) == (a * c) * (b * d)
  {
    MulAssoc(a, b, c * d);
    MulAssoc(b, c, d);
    MulAssoc(c, b, d);
    MulAssoc(a, c, b * d);
  }

  lemma {:induction false} TenIs(n: nat)
    ensures Pow(10, n) == FivesTwos(n, n)
  {
    PowProduct(5, 2, n);
    Exp2IsPow(n);
  }

  lemma {:induction false} NumeratorIs(f: nat, be: int, k: int)
    ensures Numerator(f, be, k) == f * FivesTwos(Max(-k, 0), Max(be, 0) + Max(-k, 0))
    ensures Denominator(be, k) == FivesTwos(Max(k, 0), Max(-be, 0) + Max(k, 0))
  {
    TenIs(Max(-k, 0));
    TenIs(Max(k, 0));
    FivesTwosAdd(0, Max(be, 0), Max(-k, 0), Max(-k, 0));
    FivesTwosAdd(0, Max(-be, 0), Max(k, 0), Max(k, 0));
    assert Pow(5, 0) == 1;
  }

  /** b / S equals d / 10^k. */
  ghost predicate Scaled(f: nat, be: int, k: int, b: nat, S: nat) {
    S > 0 && b * Denominator(be, k) == S * Numerator(f, be, k)
  }

  lemma {:induction false} ScaledByExponents(f: nat, be: int, k: int, b2: nat, b5: nat, s2: nat, s5: nat)
    requires b2 - s2 == be - k && b5 == Max(-k, 0) && s5 == Max(k, 0)
    ensures Scaled(f, be, k, f * FivesTwos(b5, b2), FivesTwos(s5, s2))
  {
    hide FivesTwos, Numerator, Denominator;
    NumeratorIs(f, be, k);
    var n, d := FivesTwos(Max(-k, 0), Max(be, 0) + Max(-k, 0)), FivesTwos(Max(k, 0), Max(-be, 0) + Max(k, 0));
    FivesTwosAdd(b5, b2, Max(k, 0), Max(-be, 0) + Max(k, 0));
    FivesTwosAdd(s5, s2, Max(-k, 0), Max(be, 0) + Max(-k, 0));
    var x, y := FivesTwos(b5, b2), FivesTwos(s5, s2);
    assert x * d == y * n;
    Shuffle(f, x, d, y, n);
  }

  lemma {:induction false} Shuffle(f: int, x: int, d: int, y: int, n: int)
    requires x * d == y * n
    ensures (f * x) * d == y * (f * n)
  {
    MulAssoc(f, x, d);
    MulAssoc(y, f, n);
    MulAssoc(f, y, n);
  }

  /** One more in k is a factor of ten below or none above. */
  lemma {:induction false} TenUp(f: nat, be: int, k: int)
    ensures k >= 0 ==>
      Denominator(be, k + 1) == 10 * Denominator(be, k) && Numerator(f, be, k + 1) == Numerator(f, be, k)
    ensures k < 0 ==>
      Denominator(be, k + 1) == Denominator(be, k) && Numerator(f, be, k) == 10 * Numerator(f, be, k + 1)
  {
    if k >= 0 {
      TenFirst(Exp2(Max(-be, 0)), Pow(10, k));
    } else {
      var tw, p := Exp2(Max(be, 0)), Pow(10, -k - 1);
      TenFirst(tw, p);
      TenFirst(f, tw * p);
    }
  }

  lemma {:induction false} ScaledDown(f: nat, be: int, k: int, b: nat, S: nat)
    requires Scaled(f, be, k, b, S)
    ensures Scaled(f, be, k - 1, 10 * b, S)
  {
    TenUp(f, be, k - 1);
    hide Numerator, Denominator;
    TenFirst(b, Denominator(be, k - 1));
    TenFirst(S, Numerator(f, be, k));
  }

  /** Comparing N with c * D is comparing b with c * S. */
  lemma {:induction false} ScaledCompare(b: nat, d: nat, S: nat, n: nat)
    requires S > 0 && d > 0 && b * d == S * n
    ensures n < 10 * d ==> b < 10 * S
    ensures d <= n ==> S <= b
    ensures d <= 10 * n ==> S <= 10 * b
  {
    if n < 10 * d {
      MulStrict(n, 10 * d, S);
      MulAssoc(S, 10, d);
      MulCancel(b, 10 * S, d);
    }
    if d <= n && b < S {
      MulStrict(b, S, d);
      MulMonotone(d, n, S);
    }
    if d <= 10 * n && 10 * b < S {
      MulStrict(10 * b, S, d);
      MulMonotone(d, 10 * n, S);
      MulAssoc(10, b, d);
      MulAssoc(10, S, n);
    }
  }

  /** None of 3, 11, 13, 17 and 19 divides n. */
  predicate Smooth(n: nat) {
    n % 3 != 0 && n % 11 != 0 && n % 13 != 0 && n % 17 != 0 && n % 19 != 0
  }

  /** A factor c with an inverse modulo p leaves n without the factor p. */
  lemma {:induction false} StaysFree(p: nat, c: nat, inv: nat, t: nat, n: nat)
    requires p > 1 && c * inv == t * p + 1 && n % p != 0
    ensures (c * n) % p != 0
  {
    if (c * n) % p == 0 {
      var m := (c * n) / p;
      assert inv * (m * p) == n + p * (t * n) by {
        assert m * p == c * n;
        MulAssoc(inv, c, n);
        MulAssoc(t, p, n);
        MulAssoc(p, t, n);
      }
      MulAssoc(inv, m, p);
      assert n == (inv * m - t * n) * p;
      DivModUnique(n, p, inv * m - t * n, 0);
    }
  }

  lemma {:induction false} SmoothTwice(n: nat)
    requires Smooth(n)
    ensures Smooth(2 * n)
  {
    StaysFree(3, 2, 2, 1, n);
    StaysFree(11, 2, 6, 1, n);
    StaysFree(13, 2, 7, 1, n);
    StaysFree(17, 2, 9, 1, n);
    StaysFree(19, 2, 10, 1, n);
  }

  lemma {:induction false} SmoothFiveTimes(n: nat)
    requires Smooth(n)
    ensures Smooth(5 * n)
  {
    StaysFree(3, 5, 2, 3, n);
    StaysFree(11, 5, 9, 4, n);
    StaysFree(13, 5, 8, 3, n);
    StaysFree(17, 5, 7, 2, n);
    StaysFree(19, 5, 4, 1, n);
  }

  lemma {:induction false} SmoothTwos(p: nat, n: nat)
    requires Smooth(p)
    ensures Smooth(p * Exp2(n))
    decreases n
  {
    hide Smooth;
    if n > 0 {
      SmoothTwice(p);
      SmoothTwos(2 * p, n - 1);
      MulAssoc(p, 2, Exp2(n - 1));
      MulAssoc(2, p, Exp2(n - 1));
    } else {
      assert p * Exp2(n) == p;
    }
  }

  lemma {:induction false} SmoothFives(m: nat)
    ensures Smooth(Pow(5, m))
  {
    if m == 0 {
    } else {
      hide Smooth;
      SmoothFives(m - 1);
      SmoothFiveTimes(Pow(5, m - 1));
    }
  }

  lemma {:induction false} SmoothFivesTwos(m: nat, n: nat)
    ensures Smooth(FivesTwos(m, n))
  {
    SmoothFives(m);
    SmoothTwos(Pow(5, m), n);
  }

  /** The interval of decimals that read back as d: half a unit up, and half or a quarter down. */
  ghost predicate Halves(f: nat, i: nat, spec: bool, b: nat, mlo: nat, mhi: nat) {
    mlo > 0 && mhi == (if spec then 2 * mlo else mlo) && b == f * Exp2(i) * mhi
  }

  lemma {:induction false} ByDefinition(m: nat, n: nat)
    ensures FivesTwos(m, n) == Pow(5, m) * Exp2(n)
  {
  }

  lemma {:induction false} HalfUnit(f: nat, i: nat, spec: bool, b5: nat, m2: nat, b2: nat, ten: nat,
                                    b: nat, mlo: nat, mhi: nat)
    requires b2 == m2 + i + (if spec then 1 else 0) && (ten == 1 || ten == 10)
    requires b == ten * (f * FivesTwos(b5, b2))
    requires mlo == (ten * Pow(5, b5)) * Exp2(m2) && mhi == if spec then mlo * 2 else mlo
    ensures Halves(f, i, spec, b, mlo, mhi) && Smooth(mhi)
  {
    hide Smooth;
    var s := if spec then 1 else 0;
    assert Exp2(1) == 2 && Exp2(0) == 1 && Pow(5, 0) == 1;
    ByDefinition(b5, m2);
    ByDefinition(0, s);
    ByDefinition(0, i);
    MulAssoc(ten, Pow(5, b5), Exp2(m2));
    FivesTwosAdd(b5, m2, 0, s);
    FivesTwosAdd(b5, m2 + s, 0, i);
    hide FivesTwos, Exp2;
    var h, l := FivesTwos(b5, m2 + s), FivesTwos(b5, m2);
    MulAssoc(ten, l, 2);
    Reorder(ten, f, h, Exp2(i));
    MulPositive(ten, l);
    SmoothFivesTwos(b5, m2 + s);
    if ten == 10 {
      SmoothTwice(h);
      SmoothFiveTimes(2 * h);
    }
  }

  lemma {:induction false} Reorder(t: int, f: int, h: int, e: int)
    ensures t * (f * (h * e)) == f * e * (t * h)
  {
    MulAssoc(f, e, t * h);
    MulAssoc(e, t, h);
    MulAssoc(t, e, h);
    MulAssoc(f, t, e * h);
    MulAssoc(t, f, e * h);
  }

  // ---- Computing it ----

  /** The powers of two and five on either side of b / S, for d = f * 2^-j and 10^k. */
  method Exponents(j: int, k: int) returns (b2: nat, b5: nat, s2: nat, s5: nat)
    ensures b2 - s2 == -j - k && b5 == Max(-k, 0) && s5 == Max(k, 0) && (b5 > 0 ==> b2 >= b5)
  {
    if j >= 0 {
      b2, s2 := 0, j;
    } else {
      b2, s2 := -j, 0;
    }
    if k >= 0 {
      b5, s5 := 0, k;
      s2 := s2 + k;
    } else {
      b2 := b2 - k;
      b5, s5 := -k, 0;
    }
  }

  /** Cancels twos that b, S and half a unit have in common. */
  method Cancel(b0: nat, m0: nat, s0: nat) returns (b2: nat, m2: nat, s2: nat)
    requires m0 <= b0
    ensures b2 - s2 == b0 - s0 && b2 - m2 == b0 - m0
  {
    b2, m2, s2 := b0, m0, s0;
    if m2 > 0 && s2 > 0 {
      var i := if m2 < s2 then m2 else s2;
      b2, m2, s2 := b2 - i, m2 - i, s2 - i;
    }
  }

  /** A new number, 5^s5. */
  method PowerOfFive(pool: Pool, s5: nat, ghost base: set<Bigint>, ghost rest: set<Bigint>) returns (S: Bigint)
    requires Working(pool, base, rest)
    modifies Space(pool, rest)
    ensures Working(pool, base, rest + {S}) && S !in rest && old(pool.powers) <= pool.powers
    ensures forall o | o in Space(pool, rest + {S}) :: o in old(Space(pool, rest)) || fresh(o)
    ensures Num(S) == Pow(5, s5) && forall c | c in rest :: Num(c) == old(Num(c))
  {
    hide Working, Space, Num;
    S := NewNumber(pool, 1, base, rest);
    if s5 > 0 {
      S := TimesFives(pool, S, s5, base, rest);
    }
  }

  /** Shifts b and S by b2 and s2, and so much more that the top word of S gets four leading zero bits. */
  method Align(pool: Pool, b0: Bigint, S0: Bigint, b2: nat, s2: nat, ghost base: set<Bigint>, ghost rest: set<Bigint>)
    returns (b: Bigint, S: Bigint, i: nat)
    requires Working(pool, base, rest + {b0} + {S0}) && b0 !in rest && S0 !in rest + {b0} && Num(b0) > 0 && Num(S0) > 0
    modifies Space(pool, rest + {b0} + {S0})
    ensures Working(pool, base, rest + {b} + {S}) && b !in rest && S !in rest + {b} && pool.powers == old(pool.powers)
    ensures forall o | o in Space(pool, rest + {b} + {S}) :: o in old(Space(pool, rest + {b0} + {S0})) || fresh(o)
    ensures Num(b) == old(Num(b0)) * Exp2(b2 + i) && Num(S) == old(Num(S0)) * Exp2(s2 + i)
    ensures FourZeroTop(Num(S)) && forall c | c in rest :: Num(c) == old(Num(c))
  {
    hide Working, Space, Num, FourZeroTop;
    ghost var w := Num(S0);
    i := ShiftFor(pool, S0, s2, base, rest + {b0} + {S0});
    assert Exp2(0) == 1;
    hide Exp2;
    b, S := b0, S0;
    assert rest + {b0} + {S0} == rest + {S0} + {b0};
    if b2 + i > 0 {
      b := ShiftLeft(pool, b, b2 + i, base, rest + {S});
    }
    assert rest + {S0} + {b} == rest + {b} + {S0};
    if s2 + i > 0 {
      S := ShiftLeft(pool, S, s2 + i, base, rest + {b});
    }
  }

  /** The estimate of k was one too large when b / S comes out below 1. */
  method FixEstimate(pool: Pool, b0: Bigint, S: Bigint, k0: int, kCheck: bool,
                     ghost base: set<Bigint>, ghost rest: set<Bigint>, ghost f: nat, ghost be: int)
    returns (b: Bigint, k: int)
    requires Working(pool, base, rest + {b0}) && b0 !in rest && S in rest && Scaled(f, be, k0, Num(b0), Num(S))
    requires Denominator(be, k0) <= 10 * Numerator(f, be, k0) && Numerator(f, be, k0) < 10 * Denominator(be, k0)
    requires !kCheck ==> Denominator(be, k0) <= Numerator(f, be, k0)
    modifies Space(pool, rest + {b0})
    ensures Working(pool, base, rest + {b}) && b !in rest && pool.powers == old(pool.powers)
    ensures forall o | o in Space(pool, rest + {b}) :: o in old(Space(pool, rest + {b0})) || fresh(o)
    ensures forall c | c in rest :: Num(c) == old(Num(c))
    ensures Scaled(f, be, k, Num(b), Num(S)) && Num(S) <= Num(b) < 10 * Num(S)
    ensures if k == k0 then Num(b) == old(Num(b0)) else k == k0 - 1 && Num(b) == 10 * old(Num(b0)) && kCheck
  {
    hide Working, Space, Num, Numerator, Denominator;
    b, k := b0, k0;
    ScaledCompare(Num(b), Denominator(be, k), Num(S), Numerator(f, be, k));
    if kCheck {
      var j := Compare(pool, b, S, base, rest + {b});
      if j < 0 {
        ScaledDown(f, be, k, Num(b), Num(S));
        k := k - 1;
        b := TimesTen(pool, b, base, rest);
      }
    }
  }

  lemma {:induction false} ShiftedPowers(v: nat, f: nat, b5: nat, b2: nat)
    requires v == f * Pow(5, b5) || v == Pow(5, b5) * f
    ensures v * Exp2(b2) == f * FivesTwos(b5, b2)
    ensures Pow(5, b5) * Exp2(b2) == FivesTwos(b5, b2)
  {
    MulAssoc(f, Pow(5, b5), Exp2(b2));
  }

  method WithFives(pool: Pool, b0: Bigint, b5: nat, ghost base: set<Bigint>) returns (b: Bigint)
    requires Working(pool, base, {b0})
    modifies Space(pool, {b0})
    ensures Working(pool, base, {b}) && old(pool.powers) <= pool.powers
    ensures forall o | o in Space(pool, {b}) :: o in old(Space(pool, {b0})) || fresh(o)
    ensures Num(b) == old(Num(b0)) * Pow(5, b5)
  {
    assert Pow(5, 0) == 1;
    hide Working, Space, Num, Pow;
    b := b0;
    if b5 > 0 {
      assert {b0} == {} + {b0};
      b := TimesFives(pool, b, b5, base, {});
      assert {} + {b} == {b};
    }
  }

  /** The exact start of dtoa without the ends of the interval: b / S == d / 10^k with one digit before the point. */
  method ScaleValue(pool: Pool, b0: Bigint, j: int, k0: int, kCheck: bool, ghost base: set<Bigint>, ghost f: nat)
    returns (b: Bigint, S: Bigint, k: int)
    requires Working(pool, base, {b0}) && Num(b0) == f > 0
    requires Denominator(-j, k0) <= 10 * Numerator(f, -j, k0) && Numerator(f, -j, k0) < 10 * Denominator(-j, k0)
    requires !kCheck ==> Denominator(-j, k0) <= Numerator(f, -j, k0)
    modifies Space(pool, {b0})
    ensures Working(pool, base, {S} + {b}) && b != S && old(pool.powers) <= pool.powers
    ensures forall o | o in Space(pool, {S} + {b}) :: o in old(Space(pool, {b0})) || fresh(o)
    ensures Scaled(f, -j, k, Num(b), Num(S)) && Num(S) <= Num(b) < 10 * Num(S) && FourZeroTop(Num(S))
    ensures k == k0 || (k == k0 - 1 && kCheck)
  {
    hide Working, Space, Num, FourZeroTop, Scaled, FivesTwos, Numerator, Denominator, Exp2, Pow;
    var b2, b5, s2, s5 := Exponents(j, k0);
    var m2;
    b2, m2, s2 := Cancel(b2, b2, s2);
    b := WithFives(pool, b0, b5, base);
    S := PowerOfFive(pool, s5, base, {b});
    assert {b} + {S} == {} + {b} + {S};
    var i;
    ghost var v := Num(b);
    b, S, i := Align(pool, b, S, b2, s2, base, {});
    assert {} + {b} + {S} == {S} + {b};
    ShiftedPowers(v, f, b5, b2 + i);
    ShiftedPowers(Pow(5, s5), 1, s5, s2 + i);
    ScaledByExponents(f, -j, k0, b2 + i, b5, s2 + i, s5);
    b, k := FixEstimate(pool, b, S, k0, kCheck, base, {S}, f, -j);
  }

  /** Starts mhi as 5^b5 and multiplies b by it. */
  method StartInterval(pool: Pool, b0: Bigint, b5: nat, ghost base: set<Bigint>) returns (b: Bigint, mhi: Bigint)
    requires Working(pool, base, {b0})
    modifies Space(pool, {b0})
    ensures Working(pool, base, {mhi} + {b}) && b != mhi && old(pool.powers) <= pool.powers
    ensures forall o | o in Space(pool, {mhi} + {b}) :: o in old(Space(pool, {b0})) || fresh(o)
    ensures Num(mhi) == Pow(5, b5) && Num(b) == Pow(5, b5) * old(Num(b0))
  {
    assert Pow(5, 0) == 1;
    hide Working, Space, Num, Pow;
    b := b0;
    mhi := PowerOfFive(pool, b5, base, {b});
    assert {b} + {mhi} == {mhi} + {b};
    if b5 > 0 {
      b := TimesNumber(pool, mhi, b, base, {mhi});
    }
  }

  /** Shifts mhi and lets mlo be the same block; above a power of two mhi becomes a new one with twice the value. */
  method EndsOfInterval(pool: Pool, mhi0: Bigint, m2: nat, spec: bool, ghost base: set<Bigint>, ghost rest: set<Bigint>)
    returns (mlo: Bigint, mhi: Bigint)
    requires Working(pool, base, rest + {mhi0}) && mhi0 !in rest && Num(mhi0) > 0
    modifies Space(pool, rest + {mhi0})
    ensures Working(pool, base, rest + {mlo, mhi}) && rest !! {mlo, mhi} && pool.powers == old(pool.powers)
    ensures forall o | o in Space(pool, rest + {mlo, mhi}) :: o in old(Space(pool, rest + {mhi0})) || fresh(o)
    ensures Num(mlo) == old(Num(mhi0)) * Exp2(m2) && Num(mhi) == if spec then 2 * Num(mlo) else Num(mlo)
    ensures forall c | c in rest :: Num(c) == old(Num(c))
  {
    assert Exp2(0) == 1;
    hide Working, Space, Num, Exp2;
    mhi := mhi0;
    if m2 > 0 {
      mhi := ShiftLeft(pool, mhi, m2, base, rest);
    }
    mlo := mhi;
    assert rest + {mhi} == rest + {mlo, mhi};
    if spec {
      MulPositive(old(Num(mhi0)), Exp2(m2));
      mhi := Twice(pool, mlo, base, rest);
    }
  }

  /** A new block with twice the value of mlo. */
  method Twice(pool: Pool, mlo: Bigint, ghost base: set<Bigint>, ghost rest: set<Bigint>) returns (mhi: Bigint)
    requires Working(pool, base, rest + {mlo}) && mlo !in rest && Num(mlo) > 0
    modifies Space(pool, rest + {mlo})
    ensures Working(pool, base, rest + {mlo, mhi}) && rest !! {mlo, mhi} && pool.powers == old(pool.powers)
    ensures forall o | o in Space(pool, rest + {mlo, mhi}) :: o in old(Space(pool, rest + {mlo})) || fresh(o)
    ensures Num(mlo) == old(Num(mlo)) && Num(mhi) == 2 * Num(mlo) && forall c | c in rest :: Num(c) == old(Num(c))
  {
    assert Exp2(1) == 2;
    hide Working, Space, Num, Exp2;
    mhi := Copy(pool, mlo, base, rest + {mlo});
    mhi := ShiftLeft(pool, mhi, 1, base, rest + {mlo});
    assert rest + {mlo} + {mhi} == rest + {mlo, mhi};
  }

  /** The same correction with mhi, which follows b. */
  method FixBoth(pool: Pool, b0: Bigint, S: Bigint, mhi0: Bigint, k0: int, kCheck: bool,
                 ghost base: set<Bigint>, ghost f: nat, ghost be: int)
    returns (b: Bigint, mhi: Bigint, k: int)
    requires Working(pool, base, {S, mhi0} + {b0}) && b0 !in {S, mhi0} && S != mhi0
    requires Scaled(f, be, k0, Num(b0), Num(S))
    requires Denominator(be, k0) <= 10 * Numerator(f, be, k0) && Numerator(f, be, k0) < 10 * Denominator(be, k0)
    requires !kCheck ==> Denominator(be, k0) <= Numerator(f, be, k0)
    modifies Space(pool, {S, mhi0} + {b0})
    ensures Working(pool, base, {S, b} + {mhi}) && mhi !in {S, b} && S != b && pool.powers == old(pool.powers)
    ensures forall o | o in Space(pool, {S, b} + {mhi}) :: o in old(Space(pool, {S, mhi0} + {b0})) || fresh(o)
    ensures Num(S) == old(Num(S)) && Scaled(f, be, k, Num(b), Num(S)) && Num(S) <= Num(b) < 10 * Num(S)
    ensures k == k0 || (k == k0 - 1 && kCheck)
    ensures var ten := if k < k0 then 10 else 1; Num(b) == ten * old(Num(b0)) && Num(mhi) == ten * old(Num(mhi0))
  {
    hide Working, Space, Num, Numerator, Denominator, Scaled;
    b, k := FixEstimate(pool, b0, S, k0, kCheck, base, {S, mhi0}, f, be);
    mhi := mhi0;
    assert {S, mhi} + {b} == {S, b} + {mhi};
    if k < k0 {
      mhi := TimesTen(pool, mhi, base, {S, b});
    }
  }

  /**
   * The exact start of dtoa: b / S == d / 10^k with one digit before the point, and the interval around it.
   * i is the distance from the lowest bit of f to half a unit in the last place of d,
   * and spec says that d is a normalized power of 2.
   */
  method ScaleInterval(pool: Pool, b0: Bigint, j: int, k0: int, kCheck: bool, i: nat, spec: bool,
                       ghost base: set<Bigint>, ghost f: nat)
    returns (b: Bigint, S: Bigint, mlo: Bigint, mhi: Bigint, k: int)
    requires Working(pool, base, {b0}) && Num(b0) == f > 0
    requires Denominator(-j, k0) <= 10 * Numerator(f, -j, k0) && Numerator(f, -j, k0) < 10 * Denominator(-j, k0)
    requires !kCheck ==> Denominator(-j, k0) <= Numerator(f, -j, k0)
    modifies Space(pool, {b0})
    ensures Working(pool, base, {S, mlo, mhi} + {b}) && b !in {S, mlo, mhi} && S !in {mlo, mhi}
    ensures old(pool.powers) <= pool.powers
    ensures forall o | o in Space(pool, {S, mlo, mhi} + {b}) :: o in old(Space(pool, {b0})) || fresh(o)
    ensures Scaled(f, -j, k, Num(b), Num(S)) && Num(S) <= Num(b) < 10 * Num(S) && FourZeroTop(Num(S))
    ensures k == k0 || (k == k0 - 1 && kCheck)
    ensures Halves(f, i, spec, Num(b), Num(mlo), Num(mhi)) && Smooth(Num(S)) && Smooth(Num(mhi))
  {
    hide Working, Space, Num, FourZeroTop, Scaled, FivesTwos, Numerator, Denominator, Exp2, Pow, Smooth, Halves;
    var b2, b5, s2, s5 := Exponents(j, k0);
    var m2;
    b2, m2, s2 := Cancel(b2 + i, b2, s2 + i);
    b, mhi := StartInterval(pool, b0, b5, base);
    S := PowerOfFive(pool, s5, base, {mhi} + {b});
    if spec {
      b2, s2 := b2 + 1, s2 + 1;
    }
    MulPositive(Pow(5, b5), f);
    var r;
    b, S, r := Align(pool, b, S, b2, s2, base, {mhi});
    assert {mhi} + {b} + {S} == {S, mhi} + {b};
    b2, m2, s2 := b2 + r, m2 + r, s2 + r;
    ShiftedPowers(Pow(5, b5) * f, f, b5, b2);
    ShiftedPowers(Pow(5, s5), 1, s5, s2);
    ScaledByExponents(f, -j, k0, b2, b5, s2, s5);
    b, mhi, k := FixBoth(pool, b, S, mhi, k0, kCheck, base, f, -j);
    ghost var ten := if k < k0 then 10 else 1;
    MulPositive(ten, Pow(5, b5));
    mlo, mhi := EndsOfInterval(pool, mhi, m2, spec, base, {S, b});
    assert {S, b} + {mlo, mhi} == {S, mlo, mhi} + {b};
    HalfUnit(f, i, spec, b5, m2, b2, ten, Num(b), Num(mlo), Num(mhi));
    SmoothFivesTwos(s5, s2);
  }
}
