/** The digit loop of dtoa that stops at the shortest decimal which reads back as d. */
module DtoaShortest {
  import opened Arith
  import opened Words
  import opened Bigints
  import opened BigintMult
  import opened BigintDiv
  import opened Workspace
  import opened Decimals

  function Abs(x: int): nat {
    if x < 0 then -x else x
  }

  /** v * S lies between x - lo and x + hi; the ends count when closed. */
  predicate Within(v: int, x: int, S: nat, lo: int, hi: int, closed: bool) {
    if closed then x - lo <= v * S <= x + hi else x - lo < v * S < x + hi
  }

  /** v is as near to x / S as any integer within, and even when another integer well within is as near. */
  ghost predicate Nearest(v: int, x: int, S: nat, lo: int, hi: int, closed: bool) {
    forall w {:trigger Within(w, x, S, lo, hi, closed)} | Within(w, x, S, lo, hi, closed) ::
      Abs(v * S - x) <= Abs(w * S - x)
      && (w != v && Abs(v * S - x) == Abs(w * S - x) && Within(w, x, S, lo, hi, false) ==> v % 2 == 0)
  }

  /** The digit dig may end the string: it is close enough, and the next one is outside or not nearer. */
  ghost predicate KeepOk(dig: nat, r: nat, S: nat, mlo: nat, mhi: nat, even: bool) {
    && (r < mlo || (even && r == mlo))
    && (r == 0 || r + mhi < S || (!even && r + mhi == S) || (r + mhi == S && 2 * r <= S) || 2 * r < S
        || (2 * r == S && dig % 2 == 0))
  }

  /** The digit after dig may end the string. */
  ghost predicate RaiseOk(dig: nat, r: nat, S: nat, mlo: nat, mhi: nat, even: bool) {
    || (r + mhi > S && (r > mlo || (!even && r == mlo) || 2 * r > S || (2 * r == S && dig % 2 == 1)))
    || (even && r + mhi == S && r > mlo)
  }

  lemma {:induction false} LastDigitDecides(n: nat, dig: nat, r: nat, S: nat, mlo: nat, mhi: nat, even: bool)
    ensures KeepOk(10 * n + dig, r, S, mlo, mhi, even) == KeepOk(dig, r, S, mlo, mhi, even)
    ensures RaiseOk(10 * n + dig, r, S, mlo, mhi, even) == RaiseOk(dig, r, S, mlo, mhi, even)
  {
    assert (10 * n + dig) % 2 == dig % 2;
  }

  ghost predicate MoreOk(r: nat, S: nat, mlo: nat, mhi: nat, even: bool) {
    if even then mlo < r && r + mhi < S else mlo <= r && r + mhi <= S
  }

  lemma {:induction false} Offset(q: nat, r: nat, x: int, S: nat, w: int)
    requires Divides(x, q, r, S)
    ensures w * S - x == (w - q) * S - r
    ensures w == q ==> x - w * S == r
    ensures w == q + 1 ==> w * S - x == S - r
    ensures w > q + 1 ==> w * S - x >= 2 * S - r
    ensures w < q ==> w * S - x <= -(S as int) - r
  {
    var d := w - q;
    if d > 1 {
      MulMonotone(2, d, S);
    } else if d < 0 {
      MulMonotone(d, -1, S);
    }
  }

  lemma {:induction false} RoundDown(q: nat, r: nat, x: int, S: nat, lo: nat, hi: nat, closed: bool)
    requires Divides(x, q, r, S) && hi > 0 && KeepOk(q, r, S, lo, hi, closed)
    ensures Within(q, x, S, lo, hi, closed) && Nearest(q, x, S, lo, hi, closed)
  {
    Offset(q, r, x, S, q);
    forall w | Within(w, x, S, lo, hi, closed)
      ensures Abs(q * S - x) <= Abs(w * S - x)
      ensures w != q && Abs(q * S - x) == Abs(w * S - x) && Within(w, x, S, lo, hi, false) ==> q % 2 == 0
    {
      Offset(q, r, x, S, w);
    }
  }

  lemma {:induction false} RoundUp(q: nat, r: nat, x: int, S: nat, lo: nat, hi: nat, closed: bool)
    requires Divides(x, q, r, S) && lo > 0 && RaiseOk(q, r, S, lo, hi, closed)
    ensures Within(q + 1, x, S, lo, hi, closed) && Nearest(q + 1, x, S, lo, hi, closed)
  {
    Offset(q, r, x, S, q + 1);
    forall w | Within(w, x, S, lo, hi, closed)
      ensures Abs((q + 1) * S - x) <= Abs(w * S - x)
      ensures w != q + 1 && Abs((q + 1) * S - x) == Abs(w * S - x) && Within(w, x, S, lo, hi, false)
              ==> (q + 1) % 2 == 0
    {
      Offset(q, r, x, S, w);
    }
  }

  /** The decimal v / t reads back as d: it lies between b - mlo and b + mhi over S. */
  predicate ReadsBack(v: nat, t: nat, b: nat, S: nat, mlo: nat, mhi: nat, even: bool) {
    Within(v, b * t, S, mlo * t, mhi * t, even)
  }

  /** The same for the decimal q * 10^x / 10^t. */
  predicate Decimal(q: nat, x: nat, t: nat, b: nat, S: nat, mlo: nat, mhi: nat, even: bool) {
    ReadsBack(q * Pow(10, x), Pow(10, t), b, S, mlo, mhi, even)
  }

  /** No decimal of fewer than n digits, of whatever exponent, reads back as d. */
  ghost predicate NoneShorter(n: nat, b: nat, S: nat, mlo: nat, mhi: nat, even: bool) {
    forall q, x, t | n > 0 && 0 < q < Pow(10, n - 1) :: !Decimal(q, x, t, b, S, mlo, mhi, even)
  }

  /** The prefix of n digits with value v is too far below d, and the next one too far above. */
  ghost predicate Between(n: nat, v: nat, b: nat, S: nat, mlo: nat, mhi: nat, even: bool) {
    var t := Pow(10, n);
    if even then 10 * (v * S) < b * t - mlo * t && b * t + mhi * t < 10 * ((v + 1) * S)
    else 10 * (v * S) <= b * t - mlo * t && b * t + mhi * t <= 10 * ((v + 1) * S)
  }

  lemma {:induction false} Rescale(v: nat, t: nat, c: nat, b: nat, S: nat, mlo: nat, mhi: nat, even: bool)
    requires c > 0
    ensures ReadsBack(v * c, t * c, b, S, mlo, mhi, even) == ReadsBack(v, t, b, S, mlo, mhi, even)
  {
    MulAssoc(b, t, c);
    MulAssoc(mlo, t, c);
    MulAssoc(mhi, t, c);
    MulAssoc(S, v, c);
    var l, m, h := b * t - mlo * t, v * S, b * t + mhi * t;
    assert (v * c) * S == m * c;
    ScaleOrder(l, m, c);
    ScaleOrder(m, h, c);
    assert b * (t * c) - mlo * (t * c) == l * c && b * (t * c) + mhi * (t * c) == h * c;
  }

  lemma {:induction false} ScaleOrder(a: int, b: int, c: int)
    requires c > 0
    ensures (a <= b <==> a * c <= b * c) && (a < b <==> a * c < b * c)
  {
    if a < b {
      MulStrict(a, b, c);
    } else if b < a {
      MulStrict(b, a, c);
    }
  }

  /** A coarser decimal lies on the grid of the prefix, so it is at most the prefix or at least the next one. */
  lemma {:induction false} OffGrid(n: nat, v: nat, w: nat, b: nat, S: nat, mlo: nat, mhi: nat, even: bool)
    requires n > 0 && Between(n, v, b, S, mlo, mhi, even)
    ensures !ReadsBack(w, Pow(10, n - 1), b, S, mlo, mhi, even)
  {
    Rescale(w, Pow(10, n - 1), 10, b, S, mlo, mhi, even);
    MulAssoc(10, w, S);
    if w <= v {
      MulMonotone(w, v, S);
    } else {
      MulMonotone(v + 1, w, S);
    }
  }

  lemma {:induction false} BelowLow(w: nat, t: nat, p: nat, S: nat, l: int)
    requires w < t && p > 0 && S > 0 && p * S <= l
    ensures (w * p) * S < l * t
  {
    MulMonotone(p * S, l, t);
    MulAssoc(w, p, S);
    MulPositive(p, S);
    MulStrict(w, t, p * S);
  }

  lemma {:induction false} LowEnd(b: int, m: int, t: int, p: int)
    ensures b * (t * p) - m * (t * p) == (b * p - m * p) * t
  {
    MulAssoc(b, p, t);
    MulAssoc(m, p, t);
  }

  /** A decimal smaller than 10^k is below the prefix. */
  lemma {:induction false} TooSmall(n: nat, v: nat, w: nat, t: nat, b: nat, S: nat, mlo: nat, mhi: nat, even: bool)
    requires n > 0 && Between(n, v, b, S, mlo, mhi, even) && Pow(10, n - 1) <= v && w < t && S > 0
    ensures !ReadsBack(w, t, b, S, mlo, mhi, even)
  {
    var p := Pow(10, n);
    Rescale(w, t, p, b, S, mlo, mhi, even);
    var l := b * p - mlo * p;
    MulMonotone(p, 10 * v, S);
    MulAssoc(10, v, S);
    BelowLow(w, t, p, S, l);
    LowEnd(b, mlo, t, p);
  }

  lemma {:induction false} BetweenMeansNoneShorter(n: nat, v: nat, b: nat, S: nat, mlo: nat, mhi: nat, even: bool)
    requires n > 0 && S > 0 && Between(n, v, b, S, mlo, mhi, even) && Pow(10, n - 1) <= v
    ensures NoneShorter(n + 1, b, S, mlo, mhi, even)
  {
    hide Between, ReadsBack, Pow;
    forall q: nat, x: nat, t: nat | 0 < q < Pow(10, n)
      ensures !Decimal(q, x, t, b, S, mlo, mhi, even)
    {
      var w := q * Pow(10, x);
      if t <= x + n - 1 {
        OnGrid(q, x, t, n - 1, b, S, mlo, mhi, even);
        var c := Pow(10, x + n - 1 - t);
        OffGrid(n, v, q * c, b, S, mlo, mhi, even);
      } else {
        PowAdd(10, n, x);
        PowMonotone(10, n + x, t);
        MulStrict(q, Pow(10, n), Pow(10, x));
        TooSmall(n, v, w, Pow(10, t), b, S, mlo, mhi, even);
      }
    }
  }

  /** q * 10^x / 10^t written over 10^m. */
  lemma {:induction false} OnGrid(q: nat, x: nat, t: nat, m: nat, b: nat, S: nat, mlo: nat, mhi: nat, even: bool)
    requires t <= x + m
    ensures ReadsBack(q * Pow(10, x), Pow(10, t), b, S, mlo, mhi, even)
         == ReadsBack(q * Pow(10, x + m - t), Pow(10, m), b, S, mlo, mhi, even)
  {
    hide ReadsBack;
    var u := Pow(10, x + m - t);
    Rescale(q * Pow(10, x), Pow(10, t), Pow(10, m), b, S, mlo, mhi, even);
    Rescale(q * u, Pow(10, m), Pow(10, t), b, S, mlo, mhi, even);
    PowAdd(10, x, m);
    PowAdd(10, x + m - t, t);
    MulAssoc(q, Pow(10, x), Pow(10, m));
    MulAssoc(q, u, Pow(10, t));
  }

  /** The one case in which a nearer one-digit decimal is passed over; no double reaches it. */
  predicate RoundsNinePast(b: nat, S: nat, mlo: nat, mhi: nat, even: bool) {
    even && b + mhi == 10 * S && 9 * S <= b <= 9 * S + mlo
  }

  /** What the shortest loop promises of its digits s and exponent k. */
  ghost predicate IsShortest(s: seq<Digit>, k: int, b: nat, S: nat, mlo: nat, mhi: nat, even: bool, k0: int) {
    && s != [] && s[0] != 0 && s[|s| - 1] != 0
    && (k == k0 || (k == k0 + 1 && s == [1]))
    && (var v, t := if k == k0 then DecVal(s) else 10, Pow(10, |s| - 1);
        && ReadsBack(v, t, b, S, mlo, mhi, even)
        && (RoundsNinePast(b, S, mlo, mhi, even) || Nearest(v, b * t, S, mlo * t, mhi * t, even)))
    && NoneShorter(|s|, b, S, mlo, mhi, even)
  }

  ghost function Raised(b: nat, s: seq<Digit>): nat {
    b * Pow(10, |s|)
  }

  /** The state before a digit is drawn: the digits so far are exact, and no prefix would have done. */
  ghost predicate Drawing(s: seq<Digit>, b: nat, mlo: nat, mhi: nat, b0: nat, S: nat, mlo0: nat, mhi0: nat,
      even: bool) {
    var t, v := Pow(10, |s|), DecVal(s);
    && b0 * t == 10 * (v * S) + b && b < 10 * S && mlo == mlo0 * t && mhi == mhi0 * t && 0 < mlo <= mhi
    && (s == [] ==> S <= b)
    && (s != [] ==> s[0] != 0 && Pow(10, |s| - 1) <= v
                    && if even then mlo < b && b + mhi < 10 * S else mlo <= b && b + mhi <= 10 * S)
  }

  lemma {:induction false} DrawingNoneShorter(s: seq<Digit>, b: nat, mlo: nat, mhi: nat,
                                              b0: nat, S: nat, mlo0: nat, mhi0: nat, even: bool)
    requires S > 0 && Drawing(s, b, mlo, mhi, b0, S, mlo0, mhi0, even)
    ensures NoneShorter(|s| + 1, b0, S, mlo0, mhi0, even)
  {
    if s != [] {
      var v := DecVal(s);
      assert (v + 1) * S == v * S + S;
      assert Between(|s|, v, b0, S, mlo0, mhi0, even);
      BetweenMeansNoneShorter(|s|, v, b0, S, mlo0, mhi0, even);
    } else {
      assert Pow(10, 0) == 1;
    }
  }

  /** Drawing the digit q leaves the remainder r over the digits s + [q]. */
  lemma {:induction false} Drawn(s: seq<Digit>, q: nat, r: nat, b: nat, mlo: nat, mhi: nat,
                                 b0: nat, S: nat, mlo0: nat, mhi0: nat, even: bool)
    requires S > 0 && Drawing(s, b, mlo, mhi, b0, S, mlo0, mhi0, even) && Divides(b, q, r, S)
    ensures r < S && q <= 9 && (s == [] ==> q > 0)
    ensures Divides(Raised(b0, s), 10 * DecVal(s) + q, r, S)
    ensures r < mlo || (even && r == mlo) ==> q != 0
  {
    MulAssoc(10, DecVal(s), S);
    if q > 9 {
      MulMonotone(10, q, S);
    }
    assert (10 * DecVal(s) + q) * S == 10 * DecVal(s) * S + q * S;
  }

  lemma {:induction false} StepOn(s: seq<Digit>, q: Digit, r: nat, b: nat, mlo: nat, mhi: nat,
                                  b0: nat, S: nat, mlo0: nat, mhi0: nat, even: bool)
    requires S > 0 && Drawing(s, b, mlo, mhi, b0, S, mlo0, mhi0, even) && Divides(b, q, r, S)
    requires MoreOk(r, S, mlo, mhi, even)
    ensures Drawing(s + [q], 10 * r, 10 * mlo, 10 * mhi, b0, S, mlo0, mhi0, even) && mlo <= r
  {
    Drawn(s, q, r, b, mlo, mhi, b0, S, mlo0, mhi0, even);
    var t := Pow(10, |s|);
    DecValPush(s, q);
    assert Pow(10, |s| + 1) == 10 * t;
    TenFirst(b0, t);
    TenFirst(mlo0, t);
    TenFirst(mhi0, t);
    if s == [] {
      assert DecVal(s) == 0 && t == 1;
    } else {
      assert t == 10 * Pow(10, |s| - 1);
    }
  }

  lemma {:induction false} Done(s: seq<Digit>, d: Digit, b: nat, mlo: nat, mhi: nat,
                                b0: nat, S: nat, mlo0: nat, mhi0: nat, even: bool, k: int)
    requires S > 0 && Drawing(s, b, mlo, mhi, b0, S, mlo0, mhi0, even) && d != 0
    requires var x, v := Raised(b0, s), 10 * DecVal(s) + d;
             Within(v, x, S, mlo, mhi, even) && Nearest(v, x, S, mlo, mhi, even)
    ensures IsShortest(s + [d], k, b0, S, mlo0, mhi0, even, k)
  {
    DrawingNoneShorter(s, b, mlo, mhi, b0, S, mlo0, mhi0, even);
    DecValPush(s, d);
  }

  /** Keeping or raising the digit q ends the string. */
  lemma {:induction false} Stop(s: seq<Digit>, q: Digit, up: bool, r: nat, b: nat, mlo: nat, mhi: nat,
                                b0: nat, S: nat, mlo0: nat, mhi0: nat, even: bool, k: int)
    requires S > 0 && Drawing(s, b, mlo, mhi, b0, S, mlo0, mhi0, even) && Divides(b, q, r, S)
    requires if up then q < 9 && RaiseOk(q, r, S, mlo, mhi, even) else KeepOk(q, r, S, mlo, mhi, even)
    ensures IsShortest(s + [if up then q + 1 else q], k, b0, S, mlo0, mhi0, even, k)
  {
    Drawn(s, q, r, b, mlo, mhi, b0, S, mlo0, mhi0, even);
    var v, x := 10 * DecVal(s) + q, Raised(b0, s);
    hide Drawing, Divides, DecVal, Raised, Within, Nearest, IsShortest, KeepOk, RaiseOk;
    LastDigitDecides(DecVal(s), q, r, S, mlo, mhi, even);
    if up {
      RoundUp(v, r, x, S, mlo, mhi, even);
      Done(s, q + 1, b, mlo, mhi, b0, S, mlo0, mhi0, even, k);
    } else {
      RoundDown(v, r, x, S, mlo, mhi, even);
      Done(s, q, b, mlo, mhi, b0, S, mlo0, mhi0, even, k);
    }
  }

  /** Rounding up a nine happens at the first digit only, and gives ten times 10^k. */
  lemma {:induction false} NinePast(s: seq<Digit>, r: nat, b: nat, mlo: nat, mhi: nat,
                                    b0: nat, S: nat, mlo0: nat, mhi0: nat, even: bool, k: int)
    requires S > 0 && Drawing(s, b, mlo, mhi, b0, S, mlo0, mhi0, even) && Divides(b, 9, r, S)
    requires RaiseOk(9, r, S, mlo, mhi, even) || (even && r + mhi == S)
    ensures s == [] && IsShortest([1], k + 1, b0, S, mlo0, mhi0, even, k)
  {
    DrawingNoneShorter(s, b, mlo, mhi, b0, S, mlo0, mhi0, even);
    assert Pow(10, 0) == 1;
    assert s == [];
    if !RoundsNinePast(b, S, mlo, mhi, even) {
      RoundUp(9, r, b, S, mlo, mhi, even);
    }
  }

  datatype Choice = Down | Up | More

  ghost predicate Chosen(choice: Choice, dig: nat, r: nat, S: nat, mlo: nat, mhi: nat, even: bool) {
    match choice
    case Down => KeepOk(dig, r, S, mlo, mhi, even)
    case Up => RaiseOk(dig, r, S, mlo, mhi, even) || (dig == 9 && even && r + mhi == S)
    case More => MoreOk(r, S, mlo, mhi, even)
  }

  /** The tests that follow a digit: keep it as the last, raise it, or go on. */
  method Choose(pool: Pool, dig: nat, b0: Bigint, S: Bigint, mlo: Bigint, mhi: Bigint, even: bool,
                ghost base: set<Bigint>)
    returns (b: Bigint, choice: Choice)
    requires Working(pool, base, {S, mlo, mhi} + {b0}) && b0 !in {S, mlo, mhi}
    requires 0 < Num(mlo) <= Num(mhi) && Num(b0) < Num(S)
    modifies Space(pool, {S, mlo, mhi} + {b0})
    ensures Working(pool, base, {S, mlo, mhi} + {b}) && b !in {S, mlo, mhi} && pool.powers == old(pool.powers)
    ensures forall o | o in Space(pool, {S, mlo, mhi} + {b}) :: o in old(Space(pool, {S, mlo, mhi} + {b0})) || fresh(o)
    ensures forall c | c in {S, mlo, mhi} :: Num(c) == old(Num(c))
    ensures Chosen(choice, dig, old(Num(b0)), old(Num(S)), old(Num(mlo)), old(Num(mhi)), even)
    ensures choice == More ==> Num(b) == old(Num(b0))
  {
    hide Working, Space, Num;
    ghost var rest := {S, mlo, mhi};
    b := b0;
    var j := Compare(pool, b, mlo, base, rest + {b});
    var j1 := CompareDelta(pool, b, S, mhi, base, rest + {b});
    if j1 == 0 && even {
      choice := if dig == 9 || j > 0 then Up else Down;
      return;
    }
    if j < 0 || (j == 0 && even) {
      choice := Down;
      var zero := IsZero(pool, b, base, rest + {b});
      if !zero && j1 > 0 {
        b, j1 := CompareDouble(pool, b, S, base, rest);
        if j1 > 0 || (j1 == 0 && dig % 2 == 1) {
          choice := Up;
        }
      }
      return;
    }
    choice := if j1 > 0 then Up else More;
  }

  /** b, mlo and mhi times ten, where mlo and mhi may be one number. */
  method Grow(pool: Pool, b0: Bigint, S: Bigint, mlo0: Bigint, mhi0: Bigint, ghost base: set<Bigint>)
    returns (b: Bigint, mlo: Bigint, mhi: Bigint)
    requires Working(pool, base, {S, mlo0, mhi0} + {b0}) && b0 !in {S, mlo0, mhi0} && S !in {mlo0, mhi0}
    modifies Space(pool, {S, mlo0, mhi0} + {b0})
    ensures Working(pool, base, {S, mlo, mhi} + {b}) && b !in {S, mlo, mhi} && S !in {mlo, mhi}
    ensures pool.powers == old(pool.powers)
    ensures forall o | o in Space(pool, {S, mlo, mhi} + {b}) ::
              o in old(Space(pool, {S, mlo0, mhi0} + {b0})) || fresh(o)
    ensures Num(b) == 10 * old(Num(b0)) && Num(S) == old(Num(S))
    ensures Num(mlo) == 10 * old(Num(mlo0)) && Num(mhi) == 10 * old(Num(mhi0))
  {
    hide Working, Space, Num;
    b := TimesTen(pool, b0, base, {S, mlo0, mhi0});
    if mlo0 == mhi0 {
      assert {S, mlo0, mhi0} + {b} == {S, b} + {mhi0};
      mhi := TimesTen(pool, mhi0, base, {S, b});
      mlo := mhi;
      assert {S, b} + {mhi} == {S, mlo, mhi} + {b};
    } else {
      assert {S, mlo0, mhi0} + {b} == {S, b, mhi0} + {mlo0};
      mlo := TimesTen(pool, mlo0, base, {S, b, mhi0});
      assert {S, b, mhi0} + {mlo} == {S, b, mlo} + {mhi0};
      mhi := TimesTen(pool, mhi0, base, {S, b, mlo});
      assert {S, b, mlo} + {mhi} == {S, mlo, mhi} + {b};
    }
  }

  lemma {:induction false} DrawingRange(s: seq<Digit>, b: nat, mlo: nat, mhi: nat,
                                        b0: nat, S: nat, mlo0: nat, mhi0: nat, even: bool)
    requires Drawing(s, b, mlo, mhi, b0, S, mlo0, mhi0, even)
    ensures 0 < mlo <= mhi && b < 10 * S
  {
  }

  /** Stores the digit dig, raised or not; after the last one the digits are a shortest decimal. */
  method Emit(s0: seq<Digit>, k0: int, dig: nat, choice: Choice,
              ghost r: nat, ghost b: nat, ghost mlo: nat, ghost mhi: nat,
              ghost b0: nat, ghost S: nat, ghost mlo0: nat, ghost mhi0: nat, ghost even: bool)
    returns (s: seq<Digit>, k: int)
    requires S > 0 && Drawing(s0, b, mlo, mhi, b0, S, mlo0, mhi0, even) && Divides(b, dig, r, S)
    requires Chosen(choice, dig, r, S, mlo, mhi, even)
    ensures choice == More ==>
              k == k0 && Drawing(s, 10 * r, 10 * mlo, 10 * mhi, b0, S, mlo0, mhi0, even) && r < S && 0 < mlo <= mhi
    ensures choice == More ==> mlo < 10 * S
    ensures choice != More ==> IsShortest(s, k, b0, S, mlo0, mhi0, even, k0)
  {
    hide Pow, Within, Nearest, IsShortest, DecVal, RoundsNinePast, Divides, Raised, KeepOk, RaiseOk, MoreOk;
    k := k0;
    DrawingRange(s0, b, mlo, mhi, b0, S, mlo0, mhi0, even);
    hide Drawing;
    Drawn(s0, dig, r, b, mlo, mhi, b0, S, mlo0, mhi0, even);
    if choice == Up && dig == 9 {
      NinePast(s0, r, b, mlo, mhi, b0, S, mlo0, mhi0, even, k);
      s, k := RoundNine(s0, k);
    } else if choice != More {
      Stop(s0, dig, choice == Up, r, b, mlo, mhi, b0, S, mlo0, mhi0, even, k);
      s := s0 + [if choice == Up then dig + 1 else dig];
    } else {
      StepOn(s0, dig, r, b, mlo, mhi, b0, S, mlo0, mhi0, even);
      s := s0 + [dig];
    }
  }

  /** Mode 0 of dtoa from the scaled start. */
  method Shortest(pool: Pool, b0: Bigint, S: Bigint, mlo0: Bigint, mhi0: Bigint, even: bool, k0: int,
                  ghost base: set<Bigint>, ghost v: nat, ghost w: nat, ghost lo0: nat, ghost hi0: nat)
    returns (b: Bigint, mlo: Bigint, mhi: Bigint, s: seq<Digit>, k: int)
    requires Working(pool, base, {S, mlo0, mhi0} + {b0}) && b0 !in {S, mlo0, mhi0} && S !in {mlo0, mhi0}
    requires Num(b0) == v && Num(S) == w && Num(mlo0) == lo0 && Num(mhi0) == hi0
    requires FourZeroTop(w) && 0 < w <= v < 10 * w && 0 < lo0 <= hi0
    modifies Space(pool, {S, mlo0, mhi0} + {b0})
    ensures Working(pool, base, {S, mlo, mhi} + {b}) && b !in {S, mlo, mhi} && S !in {mlo, mhi}
    ensures pool.powers == old(pool.powers)
    ensures forall o | o in Space(pool, {S, mlo, mhi} + {b}) ::
              o in old(Space(pool, {S, mlo0, mhi0} + {b0})) || fresh(o)
    ensures IsShortest(s, k, v, w, lo0, hi0, even, k0)
  {
    hide Working, Space, Num, FourZeroTop, Pow, Drawing, IsShortest, Divides, Chosen;
    ghost var u: nat, lo: nat, hi: nat := v, lo0, hi0;
    b, mlo, mhi := b0, mlo0, mhi0;
    s, k := [], k0;
    Begin(v, w, lo0, hi0, even);
    while true
      invariant Working(pool, base, {S, mlo, mhi} + {b}) && b !in {S, mlo, mhi} && S !in {mlo, mhi}
      invariant pool.powers == old(pool.powers)
      invariant forall o | o in Space(pool, {S, mlo, mhi} + {b}) ::
                  o in old(Space(pool, {S, mlo0, mhi0} + {b0})) || fresh(o)
      invariant Num(b) == u && Num(S) == w && Num(mlo) == lo && Num(mhi) == hi
      invariant Drawing(s, u, lo, hi, v, w, lo0, hi0, even) && u < 10 * w && 0 < lo <= hi && k == k0
      decreases 10 * w - lo
    {
      var dig, zero := Draw(pool, b, S, base, {S, mlo, mhi});
      ghost var r := Num(b);
      assert r < w by {
        Drawn(s, dig, r, u, lo, hi, v, w, lo0, hi0, even);
      }
      var choice;
      b, choice := Choose(pool, dig, b, S, mlo, mhi, even, base);
      s, k := Emit(s, k, dig, choice, r, u, lo, hi, v, w, lo0, hi0, even);
      if choice != More {
        return;
      }
      b, mlo, mhi := Grow(pool, b, S, mlo, mhi, base);
      u, lo, hi := 10 * r, 10 * lo, 10 * hi;
    }
  }

  lemma {:induction false} Begin(b0: nat, S: nat, mlo0: nat, mhi0: nat, even: bool)
    requires 0 < S <= b0 < 10 * S && 0 < mlo0 <= mhi0
    ensures Drawing([], b0, mlo0, mhi0, b0, S, mlo0, mhi0, even)
  {
    assert Pow(10, 0) == 1;
  }

  /** The label round_9_up: stores the nine and carries. */
  method RoundNine(s0: seq<Digit>, k0: int) returns (s: seq<Digit>, k: int)
    requires s0 == []
    ensures s == [1] && k == k0 + 1
  {
    assert Pow(10, 1) == 10 && DecVal([9]) == 9;
    s, k := Roundoff(s0 + [9], k0);
  }
}
