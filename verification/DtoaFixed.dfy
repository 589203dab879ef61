/** The digit loop of dtoa that stops after a given number of digits and rounds the last one. */
module DtoaFixed {
  import opened Arith
  import opened Words
  import opened Bigints
  import opened BigintDiv
  import opened BigintMult
  import opened Workspace
  import opened Decimals
  import opened DtoaShortest

  /** v is the integer nearest to x / S, the even one of two. */
  ghost predicate NearestEven(v: int, x: int, S: nat) {
    2 * Abs(v * S - x) <= S && (2 * Abs(v * S - x) == S ==> v % 2 == 0)
  }

  lemma {:induction false} Apart(v: int, w: int, S: nat)
    ensures v == w + 1 ==> v * S == w * S + S
    ensures v > w + 1 ==> v * S >= w * S + 2 * S
  {
    if v > w + 1 {
      MulMonotone(w + 2, v, S);
    }
  }

  lemma {:induction false} NotBelow(v: int, w: int, x: int, S: nat)
    requires S > 0 && NearestEven(v, x, S) && NearestEven(w, x, S)
    ensures v <= w
  {
    Apart(v, w, S);
  }

  lemma {:induction false} NearestEvenUnique(v: int, w: int, x: int, S: nat)
    requires S > 0 && NearestEven(v, x, S) && NearestEven(w, x, S)
    ensures v == w
  {
    hide NearestEven;
    NotBelow(v, w, x, S);
    NotBelow(w, v, x, S);
  }

  /** What the loop promises: the nearest decimal of ilim digits, without its trailing zeros. */
  ghost predicate IsFixed(s: seq<Digit>, k: int, b: nat, S: nat, ilim: nat, k0: int) {
    && s != [] && s[0] != 0 && s[|s| - 1] != 0 && |s| <= ilim
    && (k == k0 || (k == k0 + 1 && s == [1]))
    && NearestEven(DecVal(s) * Pow(10, ilim - |s| + (k - k0)), b * Pow(10, ilim - 1), S)
  }

  /** The digits so far are exact, and something remains. */
  ghost predicate Partial(s: seq<Digit>, b: nat, b0: nat, S: nat) {
    && Raised(b0, s) == 10 * (DecVal(s) * S) + b && 0 < b < 10 * S
    && (if s == [] then S <= b else s[0] != 0)
  }

  lemma {:induction false} PartialDigit(s: seq<Digit>, q: nat, r: nat, b: nat, b0: nat, S: nat)
    requires Partial(s, b, b0, S) && Divides(b, q, r, S)
    ensures q <= 9 && (s == [] ==> q > 0) && (r == 0 ==> q > 0)
    ensures Divides(Raised(b0, s), DecVal(s + [q]), r, S)
    ensures (s + [q])[0] != 0
  {
    hide Raised;
    if q > 9 {
      MulMonotone(10, q, S);
    }
    DecValPush(s, q);
    hide DecVal;
    Gather(DecVal(s), q, S);
  }

  lemma {:induction false} Gather(v: int, q: int, S: int)
    ensures (10 * v + q) * S == 10 * (v * S) + q * S
  {
    MulAssoc(10, v, S);
  }

  lemma {:induction false} PartialNext(s: seq<Digit>, pre: seq<Digit>, r: nat, b0: nat, S: nat)
    requires s != [] && pre == s[..|s| - 1] && s[0] != 0 && r > 0 && Divides(Raised(b0, pre), DecVal(s), r, S)
    ensures Partial(s, 10 * r, b0, S)
  {
    hide DecVal;
    TenFirst(b0, Pow(10, |pre|));
    assert Pow(10, |s|) == 10 * Pow(10, |pre|);
  }

  /** Cuts the zeros at the end. */
  method TrimZeros(s0: seq<Digit>) returns (s: seq<Digit>)
    requires s0 != [] && s0[0] != 0
    ensures s != [] && s[|s| - 1] != 0 && s[0] != 0 && |s| <= |s0|
    ensures DecVal(s0) == DecVal(s) * Pow(10, |s0| - |s|)
  {
    hide DecVal, Pow;
    s := s0;
    ShiftNone(DecVal(s));
    while s[|s| - 1] == 0
      invariant s != [] && s <= s0 && DecVal(s0) == DecVal(s) * Pow(10, |s0| - |s|)
      decreases |s|
    {
      ShiftZero(s, |s0| - |s|);
      s := s[..|s| - 1];
    }
  }

  lemma {:induction false} ShiftNone(v: nat)
    ensures v * Pow(10, 0) == v
  {
  }

  lemma {:induction false} ShiftZero(s: seq<Digit>, n: nat)
    requires s != [] && s[|s| - 1] == 0
    ensures DecVal(s) * Pow(10, n) == DecVal(s[..|s| - 1]) * Pow(10, n + 1)
  {
    MulAssoc(DecVal(s[..|s| - 1]), 10, Pow(10, n));
  }

  lemma {:induction false} Exact(s: seq<Digit>, b: nat, S: nat, ilim: nat, k: int, pre: seq<Digit>)
    requires S > 0 && s != [] && pre == s[..|s| - 1] && Divides(Raised(b, pre), DecVal(s), 0, S)
    requires |s| <= ilim && s[0] != 0 && s[|s| - 1] != 0
    ensures IsFixed(s, k, b, S, ilim, k)
  {
    var p := Pow(10, ilim - |s|);
    PowAdd(10, |s| - 1, ilim - |s|);
    var v := DecVal(s);
    MulAssoc(b, Pow(10, |s| - 1), p);
    MulAssoc(v, S, p);
    MulAssoc(v, p, S);
  }

  lemma {:induction false} Rounds(v: nat, r: nat, x: int, S: nat)
    requires Divides(x, v, r, S)
    ensures 2 * r > S || (2 * r == S && v % 2 == 1) ==> NearestEven(v + 1, x, S)
    ensures 2 * r < S || (2 * r == S && v % 2 == 0) ==> NearestEven(v, x, S)
  {
    assert (v + 1) * S == v * S + S;
  }

  lemma {:induction false} LastParity(s: seq<Digit>)
    requires s != []
    ensures DecVal(s) % 2 == s[|s| - 1] % 2
  {
    var u := DecVal(s[..|s| - 1]);
    assert DecVal(s) == 2 * (5 * u) + s[|s| - 1];
  }

  /** Modes 2 and 3 of dtoa from the scaled start, for at least one digit. */
  method Fixed(pool: Pool, b0: Bigint, S: Bigint, ilim: nat, k0: int,
               ghost base: set<Bigint>, ghost v: nat, ghost w: nat)
    returns (b: Bigint, s: seq<Digit>, k: int)
    requires Working(pool, base, {S} + {b0}) && b0 != S && Num(b0) == v && Num(S) == w
    requires FourZeroTop(w) && 0 < w <= v < 10 * w && ilim > 0
    modifies Space(pool, {S} + {b0})
    ensures Working(pool, base, {S} + {b}) && b != S && pool.powers == old(pool.powers)
    ensures forall o | o in Space(pool, {S} + {b}) :: o in old(Space(pool, {S} + {b0})) || fresh(o)
    ensures IsFixed(s, k, v, w, ilim, k0)
  {
    hide Working, Space, Num, FourZeroTop;
    hide Pow, DecVal, IsFixed, Partial, Divides, Raised, NearestEven;
    b := b0;
    s, k := [], k0;
    PartialStart(v, w);
    while true
      invariant Working(pool, base, {S} + {b}) && b != S && pool.powers == old(pool.powers)
      invariant forall o | o in Space(pool, {S} + {b}) :: o in old(Space(pool, {S} + {b0})) || fresh(o)
      invariant Num(S) == w && |s| < ilim && Partial(s, Num(b), v, w) && k == k0
      decreases ilim - |s|
    {
      ghost var u := Num(b);
      PartialRange(s, u, v, w);
      var dig, zero := Draw(pool, b, S, base, {S});
      ghost var r := Num(b);
      PartialDigit(s, dig, r, u, v, w);
      ghost var pre := s;
      s := s + [dig];
      assert s[..|s| - 1] == pre;
      if zero {
        Exact(s, v, w, ilim, k, pre);
        return;
      }
      if |s| >= ilim {
        var j;
        b, j := CompareDouble(pool, b, S, base, {S});
        s, k := RoundLast(s, r, j, v, w, k);
        return;
      }
      PartialNext(s, pre, r, v, w);
      b := TimesTen(pool, b, base, {S});
    }
  }

  lemma {:induction false} PartialRange(s: seq<Digit>, b: nat, b0: nat, S: nat)
    requires Partial(s, b, b0, S)
    ensures 0 < b < 10 * S
  {
  }

  /** Rounds the last of the digits, for a remainder r whose double compares with S as j says. */
  method RoundLast(s0: seq<Digit>, ghost r: nat, j: int, ghost b0: nat, ghost S: nat, k0: int)
    returns (s: seq<Digit>, k: int)
    requires S > 0 && s0 != [] && s0[0] != 0 && Divides(Raised(b0, s0[..|s0| - 1]), DecVal(s0), r, S)
    requires (j < 0 <==> 2 * r < S) && (j > 0 <==> 2 * r > S)
    ensures IsFixed(s, k, b0, S, |s0|, k0)
  {
    hide Pow, DecVal, IsFixed, Partial, Divides, Raised, NearestEven;
    LastParity(s0);
    Rounds(DecVal(s0), r, Raised(b0, s0[..|s0| - 1]), S);
    if j > 0 || (j == 0 && s0[|s0| - 1] % 2 == 1) {
      s, k := Roundoff(s0, k0);
      Assemble(s0, s, k, DecVal(s0) + 1, b0, S, k0);
    } else {
      k := k0;
      s := TrimZeros(s0);
      Assemble(s0, s, k, DecVal(s0), b0, S, k0);
    }
  }

  lemma {:induction false} Assemble(s0: seq<Digit>, s: seq<Digit>, k: int, v: nat, b: nat, S: nat, k0: int)
    requires s0 != [] && NearestEven(v, Raised(b, s0[..|s0| - 1]), S)
    requires s != [] && s[0] != 0 && s[|s| - 1] != 0 && |s| <= |s0|
    requires if k == k0 then DecVal(s) * Pow(10, |s0| - |s|) == v else k == k0 + 1 && s == [1] && v == Pow(10, |s0|)
    ensures IsFixed(s, k, b, S, |s0|, k0)
  {
    assert DecVal([1]) == 1;
  }

  lemma {:induction false} PartialStart(b0: nat, S: nat)
    requires 0 < S <= b0 < 10 * S
    ensures Partial([], b0, b0, S)
  {
    assert Pow(10, 0) == 1;
  }
}
