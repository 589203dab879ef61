/** Strings of decimal digits and the carry that rounds one up. */
module Decimals {
  import opened Arith

  type Digit = d: int | 0 <= d <= 9

  /** The natural that the digits s stand for. */
  function DecVal(s: seq<Digit>): nat {
    if s == [] then 0 else 10 * DecVal(s[..|s| - 1]) + s[|s| - 1]
  }

  lemma {:induction false} DecValPush(s: seq<Digit>, d: Digit)
    ensures DecVal(s + [d]) == 10 * DecVal(s) + d
  {
    assert (s + [d])[..|s|] == s;
  }

  /** Digit strings of one length with one value are the same. */
  lemma {:induction false} DigitsUnique(s: seq<Digit>, t: seq<Digit>)
    requires |s| == |t| && DecVal(s) == DecVal(t)
    ensures s == t
  {
    if s == [] {
    } else {
      var n := |s| - 1;
      DigitsUnique(s[..n], t[..n]);
      assert s == s[..n] + [s[n]] && t == t[..n] + [t[n]];
    }
  }

  lemma {:induction false} DecValBound(s: seq<Digit>)
    ensures DecVal(s) < Pow(10, |s|)
  {
    if s == [] {
    } else {
      DecValBound(s[..|s| - 1]);
    }
  }

  lemma {:induction false} DecValAppend(s: seq<Digit>, t: seq<Digit>)
    ensures DecVal(s + t) == DecVal(s) * Pow(10, |t|) + DecVal(t)
    decreases |t|
  {
    if t == [] {
      assert s + t == s;
    } else {
      var u := t[..|t| - 1];
      DecValAppend(s, u);
      assert (s + t)[..|s + t| - 1] == s + u;
      Shift(DecVal(s), Pow(10, |u|), DecVal(u), t[|u|]);
    }
  }

  lemma {:induction false} Shift(v: int, p: int, w: int, d: int)
    ensures 10 * (v * p + w) + d == v * (10 * p) + (10 * w + d)
  {
  }

  /** One more than s0 is one more than its prefix s, in the place of its last digit. */
  ghost predicate Carried(s0: seq<Digit>, s: seq<Digit>) {
    |s| <= |s0| && DecVal(s0) + 1 == (DecVal(s) + 1) * Pow(10, |s0| - |s|)
  }

  lemma {:induction false} CarryNine(s0: seq<Digit>, s: seq<Digit>)
    requires s != [] && s[|s| - 1] == 9 && Carried(s0, s)
    ensures Carried(s0, s[..|s| - 1])
    ensures |s| == 1 ==> DecVal(s0) + 1 == Pow(10, |s0|)
  {
    var v := DecVal(s[..|s| - 1]) + 1;
    MulAssoc(v, 10, Pow(10, |s0| - |s|));
    assert |s| == 1 ==> v == 1;
  }

  lemma {:induction false} CarryNone(s: seq<Digit>)
    ensures Carried(s, s)
  {
    assert Pow(10, 0) == 1;
  }

  lemma {:induction false} CarryEnds(s0: seq<Digit>, s: seq<Digit>)
    requires s != [] && s[|s| - 1] != 9 && Carried(s0, s)
    ensures DecVal(s[..|s| - 1] + [s[|s| - 1] + 1]) * Pow(10, |s0| - |s|) == DecVal(s0) + 1 < Pow(10, |s0|)
  {
    var n := |s0|;
    DecValPush(s[..|s| - 1], s[|s| - 1] + 1);
    DecValBound(s[..|s| - 1]);
    PowAdd(10, |s|, n - |s|);
    MulStrict(DecVal(s) + 1, Pow(10, |s|), Pow(10, n - |s|));
  }

  /** The carry through the digits that have been stored; a run of nines becomes a one of the next power of ten. */
  method Roundoff(s0: seq<Digit>, k0: int) returns (s: seq<Digit>, k: int)
    requires s0 != []
    ensures s != [] && s[|s| - 1] != 0 && |s| <= |s0| && (s0[0] != 0 ==> s[0] != 0)
    ensures k == k0 || (k == k0 + 1 && s == [1])
    ensures k == k0 ==> DecVal(s) * Pow(10, |s0| - |s|) == DecVal(s0) + 1
    ensures k == k0 + 1 <==> DecVal(s0) + 1 == Pow(10, |s0|)
  {
    s, k := s0, k0;
    CarryNone(s);
    hide DecVal, Pow, Carried;
    while s[|s| - 1] == 9
      invariant s != [] && s <= s0
      invariant Carried(s0, s)
      decreases |s|
    {
      CarryNine(s0, s);
      s := s[..|s| - 1];
      if s == [] {
        k, s := k + 1, [1];
        return;
      }
    }
    CarryEnds(s0, s);
    s := s[..|s| - 1] + [s[|s| - 1] + 1];
  }
}
