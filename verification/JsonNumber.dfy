/** The number formatter writes an integer below 10^14 as its decimal digits. */
module JsonNumber {
  import opened Arith
  import opened Decimals
  import opened Words
  import opened Bigints
  import opened Doubles
  import opened Workspace
  import opened Dtoa
  import Fpconv
  import GFmt
  import Json

  lemma {:induction false} CharsAreDigits(s: seq<Digit>)
    requires s != [] && s[0] != 0
    ensures GFmt.Chars(s) == Json.Digits(DecVal(s)) && DecVal(s) > 0
  {
    var n := |s| - 1;
    GFmt.CharsPush(s, n);
    assert s[..n + 1] == s;
    if n == 0 {
      assert DecVal(s[..0]) == 0 && GFmt.Chars(s[..0]) == [];
    } else {
      CharsAreDigits(s[..n]);
      assert DecVal(s) / 10 == DecVal(s[..n]) && DecVal(s) % 10 == s[n];
    }
  }

  /** All digits before the point, and zeros up to it: the text of the integer. */
  lemma {:induction false} IntegerLayout(neg: bool, s: seq<Digit>, k: int, n: nat)
    requires s != [] && s[0] != 0 && |s| <= k + 1 && DecVal(s) * Pow(10, k + 1 - |s|) == n
    ensures n > 0
    ensures GFmt.Layout(neg, s + GFmt.Zeros(k + 1 - |s|), [], false, []) == Json.IntText(if neg then 0 - n else n)
  {
    hide DecVal, Pow, GFmt.Chars, GFmt.Zeros, Json.Digits;
    var t := s + GFmt.Zeros(k + 1 - |s|);
    GFmt.ZerosValue(s, k + 1 - |s|);
    CharsAreDigits(t);
    WholeLayout(neg, t);
  }

  lemma {:induction false} WholeLayout(neg: bool, t: seq<Digit>)
    ensures GFmt.Layout(neg, t, [], false, []) == GFmt.SignText(neg) + GFmt.Chars(t)
  {
    hide GFmt.Chars;
    var c := GFmt.Chars(t);
    assert c + ([] + []) == c;
  }

  /** The text of a double that is an integer of at most 14 digits, by the exact path of dtoa. */
  method IntegerText(b: array<char>, pool: Pool, word0: Word, word1: Word, n: nat, k0: int, kCheck: bool,
                     ghost base: set<Bigint>)
    returns (len: nat)
    requires Working(pool, base, {}) && b.Length >= 21 && b !in Space(pool, {})
    requires Finite(word0) && Fpconv.IsInteger(word0, word1, n) && n < Pow(10, 14)
    requires n > 0 ==> Estimate(word0, word1, k0, kCheck)
    modifies b, Space(pool, {})
    ensures Working(pool, base, {})
    ensures len <= 21
    ensures n > 0 || word0 < 0x8000_0000 ==> b[..len] == Json.IntText(if word0 < 0x8000_0000 then n else 0 - n)
    ensures n == 0 && word0 >= 0x8000_0000 ==> b[..len] == "-0"
  {
    ghost var s, k, k1;
    SignificandPositive(word0, word1, n);
    assert Json.IntText(0) == "0" && GFmt.SignText(true) + "0" == "-0" && GFmt.SignText(false) + "0" == "0";
    hide Working, Space, Pow, Significand, Unit, Fpconv.IsInteger, Json.IntText, GFmt.Layout, GFmt.Text, GFmt.Denotes,
      Fpconv.Written, Estimate,
      GFmt.SignText;
    len, s, k, k1 := Fpconv.FormatDouble(b, pool, word0, word1, 14, k0, kCheck, base);
    if n > 0 {
      Fpconv.WholeNumber(s, k, k1, word0, word1, n, 14);
      WholeText(Negative(word0), s, k);
      IntegerLayout(Negative(word0), s, k, n);
    }
  }

  lemma {:induction false} WholeText(neg: bool, s: seq<Digit>, k: int)
    requires s != [] && |s| <= k + 1 <= 14
    ensures GFmt.Text(neg, s, k + 1, 14) == GFmt.Layout(neg, s + GFmt.Zeros(k + 1 - |s|), [], false, [])
  {
  }

  lemma {:induction false} SignificandPositive(word0: Word, word1: Word, n: nat)
    requires Fpconv.IsInteger(word0, word1, n)
    ensures Significand(word0, word1) > 0 <==> n > 0
  {
    var m, e := Significand(word0, word1), Unit(word0);
    if e < 0 {
      if n > 0 {
        MulPositive(n, Exp2(-e));
      }
    } else if m > 0 {
      MulPositive(m, Exp2(e));
    }
  }
}
