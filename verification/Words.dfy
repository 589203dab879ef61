/** Little-endian sequences of 32-bit words and the naturals they stand for. */
module Words {
  import opened Arith

  const BASE: int := 0x1_0000_0000

  type Word = w: int | 0 <= w < 0x1_0000_0000

  /** v shifted up by i words: v * BASE^i, kept recursive so that every use of it is linear. */
  function Up(v: int, i: nat): int {
    if i == 0 then v else BASE * Up(v, i - 1)
  }

  /** The natural that a sequence of words stands for, least significant word first. */
  function Val(s: seq<Word>): (v: nat) {
    if |s| == 0 then 0
    else
      var n := |s| - 1;
      UpMonotone(0, s[n], n);
      UpZero(n);
      Val(s[..n]) + Up(s[n], n)
  }

  lemma {:induction false} UpZero(i: nat)
    ensures Up(0, i) == 0
  {
    if i == 0 {
    } else {
      UpZero(i - 1);
    }
  }

  lemma {:induction false} UpSum(a: int, b: int, i: nat)
    ensures Up(a + b, i) == Up(a, i) + Up(b, i)
    ensures Up(a - b, i) == Up(a, i) - Up(b, i)
  {
    if i == 0 {
    } else {
      UpSum(a, b, i - 1);
    }
  }

  lemma {:induction false} UpNext(v: int, i: nat)
    ensures Up(BASE * v, i) == Up(v, i + 1)
  {
    if i == 0 {
    } else {
      UpNext(v, i - 1);
    }
  }

  lemma {:induction false} UpTimes(m: int, v: int, i: nat)
    ensures Up(m * v, i) == m * Up(v, i)
  {
    if i == 0 {
    } else {
      UpTimes(m, v, i - 1);
      MulAssoc(BASE, m, Up(v, i - 1));
      MulAssoc(m, BASE, Up(v, i - 1));
    }
  }

  lemma {:induction false} UpTwice(v: int, i: nat, j: nat)
    ensures Up(Up(v, i), j) == Up(v, i + j)
  {
    if j == 0 {
    } else {
      UpTwice(v, i, j - 1);
    }
  }

  lemma {:induction false} UpMonotone(a: int, b: int, i: nat)
    ensures a < b ==> Up(a, i) < Up(b, i)
    ensures a <= b ==> Up(a, i) <= Up(b, i)
  {
    if i == 0 {
    } else {
      UpMonotone(a, b, i - 1);
    }
  }

  /** Moving up by more words does not make a natural smaller. */
  lemma {:induction false} UpGrows(v: nat, i: nat, j: nat)
    requires i <= j
    ensures Up(v, i) <= Up(v, j)
  {
    if j == i {
    } else {
      UpGrows(v, i, j - 1);
      UpMonotone(0, v, j - 1);
      UpZero(j - 1);
    }
  }

  lemma {:induction false} ValPush(s: seq<Word>, w: Word)
    ensures Val(s + [w]) == Val(s) + Up(w, |s|)
  {
    assert (s + [w])[..|s|] == s;
  }

  lemma {:induction false} ValSingle(s: seq<Word>)
    requires |s| >= 1
    ensures Val(s[..1]) == s[0]
  {
    ValPrefix(s, 0);
    assert s[..0] == [];
  }

  lemma {:induction false} ValPrefix(s: seq<Word>, i: nat)
    requires i < |s|
    ensures Val(s[..i + 1]) == Val(s[..i]) + Up(s[i], i)
  {
    assert s[..i + 1][..i] == s[..i];
  }

  lemma {:induction false} ValBound(s: seq<Word>)
    ensures Val(s) < Up(1, |s|)
  {
    if |s| == 0 {
    } else {
      var n := |s| - 1;
      ValBound(s[..n]);
      UpSum(s[n], 1, n);
      UpMonotone(s[n] + 1 as int, BASE, n);
      UpNext(1, n);
    }
  }

  lemma {:induction false} ValAppend(s: seq<Word>, t: seq<Word>)
    ensures Val(s + t) == Val(s) + Up(Val(t), |s|)
  {
    if |t| == 0 {
      assert s + t == s;
      UpZero(|s|);
    } else {
      var n := |t| - 1;
      ValAppend(s, t[..n]);
      assert (s + t)[..|s| + n] == s + t[..n];
      UpSum(Val(t[..n]), Up(t[n], n), |s|);
      UpTwice(t[n], n, |s|);
    }
  }

  lemma {:induction false} ValSplit(s: seq<Word>, i: nat)
    requires i <= |s|
    ensures Val(s) == Val(s[..i]) + Up(Val(s[i..]), i)
  {
    var lo, hi := s[..i], s[i..];
    assert s == lo + hi;
    ValAppend(lo, hi);
  }

  /** Two numbers with the same words from i on differ by what their low words differ by. */
  lemma {:induction false} ValSameHigh(s: seq<Word>, t: seq<Word>, i: nat)
    requires i <= |s| == |t| && forall j | i <= j < |s| :: s[j] == t[j]
    ensures Val(s) - Val(s[..i]) == Val(t) - Val(t[..i])
  {
    assert s[i..] == t[i..];
    ValSplit(s, i);
    ValSplit(t, i);
  }

  lemma {:induction false} ValZeros(s: seq<Word>)
    requires forall i | 0 <= i < |s| :: s[i] == 0
    ensures Val(s) == 0
  {
    if |s| == 0 {
    } else {
      ValZeros(s[..|s| - 1]);
      UpZero(|s| - 1);
    }
  }

  /** Words above the last nonzero one do not count. */
  lemma {:induction false} ValTrim(s: seq<Word>, n: nat)
    requires n <= |s| && forall i | n <= i < |s| :: s[i] == 0
    ensures Val(s) == Val(s[..n])
  {
    ValSplit(s, n);
    ValZeros(s[n..]);
    UpZero(n);
  }

  lemma {:induction false} ValTop(s: seq<Word>)
    requires |s| > 0
    ensures Up(s[|s| - 1], |s| - 1) <= Val(s) < Up(s[|s| - 1] + 1 as int, |s| - 1)
  {
    var n := |s| - 1;
    ValBound(s[..n]);
    UpSum(s[n], 1, n);
  }

  /** The top word is nonzero exactly when the value needs all the words. */
  lemma {:induction false} TopNonzero(s: seq<Word>)
    requires |s| > 0
    ensures s[|s| - 1] != 0 <==> Val(s) >= Up(1, |s| - 1)
  {
    ValTop(s);
    UpMonotone(1, s[|s| - 1], |s| - 1);
  }

  lemma {:induction false} ValZeroIff(s: seq<Word>)
    ensures Val(s) == 0 <==> forall i | 0 <= i < |s| :: s[i] == 0
  {
    if |s| == 0 {
    } else {
      var n := |s| - 1;
      ValZeroIff(s[..n]);
      UpMonotone(0, s[n], n);
      UpZero(n);
      assert forall i | 0 <= i < n :: s[..n][i] == s[i];
    }
  }

  /** Two numbers of one length that agree above word i are ordered as their words i are. */
  lemma {:induction false} ValCompare(s: seq<Word>, t: seq<Word>, i: nat)
    requires |s| == |t| && i < |s| && s[i] < t[i] && s[i + 1..] == t[i + 1..]
    ensures Val(s) < Val(t)
  {
    var s', t' := s[..i + 1], t[..i + 1];
    ValSplit(s, i + 1);
    ValSplit(t, i + 1);
    assert Val(s') < Val(t') by {
      ValTop(s');
      ValTop(t');
      UpMonotone(s[i] + 1 as int, t[i], i);
    }
  }

  /** Fewer words, smaller number, when the longer one has no leading zero word. */
  lemma {:induction false} ValShorter(s: seq<Word>, t: seq<Word>)
    requires |s| < |t| && t[|t| - 1] != 0
    ensures Val(s) < Val(t)
  {
    ValBound(s);
    TopNonzero(t);
    UpGrows(1, |s|, |t| - 1);
  }
}
