/** Laying out decimal digits as text, and a reader of such text. */
module GFmt {
  import opened Arith
  import opened CStrings
  import opened Decimals

  function CharOf(d: Digit): (c: char)
    ensures c == "0123456789"[d]
  {
    '0' + d as char
  }

  function DigitOf(c: char): Digit
    requires IsDigit(c)
  {
    (c - '0') as int
  }

  function Chars(s: seq<Digit>): (t: seq<char>)
    ensures |t| == |s|
  {
    if s == [] then [] else [CharOf(s[0])] + Chars(s[1..])
  }

  lemma {:induction false} CharsAppend(s: seq<Digit>, t: seq<Digit>)
    ensures Chars(s + t) == Chars(s) + Chars(t)
  {
    if s == [] {
      assert s + t == t;
    } else {
      assert (s + t)[1..] == s[1..] + t;
      CharsAppend(s[1..], t);
    }
  }

  lemma {:induction false} CharsPush(s: seq<Digit>, i: nat)
    requires i < |s|
    ensures Chars(s[..i + 1]) == Chars(s[..i]) + [CharOf(s[i])]
  {
    assert s[..i + 1] == s[..i] + [s[i]];
    CharsAppend(s[..i], [s[i]]);
    assert Chars([s[i]]) == [CharOf(s[i])];
  }

  // ---- Reading a number: sign, digits, fraction, exponent ----

  /** The digits at the front of t. */
  function Leading(t: seq<char>): (s: seq<Digit>)
    ensures |s| <= |t|
  {
    if t == [] || !IsDigit(t[0]) then [] else [DigitOf(t[0])] + Leading(t[1..])
  }

  lemma {:induction false} LeadingPush(d: Digit, t: seq<char>)
    ensures Leading([CharOf(d)] + t) == [d] + Leading(t)
  {
    assert ([CharOf(d)] + t)[1..] == t;
  }

  lemma {:induction false} LeadingIs(s: seq<Digit>, t: seq<char>)
    requires t == [] || !IsDigit(t[0])
    ensures Leading(Chars(s) + t) == s && (Chars(s) + t)[|s|..] == t
  {
    if s != [] {
      var c := CharOf(s[0]);
      assert Chars(s) + t == [c] + (Chars(s[1..]) + t);
      LeadingIs(s[1..], t);
      LeadingPush(s[0], Chars(s[1..]) + t);
    } else {
      assert Chars(s) + t == t;
    }
  }

  /** (-1)^neg * digits * 10^exponent. */
  datatype Reading = Number(neg: bool, digits: nat, exponent: int) | Malformed

  function Signed(neg: bool, v: int): int {
    if neg then -v else v
  }

  function ReadExponent(t: seq<char>, neg: bool, digits: nat, scale: int): Reading {
    if t == [] then Number(neg, digits, scale)
    else if t[0] != 'e' || |t| < 3 || (t[1] != '+' && t[1] != '-') then Malformed
    else
      var x := Leading(t[2..]);
      if x == [] || |x| != |t| - 2 then Malformed
      else Number(neg, digits, scale + Signed(t[1] == '-', DecVal(x)))
  }

  function ReadUnsigned(t: seq<char>, neg: bool): Reading {
    var whole := Leading(t);
    var rest := t[|whole|..];
    if whole == [] then Malformed
    else if rest != [] && rest[0] == '.' then
      var fraction := Leading(rest[1..]);
      if fraction == [] then Malformed
      else ReadExponent(rest[1 + |fraction|..], neg, DecVal(whole + fraction), -|fraction|)
    else ReadExponent(rest, neg, DecVal(whole), 0)
  }

  function ReadNumber(t: seq<char>): Reading {
    if t != [] && t[0] == '-' then ReadUnsigned(t[1..], true) else ReadUnsigned(t, false)
  }

  function SignText(neg: bool): seq<char> {
    if neg then ['-'] else []
  }

  function PointText(fraction: seq<Digit>): seq<char> {
    if fraction == [] then [] else ['.'] + Chars(fraction)
  }

  function ExponentText(neg: bool, x: seq<Digit>): seq<char> {
    if x == [] then [] else ['e', if neg then '-' else '+'] + Chars(x)
  }

  function Layout(neg: bool, whole: seq<Digit>, fraction: seq<Digit>, xneg: bool, x: seq<Digit>): seq<char> {
    SignText(neg) + (Chars(whole) + (PointText(fraction) + ExponentText(xneg, x)))
  }

  lemma {:induction false} ReadExponentText(xneg: bool, x: seq<Digit>, neg: bool, digits: nat, scale: int)
    ensures ReadExponent(ExponentText(xneg, x), neg, digits, scale)
         == Number(neg, digits, scale + Signed(xneg, DecVal(x)))
  {
    if x != [] {
      LeadingIs(x, []);
      assert Chars(x) + [] == Chars(x);
      assert ExponentText(xneg, x)[2..] == Chars(x);
    }
  }

  lemma {:induction false} ReadUnsignedText(neg: bool, whole: seq<Digit>, fraction: seq<Digit>, xneg: bool,
      x: seq<Digit>)
    requires whole != []
    ensures ReadUnsigned(Chars(whole) + (PointText(fraction) + ExponentText(xneg, x)), neg)
         == Number(neg, DecVal(whole + fraction), Signed(xneg, DecVal(x)) - |fraction|)
  {
    hide ReadExponent, DecVal, Leading, Chars;
    var ex := ExponentText(xneg, x);
    LeadingIs(whole, PointText(fraction) + ex);
    if fraction == [] {
      assert PointText(fraction) + ex == ex && whole + fraction == whole;
      ReadExponentText(xneg, x, neg, DecVal(whole), 0);
    } else {
      var rest := PointText(fraction) + ex;
      assert rest[1..] == Chars(fraction) + ex;
      LeadingIs(fraction, ex);
      assert rest[1 + |fraction|..] == ex;
      ReadExponentText(xneg, x, neg, DecVal(whole + fraction), -|fraction|);
    }
  }

  /** Reading a layout gives back its parts. */
  lemma {:induction false} ReadLayout(neg: bool, whole: seq<Digit>, fraction: seq<Digit>, xneg: bool, x: seq<Digit>)
    requires whole != []
    ensures ReadNumber(Layout(neg, whole, fraction, xneg, x))
         == Number(neg, DecVal(whole + fraction), Signed(xneg, DecVal(x)) - |fraction|)
  {
    hide ReadUnsigned, DecVal;
    var body := Chars(whole) + (PointText(fraction) + ExponentText(xneg, x));
    ReadUnsignedText(neg, whole, fraction, xneg, x);
    if neg {
      assert Layout(neg, whole, fraction, xneg, x)[1..] == body;
    } else {
      assert Layout(neg, whole, fraction, xneg, x) == body;
    }
  }

  /** v * 10^e and w * 10^g are the same number. */
  ghost predicate Same(v: nat, e: int, w: nat, g: int) {
    if e >= g then v * Pow(10, e - g) == w else v == w * Pow(10, g - e)
  }

  /** The text denotes the digits s with the decimal point after decpt of them. */
  ghost predicate Denotes(t: seq<char>, neg: bool, s: seq<Digit>, decpt: int) {
    match ReadNumber(t)
    case Number(n, v, e) => n == neg && Same(v, e, DecVal(s), decpt - |s|)
    case Malformed => false
  }

  function Zeros(n: nat): (s: seq<Digit>)
    ensures |s| == n
  {
    if n == 0 then [] else Zeros(n - 1) + [0]
  }

  lemma {:induction false} ZerosNext(n: nat)
    ensures Chars(Zeros(n + 1)) == Chars(Zeros(n)) + ['0']
  {
    CharsAppend(Zeros(n), [0]);
    assert Chars([0]) == ['0'];
  }

  /** Zeros in front change nothing; each zero behind is a factor of ten. */
  lemma {:induction false} ZerosValue(s: seq<Digit>, n: nat)
    ensures DecVal(Zeros(n) + s) == DecVal(s) && DecVal(s + Zeros(n)) == DecVal(s) * Pow(10, n)
  {
    DecValAppend(Zeros(n), s);
    DecValAppend(s, Zeros(n));
    AllZeros(n);
  }

  lemma {:induction false} AllZeros(n: nat)
    ensures DecVal(Zeros(n)) == 0
  {
    if n == 0 {
    } else {
      AllZeros(n - 1);
      DecValPush(Zeros(n - 1), 0);
    }
  }

  lemma {:induction false} SameValue(v: nat, e: int)
    ensures Same(v, e, v, e)
  {
  }

  lemma {:induction false} DenotesScientific(neg: bool, s: seq<Digit>, decpt: int, x: seq<Digit>)
    requires s != [] && DecVal(x) == (if decpt <= 0 then 1 - decpt else decpt - 1)
    ensures Denotes(Layout(neg, s[..1], s[1..], decpt <= 0, x), neg, s, decpt)
  {
    hide ReadNumber, Layout, DecVal;
    ReadLayout(neg, s[..1], s[1..], decpt <= 0, x);
    assert s[..1] + s[1..] == s;
    SameValue(DecVal(s), decpt - |s|);
  }

  lemma {:induction false} DenotesFraction(neg: bool, s: seq<Digit>, decpt: int)
    requires s != [] && decpt <= 0
    ensures Denotes(Layout(neg, [0], Zeros(-decpt) + s, false, []), neg, s, decpt)
  {
    assert DecVal([]) == 0 && Zeros(1) == [0];
    hide ReadNumber, Layout, DecVal, Zeros;
    ReadLayout(neg, [0], Zeros(-decpt) + s, false, []);
    ZerosValue(Zeros(-decpt) + s, 1);
    ZerosValue(s, -decpt);
    SameValue(DecVal(s), decpt - |s|);
  }

  lemma {:induction false} SameShifted(v: nat, n: nat)
    ensures Same(v * Pow(10, n), 0, v, n)
  {
    assert Pow(10, 0) == 1;
  }

  lemma {:induction false} DenotesWhole(neg: bool, s: seq<Digit>, decpt: int)
    requires s != [] && decpt >= |s|
    ensures Denotes(Layout(neg, s + Zeros(decpt - |s|), [], false, []), neg, s, decpt)
  {
    assert DecVal([]) == 0;
    var z := Zeros(decpt - |s|);
    hide ReadNumber, Layout, DecVal, Zeros, Same, Pow;
    ReadLayout(neg, s + z, [], false, []);
    assert (s + z) + [] == s + z;
    ZerosValue(s, decpt - |s|);
    SameShifted(DecVal(s), decpt - |s|);
  }

  lemma {:induction false} DenotesPointed(neg: bool, s: seq<Digit>, decpt: int)
    requires 0 < decpt < |s|
    ensures Denotes(Layout(neg, s[..decpt], s[decpt..], false, []), neg, s, decpt)
  {
    assert DecVal([]) == 0;
    hide ReadNumber, Layout, DecVal, Same, Pow;
    ReadLayout(neg, s[..decpt], s[decpt..], false, []);
    assert s[..decpt] + s[decpt..] == s;
    SameValue(DecVal(s), decpt - |s|);
  }

  // ---- Writing ----

  /** Stores one character behind those written. */
  method Put(b: array<char>, n: nat, c: char) returns (n': nat)
    requires n < b.Length
    modifies b
    ensures n' == n + 1 && b[..n'] == old(b[..n]) + [c]
  {
    ghost var t := b[..n];
    b[n] := c;
    n' := n + 1;
    assert b[..n'] == t + [c];
  }

  /** Copies the digits s, and reports where the text ends. */
  method PutDigits(b: array<char>, n: nat, s: seq<Digit>) returns (n': nat)
    requires n + |s| <= b.Length
    modifies b
    ensures n' == n + |s| && b[..n'] == old(b[..n]) + Chars(s)
  {
    n' := n;
    var i := 0;
    while i < |s|
      invariant 0 <= i <= |s| && n' == n + i && b[..n'] == old(b[..n]) + Chars(s[..i])
    {
      CharsPush(s, i);
      n' := Put(b, n', CharOf(s[i]));
      i := i + 1;
    }
    assert s[..|s|] == s;
  }

  method PutZeros(b: array<char>, n: nat, count: nat) returns (n': nat)
    requires n + count <= b.Length
    modifies b
    ensures n' == n + count && b[..n'] == old(b[..n]) + Chars(Zeros(count))
  {
    n' := n;
    var i := 0;
    while i < count
      invariant 0 <= i <= count && n' == n + i && b[..n'] == old(b[..n]) + Chars(Zeros(i))
    {
      ZerosNext(i);
      n' := Put(b, n', '0');
      i := i + 1;
    }
  }

  /** The number of decimal digits of x, two at least, with the power of ten of the first one. */
  method CountDigits(x: nat) returns (j: nat, k: nat)
    ensures j >= 2 && k == Pow(10, j - 1) && x < 10 * k && (j > 2 ==> k <= x)
  {
    j, k := 2, 10;
    assert Pow(10, 1) == 10;
    while 10 * k <= x
      invariant j >= 2 && k == Pow(10, j - 1) && (j > 2 ==> k <= x) && k > 0
      decreases x - k
    {
      assert Pow(10, j) == 10 * Pow(10, j - 1);
      j, k := j + 1, 10 * k;
    }
  }

  /** The digits s of x are out, and rest is what remains, moved up by as many places. */
  ghost predicate Emitted(x: nat, s: seq<Digit>, rest: nat, k: nat) {
    x * Pow(10, |s|) == DecVal(s) * (10 * k) + rest && rest < 10 * k
  }

  lemma {:induction false} EmitNext(x: nat, s: seq<Digit>, rest: nat, k: nat, i: nat, r: nat)
    requires Emitted(x, s, rest, k) && rest == i * k + r && r < k
    ensures i <= 9 && Emitted(x, s + [i], r * 10, k)
    ensures k == Pow(10, |s|) ==> DecVal(s + [i]) == x
  {
    if i > 9 {
      MulMonotone(10, i, k);
    }
    DecValPush(s, i);
    hide DecVal;
    EmitStep(x, DecVal(s), Pow(10, |s|), k, i, r);
    if k == Pow(10, |s|) {
      EmitLast(x, 10 * DecVal(s) + i, k, r);
    }
  }

  lemma {:induction false} EmitStep(x: int, q: int, p: int, k: int, i: int, r: int)
    requires x * p == q * (10 * k) + (i * k + r)
    ensures x * (10 * p) == (10 * q + i) * (10 * k) + r * 10
    ensures x * p == (10 * q + i) * k + r
  {
    MulAssoc(x, 10, p);
    MulAssoc(q, 10, k);
    assert (10 * q + i) * k == 10 * q * k + i * k;
    assert (10 * q + i) * (10 * k) == 10 * ((10 * q + i) * k);
  }

  lemma {:induction false} EmitLast(x: nat, v: nat, k: nat, r: nat)
    requires k > 0 && x * k == v * k + r && r < k
    ensures x == v
  {
    DivModUnique(x * k, k, v, r);
    DivModUnique(x * k, k, x, 0);
  }

  lemma {:induction false} EmitNone(x: nat, k: nat)
    requires x < 10 * k
    ensures Emitted(x, [], x, k)
  {
    assert Pow(10, 0) == 1;
  }

  /** The highest digit of decpt, of weight k, and what is left without it. */
  method TopDigit(decpt: nat, k: nat) returns (i: nat, rest: nat)
    requires k > 0
    ensures decpt == i * k + rest && rest < k
  {
    i := decpt / k;
    rest := decpt - i * k;
  }

  /** The digits of an exponent, two at least. */
  method PutExponent(b: array<char>, n: nat, x: nat) returns (n': nat, ghost s: seq<Digit>)
    requires n + Max(2, DigitCount(x)) <= b.Length
    modifies b
    ensures s == ExponentDigits(x) && |s| == Max(2, DigitCount(x))
    ensures n' == n + |s| && b[..n'] == old(b[..n]) + Chars(s)
  {
    hide Pow, Emitted, DigitCount, DecVal, Chars, ExponentDigits;
    var j, k := CountDigits(x);
    CountIs(x, j, k);
    var decpt: nat := x;
    n', s := n, [];
    EmitNone(x, k);
    CharsNone();
    ghost var count := j;
    while true
      invariant 0 < j && j + |s| == count && n' == n + |s| && b[..n'] == old(b[..n]) + Chars(s)
      invariant k > 0 && Emitted(x, s, decpt, k) && k == Pow(10, count - 1)
      decreases j
    {
      var i, rest := TopDigit(decpt, k);
      EmitNext(x, s, decpt, k, i, rest);
      CharsAppend(s, [i]);
      CharsSingle(i);
      n' := Put(b, n', CharOf(i));
      s := s + [i];
      j := j - 1;
      if j <= 0 {
        break;
      }
      decpt := rest * 10;
    }
    DigitsUnique(s, ExponentDigits(x));
  }

  lemma {:induction false} CharsNone()
    ensures Chars([]) == []
  {
  }

  lemma {:induction false} CharsSingle(d: Digit)
    ensures Chars([d]) == [CharOf(d)]
  {
  }

  /** How many decimal digits x has, without leading zeros. */
  function DigitCount(x: nat): nat {
    if x < 10 then 1 else DigitCount(x / 10) + 1
  }

  /** The digits of x, two at least. */
  function ExponentDigits(x: nat): (s: seq<Digit>)
    ensures DecVal(s) == x && |s| == Max(2, DigitCount(x))
  {
    if x < 100 then
      TwoDigits(x);
      [x / 10, x % 10]
    else
      DecValPush(ExponentDigits(x / 10), x % 10);
      ThreeDigits(x);
      ExponentDigits(x / 10) + [x % 10]
  }

  lemma {:induction false} TwoDigits(x: nat)
    requires x < 100
    ensures DecVal([x / 10, x % 10]) == x && Max(2, DigitCount(x)) == 2
  {
    DecValPush([x / 10], x % 10);
    DecValPush([], x / 10);
    assert [] + [x / 10] == [x / 10] && [x / 10] + [x % 10] == [x / 10, x % 10];
    assert x < 10 ==> DigitCount(x) == 1;
    assert x >= 10 ==> DigitCount(x) == DigitCount(x / 10) + 1 && DigitCount(x / 10) == 1;
  }

  lemma {:induction false} ThreeDigits(x: nat)
    requires x >= 100
    ensures DigitCount(x) == DigitCount(x / 10) + 1 && DigitCount(x / 10) >= 2
  {
    assert DigitCount(x / 10) == DigitCount(x / 10 / 10) + 1;
  }

  lemma {:induction false} CountIs(x: nat, j: nat, k: nat)
    requires j >= 2 && k == Pow(10, j - 1) && x < 10 * k && (j > 2 ==> k <= x)
    ensures j == Max(2, DigitCount(x))
    decreases j
  {
    if j > 2 {
      assert Pow(10, j - 1) == 10 * Pow(10, j - 2);
      CountIs(x / 10, j - 1, k / 10);
    } else {
      assert Pow(10, 1) == 10 && Pow(10, 0) == 1;
    }
  }

  /** The weight of the first digit, without its sign. */
  function ExponentOf(decpt: int): nat {
    if decpt <= 0 then 1 - decpt else decpt - 1
  }

  /**
   * The text of the digits s with the point after decpt of them: with an exponent below 0.0001 and where zeros
   * would have to stand for digits beyond the precision.
   */
  function Text(neg: bool, s: seq<Digit>, decpt: int, precision: nat): seq<char>
    requires s != []
  {
    if decpt <= -4 || decpt > precision then Layout(neg, s[..1], s[1..], decpt <= 0, ExponentDigits(ExponentOf(decpt)))
    else if decpt <= 0 then Layout(neg, [0], Zeros(-decpt) + s, false, [])
    else if decpt >= |s| then Layout(neg, s + Zeros(decpt - |s|), [], false, [])
    else Layout(neg, s[..decpt], s[decpt..], false, [])
  }

  lemma {:induction false} TextDenotes(neg: bool, s: seq<Digit>, decpt: int, precision: nat)
    requires s != []
    ensures Denotes(Text(neg, s, decpt, precision), neg, s, decpt)
  {
    hide Denotes, DecVal, Layout, Zeros, DigitCount;
    if decpt <= -4 || decpt > precision {
      DenotesScientific(neg, s, decpt, ExponentDigits(ExponentOf(decpt)));
    } else if decpt <= 0 {
      DenotesFraction(neg, s, decpt);
    } else if decpt >= |s| {
      DenotesWhole(neg, s, decpt);
    } else {
      DenotesPointed(neg, s, decpt);
    }
  }

  lemma {:induction false} CharsAreDigits(s: seq<Digit>)
    ensures forall i | 0 <= i < |s| :: IsDigit(Chars(s)[i])
  {
    if s == [] {
    } else {
      CharsAreDigits(s[1..]);
    }
  }

  /** Where the letter e and the minus sign stand in a layout. */
  lemma {:induction false} LayoutMarks(neg: bool, whole: seq<Digit>, fraction: seq<Digit>, xneg: bool, x: seq<Digit>)
    requires whole != []
    ensures 'e' in Layout(neg, whole, fraction, xneg, x) <==> x != []
    ensures var t := Layout(false, whole, fraction, xneg, x);
            t != [] && t[0] != '-' && Layout(true, whole, fraction, xneg, x) == "-" + t
  {
    CharsAreDigits(whole);
    CharsAreDigits(fraction);
    CharsAreDigits(x);
    var t := Layout(false, whole, fraction, xneg, x);
    assert t == Chars(whole) + (PointText(fraction) + ExponentText(xneg, x));
    assert Layout(true, whole, fraction, xneg, x) == "-" + t;
    hide Chars;
    if x != [] {
      assert 'e' in ExponentText(xneg, x) by {
        assert ExponentText(xneg, x)[0] == 'e';
      }
    } else {
      assert 'e' !in PointText(fraction);
    }
  }

  /** The form with an exponent is used exactly for these; a negative number has a minus sign in front. */
  lemma {:induction false} TextForm(neg: bool, s: seq<Digit>, decpt: int, precision: nat)
    requires s != []
    ensures 'e' in Text(neg, s, decpt, precision) <==> decpt <= -4 || decpt > precision
    ensures var t := Text(false, s, decpt, precision);
            t != [] && t[0] != '-' && Text(true, s, decpt, precision) == "-" + t
  {
    hide Layout, DigitCount, DecVal, Zeros;
    if decpt <= -4 || decpt > precision {
      var x := ExponentDigits(ExponentOf(decpt));
      LayoutMarks(neg, s[..1], s[1..], decpt <= 0, x);
    } else if decpt <= 0 {
      LayoutMarks(neg, [0], Zeros(-decpt) + s, false, []);
    } else if decpt >= |s| {
      LayoutMarks(neg, s + Zeros(decpt - |s|), [], false, []);
    } else {
      LayoutMarks(neg, s[..decpt], s[decpt..], false, []);
    }
  }

  /** The length of the exponent that stands for the point after decpt digits. */
  function ExponentLength(decpt: int): nat {
    Max(2, DigitCount(ExponentOf(decpt)))
  }

  lemma {:induction false} ScientificLayout(neg: bool, whole: seq<Digit>, fraction: seq<Digit>, xneg: bool,
      x: seq<Digit>, front: seq<char>)
    requires front == SignText(neg) + (Chars(whole) + PointText(fraction)) && x != []
    ensures front + ['e'] + [if xneg then '-' else '+'] + Chars(x) == Layout(neg, whole, fraction, xneg, x)
  {
    var c, d := Chars(x), if xneg then '-' else '+';
    hide Chars, SignText, PointText;
    assert front + ['e'] + [d] + c == front + (['e', d] + c);
    JoinRight(SignText(neg), Chars(whole), PointText(fraction), ['e', d] + c);
  }

  lemma {:induction false} JoinRight(p: seq<char>, q: seq<char>, r: seq<char>, t: seq<char>)
    ensures (p + (q + r)) + t == p + (q + (r + t))
  {
    assert (q + r) + t == q + (r + t);
    assert (p + (q + r)) + t == p + ((q + r) + t);
  }

  /** One digit, and the point and the others when there are any. */
  method PutFront(b: array<char>, n: nat, ghost neg: bool, s: seq<Digit>) returns (n': nat)
    requires s != [] && n + |s| + 1 <= b.Length && b[..n] == SignText(neg)
    modifies b
    ensures n' <= n + |s| + 1 && b[..n'] == SignText(neg) + (Chars(s[..1]) + PointText(s[1..]))
  {
    hide Chars;
    CharsSingle(s[0]);
    assert s[..1] == [s[0]];
    n' := Put(b, n, CharOf(s[0]));
    if |s| > 1 {
      n' := Put(b, n', '.');
      n' := PutDigits(b, n', s[1..]);
    }
  }

  /** One digit, the point and the others, and an exponent. */
  method Scientific(b: array<char>, n: nat, ghost neg: bool, s: seq<Digit>, decpt0: int) returns (n': nat)
    requires s != [] && n + |s| + 3 + ExponentLength(decpt0) <= b.Length && b[..n] == SignText(neg)
    modifies b
    ensures n' <= n + |s| + 3 + ExponentLength(decpt0) && n' <= b.Length
    ensures b[..n'] == Layout(neg, s[..1], s[1..], decpt0 <= 0, ExponentDigits(ExponentOf(decpt0)))
  {
    hide DigitCount, DecVal, Chars, SignText, PointText, Layout;
    n' := PutFront(b, n, neg, s);
    ghost var front := b[..n'];
    n' := Put(b, n', 'e');
    var decpt := decpt0 - 1;
    if decpt < 0 {
      n' := Put(b, n', '-');
      decpt := -decpt;
    } else {
      n' := Put(b, n', '+');
    }
    ghost var x;
    n', x := PutExponent(b, n', decpt);
    ScientificLayout(neg, s[..1], s[1..], decpt0 <= 0, x, front);
  }

  /** A zero, the point, more zeros, and the digits. */
  method Fraction(b: array<char>, n: nat, ghost neg: bool, s: seq<Digit>, decpt: int) returns (n': nat)
    requires s != [] && decpt <= 0 && n + 2 - decpt + |s| <= b.Length && b[..n] == SignText(neg)
    modifies b
    ensures n' == n + 2 - decpt + |s| && b[..n'] == Layout(neg, [0], Zeros(-decpt) + s, false, [])
  {
    hide Chars, Zeros;
    CharsSingle(0);
    n' := Put(b, n, '0');
    n' := Put(b, n', '.');
    n' := PutZeros(b, n', -decpt);
    n' := PutDigits(b, n', s);
    CharsAppend(Zeros(-decpt), s);
  }

  /** i digits of s with the point after the first decpt, once it is known that another digit follows. */
  ghost function Pointed(s: seq<Digit>, decpt: nat, i: nat): seq<char>
    requires i <= |s|
  {
    if i < decpt || decpt >= |s| then Chars(s[..i]) else Chars(s[..decpt]) + (['.'] + Chars(s[decpt..i]))
  }

  /** What one digit adds to the text: itself, and the point if it is due and another digit follows. */
  ghost function Piece(s: seq<Digit>, decpt: nat, i: nat): seq<char>
    requires i < |s|
  {
    [CharOf(s[i])] + if i + 1 == decpt && i + 1 < |s| then ['.'] else []
  }

  lemma {:induction false} PointedNext(s: seq<Digit>, decpt: nat, i: nat)
    requires i < |s| && decpt > 0
    ensures Pointed(s, decpt, i + 1)
         == Pointed(s, decpt, i) + Piece(s, decpt, i)
  {
    if i + 1 <= decpt || decpt >= |s| {
      CharsPush(s, i);
      if i + 1 == decpt && i + 1 < |s| {
        assert s[decpt..i + 1] == [];
      }
    } else {
      assert s[decpt..][..i + 1 - decpt] == s[decpt..i + 1] && s[decpt..][..i - decpt] == s[decpt..i];
      CharsPush(s[decpt..], i - decpt);
    }
  }

  lemma {:induction false} PointedWhole(neg: bool, s: seq<Digit>, decpt: nat)
    requires s != [] && decpt > 0
    ensures decpt < |s| ==> SignText(neg) + Pointed(s, decpt, |s|) == Layout(neg, s[..decpt], s[decpt..], false, [])
    ensures decpt >= |s| ==> (
              SignText(neg) + Pointed(s, decpt, |s|) + Chars(Zeros(decpt - |s|))
              == Layout(neg, s + Zeros(decpt - |s|), [], false, []))
  {
    hide Chars, Zeros;
    if decpt < |s| {
      assert s[decpt..|s|] == s[decpt..];
    } else {
      assert s[..|s|] == s;
      CharsAppend(s, Zeros(decpt - |s|));
    }
  }

  ghost function Behind(front: seq<char>, s: seq<Digit>, decpt: nat, i: nat): seq<char>
    requires i <= |s|
  {
    front + Pointed(s, decpt, i)
  }

  lemma {:induction false} BehindNone(front: seq<char>, s: seq<Digit>, decpt: nat)
    requires decpt > 0
    ensures Behind(front, s, decpt, 0) == front
  {
    PointedNone(s, decpt);
  }

  lemma {:induction false} BehindNext(front: seq<char>, s: seq<Digit>, decpt: nat, i: nat)
    requires i < |s| && decpt > 0
    ensures Behind(front, s, decpt, i + 1) == Behind(front, s, decpt, i) + Piece(s, decpt, i)
    ensures |Piece(s, decpt, i)| == if i + 1 == decpt && i + 1 < |s| then 2 else 1
  {
    PointedNext(s, decpt, i);
  }

  lemma {:induction false} BehindIs(front: seq<char>, s: seq<Digit>, decpt: nat)
    ensures Behind(front, s, decpt, |s|) == front + Pointed(s, decpt, |s|)
  {
  }

  method PutPiece(b: array<char>, n: nat, s: seq<Digit>, i: nat, decpt: int) returns (n': nat)
    requires i < |s| && n + 1 + (if decpt == 1 && i + 1 < |s| then 1 else 0) <= b.Length && decpt + i > 0
    modifies b
    ensures n' == n + |Piece(s, decpt + i, i)| && b[..n'] == old(b[..n]) + Piece(s, decpt + i, i)
  {
    n' := Put(b, n, CharOf(s[i]));
    if decpt - 1 == 0 && i + 1 < |s| {
      n' := Put(b, n', '.');
    }
  }

  /** The digits with the point among them. */
  method PutPointed(b: array<char>, n: nat, s: seq<Digit>, decpt0: int) returns (n': nat, decpt: int)
    requires s != [] && decpt0 > 0 && n + |s| + (if decpt0 < |s| then 1 else 0) <= b.Length
    modifies b
    ensures decpt == decpt0 - |s| && n' == n + |s| + if decpt0 < |s| then 1 else 0
    ensures b[..n'] == old(b[..n]) + Pointed(s, decpt0, |s|)
  {
    hide Chars, Pointed, Piece, Behind;
    decpt := decpt0;
    n' := n;
    ghost var front := b[..n];
    BehindNone(front, s, decpt0);
    var i := 0;
    while i < |s|
      invariant 0 <= i <= |s| && decpt == decpt0 - i && n' <= b.Length
      invariant n' == n + i + if i >= decpt0 && decpt0 < |s| then 1 else 0
      invariant b[..n'] == Behind(front, s, decpt0, i)
    {
      BehindNext(front, s, decpt0, i);
      n' := PutPiece(b, n', s, i, decpt);
      i := i + 1;
      decpt := decpt - 1;
    }
    BehindIs(front, s, decpt0);
  }

  /** The digits with the point among them, or followed by zeros. */
  method Plain(b: array<char>, n: nat, ghost neg: bool, s: seq<Digit>, decpt0: int) returns (n': nat)
    requires s != [] && decpt0 > 0 && n + Max(decpt0, |s| + 1) <= b.Length && b[..n] == SignText(neg)
    modifies b
    ensures n' == n + if decpt0 < |s| then |s| + 1 else decpt0
    ensures b[..n'] == if decpt0 >= |s| then Layout(neg, s + Zeros(decpt0 - |s|), [], false, [])
                       else Layout(neg, s[..decpt0], s[decpt0..], false, [])
  {
    hide Chars, Zeros, Pointed, Layout, SignText;
    PointedWhole(neg, s, decpt0);
    var decpt;
    n', decpt := PutPointed(b, n, s, decpt0);
    if decpt >= 0 {
      n' := PutZeros(b, n', decpt);
    }
  }

  lemma {:induction false} PointedNone(s: seq<Digit>, decpt: int)
    requires decpt > 0
    ensures Pointed(s, decpt, 0) == []
  {
    assert s[..0] == [];
  }

  /** The space for a number of the given precision with the point after decpt digits, without the closing NUL. */
  function Room(precision: nat, decpt: int): nat {
    1 + Max(precision + 3 + ExponentLength(decpt), precision + 5)
  }

  /** fpconv_g_fmt for the digits s, their point, and the precision they were made with. */
  method Format(b: array<char>, neg: bool, s: seq<Digit>, decpt: int, precision: nat) returns (n: nat)
    requires s != [] && |s| <= precision && Room(precision, decpt) <= b.Length
    modifies b
    ensures n <= Room(precision, decpt) && b[..n] == Text(neg, s, decpt, precision)
    ensures Denotes(b[..n], neg, s, decpt)
  {
    hide Denotes, DigitCount, DecVal, Chars, Layout, Zeros, ExponentDigits;
    TextDenotes(neg, s, decpt, precision);
    n := 0;
    if neg {
      n := Put(b, n, '-');
    }
    if decpt <= -4 || decpt > precision {
      n := Scientific(b, n, neg, s, decpt);
    } else if decpt <= 0 {
      n := Fraction(b, n, neg, s, decpt);
    } else {
      n := Plain(b, n, neg, s, decpt);
    }
  }

  /** At most 14 digits and a point within 999 places fit in 21 characters. */
  lemma {:induction false} FitsIn21(precision: nat, decpt: int)
    requires precision <= 14 && -998 <= decpt <= 1000
    ensures Room(precision, decpt) <= 21
  {
    var x := if decpt <= 0 then 1 - decpt else decpt - 1;
    assert x < 10 ==> DigitCount(x) == 1;
    assert x < 100 ==> DigitCount(x / 10) == 1;
    assert x / 10 < 100 && x / 10 / 10 < 10;
    assert DigitCount(x / 10 / 10) == 1;
    assert DigitCount(x / 10) <= 2;
  }
}
