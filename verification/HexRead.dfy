/** From the digits of a hexadecimal literal to the two words of a double. */
module HexRead {
  import opened Arith
  import opened Words
  import opened WordLoops
  import opened Bigints
  import opened BigintDiv
  import opened Doubles
  import opened HexRound

  /** The bound of the overflow test, and the high word of an infinity. */
  const EMAXTEST: int := 1023
  const EXPMASK: Word := 0x7ff0_0000

  predicate IsHex(c: char) {
    '0' <= c <= '9' || 'a' <= c <= 'f' || 'A' <= c <= 'F'
  }

  function HexVal(c: char): (d: nat)
    requires IsHex(c)
    ensures d < 16
  {
    if c <= '9' then (c - '0') as nat else if c <= 'F' then (c - 'A') as nat + 10 else (c - 'a') as nat + 10
  }

  predicate HexText(s: seq<char>) {
    forall i | 0 <= i < |s| :: IsHex(s[i]) || s[i] == '.'
  }

  ghost function Digits(s: seq<char>): nat {
    if s == [] then 0 else (if s[0] == '.' then 0 else 1) + Digits(s[1..])
  }

  /** The natural that the digits stand for, the point left out. */
  ghost function HexValue(s: seq<char>): nat
    requires HexText(s)
  {
    if s == [] then 0
    else if s[0] == '.' then HexValue(s[1..])
    else
      MulNonnegative(HexVal(s[0]), Exp2(4 * Digits(s[1..])));
      HexVal(s[0]) * Exp2(4 * Digits(s[1..])) + HexValue(s[1..])
  }

  const LOWER := "0123456789abcdef"
  const UPPER := "0123456789ABCDEF"

  /** v in hexadecimal. */
  function Spelled(v: nat, upper: bool): (s: seq<char>)
    ensures s != []
  {
    var c := if upper then UPPER[v % 16] else LOWER[v % 16];
    if v < 16 then [c] else Spelled(v / 16, upper) + [c]
  }

  lemma {:induction false} CharValue(d: nat)
    requires d < 16
    ensures IsHex(LOWER[d]) && HexVal(LOWER[d]) == d && IsHex(UPPER[d]) && HexVal(UPPER[d]) == d
  {
    assert LOWER == ['0', '1', '2', '3', '4', '5', '6', '7', '8', '9', 'a', 'b', 'c', 'd', 'e', 'f'];
    assert UPPER == ['0', '1', '2', '3', '4', '5', '6', '7', '8', '9', 'A', 'B', 'C', 'D', 'E', 'F'];
  }

  /** One more digit behind. */
  lemma {:induction false} HexPush(s: seq<char>, c: char)
    requires HexText(s) && IsHex(c)
    ensures HexText(s + [c]) && Digits(s + [c]) == Digits(s) + 1 && HexValue(s + [c]) == 16 * HexValue(s) + HexVal(c)
  {
    assert Exp2(4) == 16 && Exp2(0) == 1;
    if s == [] {
      assert [] + [c] == [c] && [c][1..] == [];
      assert HexValue([c]) == HexVal(c) * Exp2(4 * Digits([])) + HexValue([]);
    } else {
      var t := s[1..];
      assert (s + [c])[1..] == t + [c];
      HexPush(t, c);
      if s[0] != '.' {
        Exp2Add(4, 4 * Digits(t));
        MulAssoc(HexVal(s[0]), 16, Exp2(4 * Digits(t)));
        MulAssoc(16, HexVal(s[0]), Exp2(4 * Digits(t)));
      }
    }
  }

  /** Digits in either case, with a point anywhere left out, are read as the number that they spell. */
  lemma {:induction false} SpelledValue(v: nat, upper: bool)
    ensures HexText(Spelled(v, upper)) && HexValue(Spelled(v, upper)) == v
  {
    var c := if upper then UPPER[v % 16] else LOWER[v % 16];
    CharValue(v % 16);
    if v < 16 {
      assert [] + [c] == [c];
      HexPush([], c);
    } else {
      SpelledValue(v / 16, upper);
      HexPush(Spelled(v / 16, upper), c);
    }
  }

  /** A point does not count. */
  lemma {:induction false} PointValue(s: seq<char>, i: nat)
    requires HexText(s) && i <= |s|
    ensures HexText(s[..i] + ['.'] + s[i..]) && HexValue(s[..i] + ['.'] + s[i..]) == HexValue(s)
    ensures Digits(s[..i] + ['.'] + s[i..]) == Digits(s)
    decreases i
  {
    var t := s[..i] + ['.'] + s[i..];
    if i == 0 {
      assert t == ['.'] + s && t[1..] == s;
    } else {
      var u := s[1..];
      PointValue(u, i - 1);
      assert t[1..] == u[..i - 1] + ['.'] + u[i - 1..];
    }
  }

  lemma {:induction false} DigitsBound(s: seq<char>)
    ensures Digits(s) <= |s|
  {
    if s == [] {
    } else {
      DigitsBound(s[1..]);
    }
  }

  /** The smallest class whose blocks hold all the digits. */
  method ClassFor(len: nat) returns (k: nat)
    requires len > 0
    ensures len <= 8 * Exp2(k)
  {
    var n := len - 1;
    k := 0;
    while n > 7
      invariant n * Exp2(k) <= len - 1 < (n + 1) * Exp2(k)
    {
      Halve(n, Exp2(k), len - 1);
      n, k := n / 2, k + 1;
    }
    MulMonotone(n + 1, 8, Exp2(k));
  }

  lemma {:induction false} Halve(n: nat, p: nat, v: int)
    requires n * p <= v < (n + 1) * p
    ensures (n / 2) * (2 * p) <= v < (n / 2 + 1) * (2 * p)
  {
    MulAssoc(n / 2, 2, p);
    MulAssoc(n / 2 + 1, 2, p);
    MulMonotone(n / 2 * 2, n, p);
    MulMonotone(n + 1, (n / 2 + 1) * 2, p);
  }

  /** Adding a digit above the digits read so far. */
  lemma {:induction false} DigitStep(words: nat, n: nat, d: nat, high: int, digits: nat)
    requires 4 * digits == 32 * words + n && 0 <= high < Exp2(n)
    ensures Up(high + d * Exp2(n), words) == Up(high, words) + d * Exp2(4 * digits)
    ensures d < 16 ==> high + d * Exp2(n) < Exp2(n + 4)
  {
    UpSum(high, d * Exp2(n), words);
    UpIsShift(d * Exp2(n), words);
    MulAssoc(d, Exp2(n), Exp2(32 * words));
    Exp2Add(n, 32 * words);
    Exp2Add(4, n);
    assert Exp2(4) == 16;
    if d < 16 {
      MulMonotone(d, 15, Exp2(n));
    }
  }

  /** Packs the digits of s, the last ones into the lowest word. */
  method PackDigits(pool: Pool, s: seq<char>) returns (b: Bigint)
    requires pool.Valid() && HexText(s) && s != [] && IsHex(s[0]) && HexVal(s[0]) != 0
    modifies pool.spare
    ensures pool.Valid() && pool.powers == old(pool.powers)
    ensures b !in old(pool.held) && pool.held == old(pool.held) + {b} && pool.Owned(b)
    ensures b.Norm() && b.Value() == HexValue(s) > 0
    ensures fresh(pool.spare + {b, b.x} - old(pool.spare))
  {
    hide Disjoint, Fives, Lists, Spared, Linked;
    var k := ClassFor(|s|);
    b := pool.Balloc(k);
    pool.HeldApart(b);
    DigitsInto(b, s);
  }

  /** Writes the words from the lowest up; a full word is stored when the next digit needs a new one. */
  method DigitsInto(b: Bigint, s: seq<char>)
    requires b.Sized() && |s| <= 8 * b.maxwds && HexText(s) && s != [] && IsHex(s[0]) && HexVal(s[0]) != 0
    modifies b`wds, b.x
    ensures b.Norm() && b.wds > 0 && b.Value() == HexValue(s) > 0
  {
    hide Placed, HexValue, Val, Up, Exp2, Digits, HexVal;
    var w: nat, n: nat, i := 0, 0, |s|;
    var high: Word := 0;
    PlacedNone();
    assert s[|s|..] == [];
    while i > 0
      invariant 0 <= i <= |s| && w <= b.maxwds
      invariant Placed(s[i..], b.x[..w], high, w, n)
      invariant i == 0 ==> high > 0
    {
      i := i - 1;
      var c := s[i];
      ghost var rest := s[i + 1..];
      assert s[i..] == [c] + rest;
      if c != '.' {
        DigitsBound([c] + rest);
        high, n, w := PackDigit(b, c, rest, high, n, w);
      } else {
        PlacedPoint(rest, b.x[..w], high, w, n);
      }
    }
    assert s[0..] == s;
    DigitsBound(s);
    PlacedEnd(s, b.x[..w], high, w, n, b.maxwds);
    ghost var lo := b.x[..w];
    b.x[w] := high;
    b.wds := w + 1;
    assert b.x[..w + 1] == lo + [high];
  }

  /** Puts one more digit above those packed so far. */
  method PackDigit(b: Bigint, c: char, ghost rest: seq<char>, high: Word, n: nat, w: nat)
    returns (high': Word, n': nat, w': nat)
    requires b.Sized() && IsHex(c) && w <= b.maxwds && Placed(rest, b.x[..w], high, w, n)
    requires Digits([c] + rest) <= 8 * b.maxwds
    modifies b.x
    ensures w' <= b.maxwds && Placed([c] + rest, b.x[..w'], high', w', n')
    ensures HexVal(c) != 0 ==> high' > 0
  {
    hide Placed, HexValue, Val, Up, Exp2, Digits;
    high', n', w' := high, n, w;
    PlacedRoom(c, rest, b.x[..w], high, w, n, b.maxwds);
    if n == 32 {
      ghost var lo := b.x[..w];
      b.x[w] := high;
      assert b.x[..w + 1] == lo + [high];
      PlacedFull(rest, lo, high, w);
      high', n', w' := 0, 0, w + 1;
    }
    PlacedDigit(c, rest, b.x[..w'], high', w', n');
    high' := high' + HexVal(c) * Exp2(n');
    n' := n' + 4;
  }

  /** The digits of s fill the words lo and n bits of high. */
  ghost predicate Placed(s: seq<char>, lo: seq<Word>, high: int, w: nat, n: nat) {
    && HexText(s) && |lo| == w && 4 * Digits(s) == 32 * w + n && n <= 32
    && 0 <= high < Exp2(n) && HexValue(s) == Val(lo) + Up(high, w)
  }

  lemma {:induction false} PlacedNone()
    ensures Placed([], [], 0, 0, 0)
  {
    assert Exp2(0) == 1;
  }

  lemma {:induction false} PlacedRoom(c: char, s: seq<char>, lo: seq<Word>, high: int, w: nat, n: nat, maxwds: nat)
    requires Placed(s, lo, high, w, n) && Digits([c] + s) <= 8 * maxwds && c != '.'
    ensures w < maxwds && (n == 32 ==> w + 1 < maxwds) && n <= 32
    ensures n < 32 ==> n + 4 <= 32
  {
    assert ([c] + s)[1..] == s;
  }

  lemma {:induction false} PlacedEnd(s: seq<char>, lo: seq<Word>, high: Word, w: nat, n: nat, maxwds: nat)
    requires Placed(s, lo, high, w, n) && Digits(s) <= 8 * maxwds && high > 0
    ensures w < maxwds && HexValue(s) == Val(lo + [high]) > 0
    ensures w == 0 ==> HexValue(s) != 0
  {
    assert Exp2(0) == 1;
    ValPush(lo, high);
    UpMonotone(0, high, w);
    UpZero(w);
  }

  lemma {:induction false} PlacedFull(s: seq<char>, lo: seq<Word>, high: Word, w: nat)
    requires Placed(s, lo, high, w, 32)
    ensures Placed(s, lo + [high], 0, w + 1, 0)
  {
    ValPush(lo, high);
    UpZero(w + 1);
    assert Exp2(0) == 1;
  }

  lemma {:induction false} PlacedDigit(c: char, s: seq<char>, lo: seq<Word>, high: int, w: nat, n: nat)
    requires IsHex(c) && Placed(s, lo, high, w, n) && n < 32
    ensures 0 <= high + HexVal(c) * Exp2(n) < BASE
    ensures Placed([c] + s, lo, high + HexVal(c) * Exp2(n), w, n + 4)
    ensures HexVal(c) != 0 ==> high + HexVal(c) * Exp2(n) > 0
  {
    var d := HexVal(c);
    DigitStep(w, n, d, high, Digits(s));
    assert ([c] + s)[1..] == s;
    MulNonnegative(d, Exp2(n));
    if d > 0 {
      MulPositive(d, Exp2(n));
    }
    Exp2Monotone(n + 4, 32);
    SmallShifts();
  }

  lemma {:induction false} PlacedPoint(s: seq<char>, lo: seq<Word>, high: int, w: nat, n: nat)
    requires Placed(s, lo, high, w, n)
    ensures Placed(['.'] + s, lo, high, w, n)
  {
    assert (['.'] + s)[1..] == s;
  }

  // ---- Below the normal range ----

  /** The branch for a literal that is n >= 53 places below the smallest unit: the smallest number or zero. */
  predicate TinyChosen(top: nat, n: nat, mode: Rounding, negative: bool) {
    match mode
    case Zero => false
    case Near => n == NBITS && top % Exp2(n - 1) != 0
    case Upward => !negative
    case Downward => negative
  }

  method Tiny(b: Bigint, n: nat, mode: Rounding, negative: bool) returns (tiny: bool)
    requires b.Ok() && n >= NBITS
    ensures tiny == TinyChosen(b.Value(), n, mode, negative)
  {
    hide Exp2;
    tiny := false;
    match mode
    case Zero =>
    case Near =>
      if n == NBITS {
        tiny := AnyOn(b, n - 1);
      }
    case Upward => tiny := !negative;
    case Downward => tiny := negative;
  }

  /** What n more bits cut off, given what was lost before. */
  method LostAgain(b: Bigint, lost0: nat, n: nat, ghost w: nat, ghost c: nat) returns (lost: nat)
    requires b.Ok() && 0 < n && (n - 1) / 32 < b.wds && b.Value() == w / Exp2(c) && lost0 == LostBelow(w, c)
    ensures lost == Lost(w, c + n) <= 3
  {
    hide Lost, LostBelow, Exp2;
    var k := n - 1;
    lost := lost0;
    var low := AnyOn(b, k);
    if lost != 0 {
      lost := 1;
    } else if k > 0 {
      lost := if low then 1 else 0;
    }
    var bit := BitAt(b, k);
    NothingBelow(b.Value());
    LostFurther(w, c, n, bit, b.Value() % Exp2(k));
    lost := lost + 2 * bit;
  }

  lemma {:induction false} NothingBelow(v: nat)
    ensures v % Exp2(0) == 0
  {
  }

  /** The fraction words of b, where the bit of the smallest normal number is cleared. */
  method FractionWords(b: Bigint) returns (word0: Word, word1: Word)
    requires b.Norm() && 0 < b.Value() <= Exp2(NBITS - 1)
    ensures if b.Value() == Exp2(NBITS - 1) then word0 == 0 == word1
            else word0 < 0x10_0000 && word0 * BASE + word1 == b.Value()
  {
    hide Exp2;
    Fifty();
    AtMostTwoWords(b);
    word0, word1 := 0, b.x[0];
    if b.wds > 1 {
      word0 := b.x[1] % 0x10_0000;
    }
  }

  lemma {:induction false} AtMostTwoWords(b: Bigint)
    requires b.Norm() && 0 < b.Value() <= 0x10_0000 * BASE
    ensures 1 <= b.wds <= 2 && b.Value() == b.x[0] + if b.wds == 2 then BASE * b.x[1] else 0
    ensures b.wds == 2 ==> b.x[1] <= 0x10_0000
  {
    var s := b.x[..b.wds];
    ValBound(s);
    UpGrows(1, 2, Max(b.wds, 3) - 1);
    assert Up(1, 0) == 1 && Up(1, 1) == BASE && Up(1, 2) == BASE * BASE;
    if b.wds > 2 {
      TopNonzero(s);
    } else if b.wds == 2 {
      ValPrefix(s, 1);
      ValSingle(s);
      assert s[..2] == s;
    } else if b.wds == 1 {
      ValSingle(s);
      assert s[..1] == s;
    }
  }

  /** Shifts the 53 bits down by n < 53 places, rounds them, and leaves out a carry into the normal range. */
  method Denormal(pool: Pool, b0: Bigint, lost0: nat, n: nat, mode: Rounding, negative: bool,
                  ghost w: nat, ghost c: nat)
    returns (b: Bigint, word0: Word, word1: Word)
    requires pool.Valid() && pool.Owned(b0) && b0.Norm() && Exp2(NBITS - 1) <= b0.Value() < Exp2(NBITS)
    requires 0 < n < NBITS && b0.Value() == w / Exp2(c) && lost0 == LostBelow(w, c)
    modifies pool.spare, b0, b0.x
    ensures pool.Valid() && pool.powers == old(pool.powers) && pool.Owned(b)
    ensures pool.held == old(pool.held) - {b0} + {b} && (b == b0 || b !in old(pool.held))
    ensures fresh(pool.spare + {b, b.x} - old(pool.spare) - {b0, b0.x})
    ensures var r := Rounded(w, Exp2(c + n), mode, negative);
            if r == Exp2(NBITS - 1) then word0 == 0 == word1
            else r < Exp2(NBITS - 1) && word0 < 0x10_0000 && word0 * BASE + word1 == r
  {
    hide Disjoint, Fives, Lists, Spared, Linked, Val, Exp2, Lost, LostBelow, Rounded, RoundUp;
    b := b0;
    TwoWords(b);
    ghost var q := b.Value();
    pool.HeldApart(b);
    var lost := LostAgain(b, lost0, n, w, c);
    Rshift(b, n);
    assert pool.Valid();
    CutTwice(w, c, n);
    LostDecides(w, c + n, mode, negative);
    ShiftedRange(q, n);
    NonzeroHasWords(b);
    LowestBit(b);
    var up := RoundUp(lost, b.x[0], mode, negative);
    SameParity(lost, b.x[0], b.Value(), mode, negative);
    if up {
      b := Increment(pool, b);
    }
    word0, word1 := FractionWords(b);
  }

  lemma {:induction false} ShiftedRange(q: nat, n: nat)
    requires Exp2(NBITS - 1) <= q < Exp2(NBITS) && 0 < n < NBITS
    ensures 0 < q / Exp2(n) < Exp2(NBITS - 1)
  {
    hide Exp2;
    var m := Exp2(n);
    Exp2Monotone(n, NBITS - 1);
    Exp2Add(NBITS - n, n);
    Exp2Monotone(NBITS - n, NBITS - 1);
    DivBounds(q, m);
    MulCancel(q / m, Exp2(NBITS - n), m);
  }

  /** The parity of a number shows in its lowest word. */
  lemma {:induction false} LowestBit(b: Bigint)
    requires b.Ok() && b.wds > 0
    ensures b.Value() % 2 == b.x[0] % 2
  {
    var s := b.x[..b.wds];
    ValSplit(s, 1);
    ValSingle(s);
    hide Val;
    assert Up(Val(s[1..]), 1) == BASE * Val(s[1..]);
  }

  lemma {:induction false} SameParity(lost: nat, a: nat, b: nat, mode: Rounding, negative: bool)
    requires a % 2 == b % 2
    ensures RoundUp(lost, a, mode, negative) == RoundUp(lost, b, mode, negative)
  {
  }

  // ---- What is right ----

  predicate IsInfinity(word0: Word, word1: Word) {
    word0 == EXPMASK && word1 == 0
  }

  /** The words denote m * 2^e. */
  predicate Denote(word0: Word, word1: Word, m: nat, e: int) {
    Finite(word0) && !Negative(word0) && Significand(word0, word1) == m && Unit(word0) == e
  }

  /** The literal is below the smallest normal number and rounds to it. */
  ghost predicate RoundsToNormal(v: nat, e0: int, mode: Rounding, negative: bool) {
    TopExponent(v, e0) < EMIN && RoundedAt(v, e0, EMIN, mode, negative) == Exp2(NBITS - 1)
  }

  /** To the nearest: the literal is above half the smallest unit, by less than the 53 highest bits show. */
  ghost predicate JustAboveHalf(v: nat, e0: int, mode: Rounding) {
    && mode == Near && TopExponent(v, e0) == EMIN - NBITS
    && TopBits53(v) == Exp2(NBITS - 1) && LostBelow(Widened(v), ExtraBits(v)) != 0
  }

  /** A block is not given back when the smallest number is returned for a literal far below it. */
  ghost predicate LeavesBlock(v: nat, e0: int, word0: Word, word1: Word) {
    TopExponent(v, e0) <= EMIN - NBITS && word0 == 0 && word1 == 1
  }

  /** What the code delivers, compared with the right result. */
  ghost predicate Delivered(v: nat, e0: int, mode: Rounding, negative: bool, word0: Word, word1: Word) {
    var (m, e) := Best(v, e0, mode, negative);
    if e <= EMAX then
      if RoundsToNormal(v, e0, mode, negative) || JustAboveHalf(v, e0, mode) then
        word0 == 0 == word1
      else
        Denote(word0, word1, m, e)
    else if e > EMAXTEST then
      IsInfinity(word0, word1)
    else
      Exp2(NBITS - 1) <= m < Exp2(NBITS) && word1 == m % BASE && word0 == m / BASE - 0x10_0000 + (e + 1075) * 0x10_0000
  }

  lemma {:induction false} BitLenBounds(v: nat)
    requires v > 0
    ensures BitLen(v) > 0 && Exp2(BitLen(v) - 1) <= v < Exp2(BitLen(v))
  {
    if v > 1 {
      BitLenBounds(v / 2);
    } else {
      assert BitLen(v / 2) == 0 && Exp2(0) == 1;
    }
  }

  /** The widened literal has 53 bits above its extra ones. */
  lemma {:induction false} WidenedRange(v: nat)
    requires v > 0
    ensures var c := ExtraBits(v); Exp2(c + NBITS - 1) <= Widened(v) < Exp2(c + NBITS)
  {
    hide BitLen, Exp2, Widened, ExtraBits;
    BitLenBounds(v);
    WidenedCases(v);
    if BitLen(v) <= NBITS {
      ShiftBits(v, BitLen(v), NBITS - BitLen(v));
    }
  }

  lemma {:induction false} WidenedCases(v: nat)
    ensures BitLen(v) <= NBITS ==> Widened(v) == v * Exp2(NBITS - BitLen(v)) && ExtraBits(v) == 0
    ensures BitLen(v) >= NBITS ==> Widened(v) == v && ExtraBits(v) == BitLen(v) - NBITS
  {
    ExpZero();
  }

  /** Far below the smallest unit the rounding is a choice between zero and one. */
  lemma {:induction false} FarBelow(w: nat, c: nat, n: nat, mode: Rounding, negative: bool)
    requires n >= NBITS && Exp2(c + NBITS - 1) <= w < Exp2(c + NBITS)
    ensures var one := match mode
                       case Zero => false
                       case Near => n == NBITS && w != Exp2(c + NBITS - 1)
                       case Upward => !negative
                       case Downward => negative;
            Rounded(w, Exp2(c + n), mode, negative) == if one then 1 else 0
  {
    Exp2Monotone(c + NBITS, c + n);
    assert Exp2(c + n) == 2 * Exp2(c + n - 1);
    Exp2Monotone(c + NBITS - 1, c + n - 1);
    if n > NBITS {
      Exp2Monotone(c + NBITS, c + n - 1);
    }
    DivModUnique(w, Exp2(c + n), 0, w);
  }

  /** Above half: the 53 highest bits are more than their first, or something was lost below them. */
  lemma {:induction false} AboveHalf(w: nat, c: nat)
    requires Exp2(c + NBITS - 1) <= w < Exp2(c + NBITS)
    ensures w == Exp2(c + NBITS - 1) <==> w / Exp2(c) == Exp2(NBITS - 1) && LostBelow(w, c) == 0
    ensures Exp2(NBITS - 1) <= w / Exp2(c) < Exp2(NBITS)
  {
    LostNothing(w, c);
    hide Exp2, LostBelow;
    var p, q, r := Exp2(c), w / Exp2(c), w % Exp2(c);
    Exp2Add(NBITS - 1, c);
    Exp2Add(NBITS, c);
    CutRange(w, p, Exp2(NBITS - 1), Exp2(NBITS));
  }

  lemma {:induction false} CutRange(w: nat, p: nat, a: nat, b: nat)
    requires p > 0 && a * p <= w < b * p
    ensures w == a * p <==> w / p == a && w % p == 0
    ensures a <= w / p < b
  {
    DivBounds(w, p);
    MulCancel(w / p, b, p);
    MulCancel(a, w / p + 1, p);
    if w == a * p {
      DivModUnique(w, p, a, 0);
    }
    assert w == w / p * p + w % p;
  }

  /** A number of 53 bits has only its first bit set when the others are zero. */
  lemma {:induction false} FirstBitOnly(q: nat)
    requires Exp2(NBITS - 1) <= q < Exp2(NBITS)
    ensures q % Exp2(NBITS - 1) != 0 <==> q != Exp2(NBITS - 1)
  {
    assert Exp2(NBITS) == 2 * Exp2(NBITS - 1);
    hide Exp2;
    DivModUnique(q, Exp2(NBITS - 1), 1, q - Exp2(NBITS - 1));
  }

  /** What the branch far below the smallest unit delivers. */
  lemma {:induction false} TinyDelivered(v: nat, e0: int, mode: Rounding, negative: bool, tiny: bool)
    requires v > 0 && TopExponent(v, e0) <= EMIN - NBITS
    requires tiny == TinyChosen(TopBits53(v), EMIN - TopExponent(v, e0), mode, negative)
    ensures Delivered(v, e0, mode, negative, 0, if tiny then 1 else 0)
  {
    hide Exp2, Widened, ExtraBits, TopExponent, LostBelow, RoundedAt, Rounded;
    var w, c, n := Widened(v), ExtraBits(v), EMIN - TopExponent(v, e0);
    WidenedRange(v);
    FarBelow(w, c, n, mode, negative);
    AboveHalf(w, c);
    FirstBitOnly(w / Exp2(c));
    RoundedWidened(v, e0, n, mode, negative);
    Fifty();
    assert Denote(0, 0, 0, EMIN) && Denote(0, 1, 1, EMIN);
  }

  lemma {:induction false} FractionDenotes(word0: Word, word1: Word)
    requires word0 < 0x10_0000
    ensures Denote(word0, word1, word0 * BASE + word1, EMIN)
  {
  }

  lemma {:induction false} BestBelow(v: nat, e0: int, mode: Rounding, negative: bool, r: nat)
    requires TopExponent(v, e0) < EMIN && r == RoundedAt(v, e0, EMIN, mode, negative) <= Exp2(NBITS - 1)
    ensures Best(v, e0, mode, negative) == (r, EMIN)
    ensures RoundsToNormal(v, e0, mode, negative) <==> r == Exp2(NBITS - 1)
  {
    assert Exp2(NBITS) == 2 * Exp2(NBITS - 1);
  }

  /** What the branch just below the normal range delivers. */
  lemma {:induction false} DenormalDelivered(v: nat, e0: int, mode: Rounding, negative: bool, word0: Word, word1: Word)
    requires v > 0 && EMIN - NBITS < TopExponent(v, e0) < EMIN
    requires var r := Rounded(Widened(v), Exp2(ExtraBits(v) + (EMIN - TopExponent(v, e0))), mode, negative);
             if r == Exp2(NBITS - 1) then word0 == 0 == word1
             else r < Exp2(NBITS - 1) && word0 < 0x10_0000 && word0 * BASE + word1 == r
    ensures Delivered(v, e0, mode, negative, word0, word1)
  {
    RoundedWidened(v, e0, EMIN - TopExponent(v, e0), mode, negative);
    hide Exp2, Widened, ExtraBits, TopExponent, LostBelow, RoundedAt, Rounded, Best, RoundsToNormal, Denote;
    BestBelow(v, e0, mode, negative, RoundedAt(v, e0, EMIN, mode, negative));
    if word0 < 0x10_0000 {
      FractionDenotes(word0, word1);
    }
  }

  /** What the normal branch delivers. */
  lemma {:induction false} NormalDelivered(v: nat, e0: int, mode: Rounding, negative: bool, r: nat, e: int,
                                           word0: Word, word1: Word)
    requires v > 0 && TopExponent(v, e0) >= EMIN && Best(v, e0, mode, negative) == (r, e)
    requires EMIN <= e && Exp2(NBITS - 1) <= r < Exp2(NBITS)
    requires if e > EMAXTEST then IsInfinity(word0, word1)
             else word1 == r % BASE && word0 == r / BASE - 0x10_0000 + (e + 1075) * 0x10_0000
    ensures Delivered(v, e0, mode, negative, word0, word1)
  {
    Fifty();
    hide Exp2, TopExponent, LostBelow, RoundedAt, Rounded, TopBits53, Best;
  }

  /** The words for 53 bits with their exponent. */
  method NormalWords(b: Bigint, e: int) returns (word0: Word, word1: Word)
    requires b.Norm() && Exp2(NBITS - 1) <= b.Value() < Exp2(NBITS) && EMIN <= e
    ensures if e > EMAXTEST then IsInfinity(word0, word1)
            else word1 == b.Value() % BASE && word0 == b.Value() / BASE - 0x10_0000 + (e + 1075) * 0x10_0000
  {
    hide Exp2;
    TwoWords(b);
    Fifty();
    if e > EMAXTEST {
      word0, word1 := EXPMASK, 0;
    } else {
      word0, word1 := b.x[1] - 0x10_0000 + (e + 1075) * 0x10_0000, b.x[0];
    }
  }

  /** The exponent of the 53 bits is that of a normal number or above. */
  method Normal(pool: Pool, b0: Bigint, e0: int, lost: nat, mode: Rounding, negative: bool, ghost v: nat, ghost x0: int)
    returns (b: Bigint, word0: Word, word1: Word)
    requires pool.Valid() && pool.Owned(b0) && b0.Norm() && Exp2(NBITS - 1) <= b0.Value() < Exp2(NBITS)
    requires v > 0 && b0.Value() == TopBits53(v) && e0 == TopExponent(v, x0) >= EMIN
    requires lost == LostBelow(Widened(v), ExtraBits(v)) <= 3
    modifies pool.spare, b0, b0.x
    ensures pool.Valid() && pool.powers == old(pool.powers) && pool.Owned(b)
    ensures pool.held == old(pool.held) - {b0} + {b} && (b == b0 || b !in old(pool.held))
    ensures fresh(pool.spare + {b, b.x} - old(pool.spare) - {b0, b0.x})
    ensures Delivered(v, x0, mode, negative, word0, word1)
  {
    hide Disjoint, Fives, Lists, Spared, Linked, Val, Exp2, Delivered, Best, TopExponent, TopBits53, Widened, ExtraBits,
      LostBelow, RoundUp, IsInfinity;
    var e;
    b, e := RoundLast(pool, b0, e0, lost, mode, negative);
    RoundsTop(v, x0, mode, negative, b.Value(), e);
    hide Fitted;
    word0, word1 := NormalWords(b, e);
    NormalDelivered(v, x0, mode, negative, b.Value(), e, word0, word1);
  }

  /** The overflow test comes first, and then the test for a number below the normal range. */
  method Deliver(pool: Pool, b0: Bigint, e: int, lost: nat, mode: Rounding, negative: bool, ghost v: nat, ghost x0: int)
    returns (b: Bigint, word0: Word, word1: Word, leaves: bool)
    requires pool.Valid() && pool.Owned(b0) && b0.Norm() && Exp2(NBITS - 1) <= b0.Value() < Exp2(NBITS)
    requires v > 0 && b0.Value() == TopBits53(v) && e == TopExponent(v, x0)
    requires lost == LostBelow(Widened(v), ExtraBits(v)) <= 3
    modifies pool.spare, b0, b0.x
    ensures pool.Valid() && pool.powers == old(pool.powers) && pool.Owned(b)
    ensures pool.held == old(pool.held) - {b0} + {b} && (b == b0 || b !in old(pool.held))
    ensures fresh(pool.spare + {b, b.x} - old(pool.spare) - {b0, b0.x})
    ensures Delivered(v, x0, mode, negative, word0, word1)
    ensures leaves <==> LeavesBlock(v, x0, word0, word1)
  {
    hide Disjoint, Fives, Lists, Spared, Linked, Val, Exp2, Delivered, Best, TopExponent, Widened, ExtraBits,
      LostBelow, Rounded, IsInfinity, TinyChosen;
    b, leaves := b0, false;
    if e > EMAXTEST {
      word0, word1 := EXPMASK, 0;
      Overflows(v, x0, mode, negative);
    } else if e >= EMIN {
      b, word0, word1 := Normal(pool, b, e, lost, mode, negative, v, x0);
    } else if EMIN - e >= NBITS {
      leaves := Tiny(b, EMIN - e, mode, negative);
      word0, word1 := 0, if leaves then 1 else 0;
      TinyDelivered(v, x0, mode, negative, leaves);
    } else {
      b, word0, word1 := Denormal(pool, b, lost, EMIN - e, mode, negative, Widened(v), ExtraBits(v));
      DenormalDelivered(v, x0, mode, negative, word0, word1);
    }
  }

  lemma {:induction false} Overflows(v: nat, e0: int, mode: Rounding, negative: bool)
    requires v > 0 && TopExponent(v, e0) > EMAXTEST
    ensures Delivered(v, e0, mode, negative, EXPMASK, 0)
  {
  }

  /** Gives the number back, except on the way out that forgets it. */
  method GiveBack(pool: Pool, b: Bigint, leaves: bool) returns (ghost kept: set<Bigint>)
    requires pool.Valid() && pool.Owned(b)
    modifies pool.spare, b`next
    ensures pool.Valid() && pool.powers == old(pool.powers)
    ensures kept == (if leaves then {b} else {}) && pool.held == old(pool.held) - {b} + kept
  {
    hide Disjoint, Fives, Lists, Spared, Linked, Val;
    kept := if leaves then {b} else {};
    pool.HeldApart(b);
    if !leaves {
      pool.Bfree(b);
    }
  }

  /**
   * From the first nonzero digit on: the double that the literal HexValue(s) * 2^e0 rounds to, or what the code
   * delivers instead. kept is the block that is not given back, if there is one.
   */
  method GetHex(pool: Pool, s: seq<char>, e0: int, mode: Rounding, negative: bool)
    returns (word0: Word, word1: Word, ghost kept: set<Bigint>)
    requires pool.Valid() && HexText(s) && s != [] && IsHex(s[0]) && HexVal(s[0]) != 0
    modifies pool.spare
    ensures pool.Valid() && pool.powers == old(pool.powers)
    ensures pool.held == old(pool.held) + kept && kept !! old(pool.held)
    ensures |kept| == if LeavesBlock(HexValue(s), e0, word0, word1) then 1 else 0
    ensures HexValue(s) > 0 && Delivered(HexValue(s), e0, mode, negative, word0, word1)
  {
    hide Disjoint, Fives, Lists, Spared, Linked, Val, HexValue, Exp2, Delivered, TopExponent, TopBits53, Widened,
      ExtraBits, LostBelow, LeavesBlock, HexText, HexVal, IsHex, Digits;
    var b := PackDigits(pool, s);
    pool.HeldApart(b);
    ghost var v := HexValue(s);
    var e, lost, leaves;
    b, e, lost := CutSignificand(pool, b, e0);
    pool.HeldApart(b);
    b, word0, word1, leaves := Deliver(pool, b, e, lost, mode, negative, v, e0);
    kept := GiveBack(pool, b, leaves);
  }

  // ---- When it is right ----

  /** A literal just above half the smallest number rounds to that number. */
  lemma {:induction false} HalfRoundsUp(v: nat, e0: int, negative: bool)
    requires v > 0 && JustAboveHalf(v, e0, Near)
    ensures Best(v, e0, Near, negative) == (1, EMIN) && !RoundsToNormal(v, e0, Near, negative)
  {
    var w, c := Widened(v), ExtraBits(v);
    WidenedRange(v);
    AboveHalf(w, c);
    FarBelow(w, c, NBITS, Near, negative);
    RoundedWidened(v, e0, NBITS, Near, negative);
    Fifty();
    hide TopExponent, RoundedAt, Rounded, Widened, ExtraBits, LostBelow, TopBits53, Exp2, Best, RoundsToNormal;
    BestBelow(v, e0, Near, negative, 1);
  }

  /** The two kinds of literals that the code returns zero for do not round to zero. */
  lemma {:induction false} ZeroIsWrong(v: nat, e0: int, mode: Rounding, negative: bool)
    requires v > 0
    ensures JustAboveHalf(v, e0, mode) ==> Best(v, e0, mode, negative) == (1, EMIN)
    ensures RoundsToNormal(v, e0, mode, negative) ==> Best(v, e0, mode, negative) == (Exp2(NBITS - 1), EMIN)
  {
    if JustAboveHalf(v, e0, mode) {
      HalfRoundsUp(v, e0, negative);
    }
    if RoundsToNormal(v, e0, mode, negative) {
      BestBelow(v, e0, mode, negative, Exp2(NBITS - 1));
    }
  }

  /** The code is right about a literal whose right result is finite, unless it is of the two kinds. */
  lemma {:induction false} RightIff(v: nat, e0: int, mode: Rounding, negative: bool, word0: Word, word1: Word)
    requires v > 0 && Delivered(v, e0, mode, negative, word0, word1) && Best(v, e0, mode, negative).1 <= EMAX
    ensures var (m, e) := Best(v, e0, mode, negative);
            Denote(word0, word1, m, e) <==> !RoundsToNormal(v, e0, mode, negative) && !JustAboveHalf(v, e0, mode)
  {
    if RoundsToNormal(v, e0, mode, negative) || JustAboveHalf(v, e0, mode) {
      ZeroIsWrong(v, e0, mode, negative);
      Fifty();
      hide Best, RoundsToNormal, JustAboveHalf;
      assert Significand(0, 0) == 0;
    }
    hide Best, RoundsToNormal, JustAboveHalf, Denote;
  }

  /** Above the largest double the code delivers infinity exactly beyond its own bound, or at the next power of two. */
  lemma {:induction false} InfinityIff(v: nat, e0: int, mode: Rounding, negative: bool, word0: Word, word1: Word)
    requires v > 0 && Delivered(v, e0, mode, negative, word0, word1) && Best(v, e0, mode, negative).1 > EMAX
    ensures var (m, e) := Best(v, e0, mode, negative);
            IsInfinity(word0, word1) <==> e > EMAXTEST || (e == EMAX + 1 && m == Exp2(NBITS - 1))
  {
    Fifty();
    hide Best, Exp2;
    var (m, e) := Best(v, e0, mode, negative);
    assert m == m / BASE * BASE + m % BASE;
  }

  /** The literal is two places or more below the normal range: it cannot round to a normal number. */
  lemma {:induction false} TooFarBelow(v: nat, e0: int, mode: Rounding, negative: bool)
    requires v > 0 && TopExponent(v, e0) < EMIN - 1
    ensures !RoundsToNormal(v, e0, mode, negative)
  {
    var w, c, n := Widened(v), ExtraBits(v), EMIN - TopExponent(v, e0);
    WidenedRange(v);
    AboveHalf(w, c);
    RoundedWidened(v, e0, n, mode, negative);
    hide Exp2, Widened, ExtraBits, RoundedAt, Rounded, BitLen, LostBelow, Lost;
    if n >= NBITS {
      FarBelow(w, c, n, mode, negative);
      Fifty();
    } else {
      LostDecides(w, c + n, mode, negative);
      CutTwice(w, c, n);
      FarQuotient(w / Exp2(c), n);
    }
  }

  /** Which 53 bits and lost bits below them round to 52 ones and one more. */
  predicate CarriesUp(q: nat, lost: nat, mode: Rounding, negative: bool) {
    q / 2 == Exp2(NBITS - 1) - 1 && match mode
      case Zero => false
      case Near => q % 2 == 1
      case Upward => !negative && (q % 2 == 1 || lost != 0)
      case Downward => negative && (q % 2 == 1 || lost != 0)
  }

  lemma {:induction false} OddAllOnes()
    ensures (Exp2(NBITS - 1) - 1) % 2 == 1
  {
    assert Exp2(NBITS - 1) == 2 * Exp2(NBITS - 2);
  }

  lemma {:induction false} CarriesByOne(w: nat, c: nat, mode: Rounding, negative: bool)
    requires w / Exp2(c) < Exp2(NBITS)
    ensures Rounded(w, Exp2(c + 1), mode, negative) == Exp2(NBITS - 1)
            <==> CarriesUp(w / Exp2(c), LostBelow(w, c), mode, negative)
  {
    hide Exp2, Rounded, Lost, LostBelow;
    var q := w / Exp2(c);
    LostDecides(w, c + 1, mode, negative);
    CutTwice(w, c, 1);
    OneBit(w, c);
    OddAllOnes();
    Fifty();
    assert q == q / 2 * 2 + q % 2;
  }

  /** Which literals below the smallest normal number round to it, by their 53 highest bits and what is below them. */
  lemma {:induction false} RoundsToNormalIff(v: nat, e0: int, mode: Rounding, negative: bool)
    requires v > 0
    ensures RoundsToNormal(v, e0, mode, negative) <==>
              && TopExponent(v, e0) == EMIN - 1
              && CarriesUp(TopBits53(v), LostBelow(Widened(v), ExtraBits(v)), mode, negative)
  {
    hide Exp2, Widened, ExtraBits, RoundedAt, Rounded, BitLen, LostBelow, CarriesUp;
    if TopExponent(v, e0) < EMIN - 1 {
      TooFarBelow(v, e0, mode, negative);
    } else if TopExponent(v, e0) == EMIN - 1 {
      WidenedRange(v);
      AboveHalf(Widened(v), ExtraBits(v));
      RoundedWidened(v, e0, 1, mode, negative);
      CarriesByOne(Widened(v), ExtraBits(v), mode, negative);
    }
  }

  lemma {:induction false} FarQuotient(q: nat, n: nat)
    requires q < Exp2(NBITS) && 1 < n < NBITS
    ensures q / Exp2(n) + 1 < Exp2(NBITS - 1)
  {
    Exp2Add(NBITS - n, n);
    Exp2Monotone(NBITS - n, NBITS - 2);
    assert Exp2(NBITS - 1) == 2 * Exp2(NBITS - 2) && Exp2(NBITS - 2) == 2 * Exp2(NBITS - 3);
    hide Exp2;
    DivBounds(q, Exp2(n));
    MulCancel(q / Exp2(n), Exp2(NBITS - n), Exp2(n));
  }

  lemma {:induction false} OneBit(w: nat, c: nat)
    ensures Exp2(1) == 2
    ensures Lost(w, c + 1) == 2 * ((w / Exp2(c)) % 2) + if LostBelow(w, c) != 0 then 1 else 0
  {
    assert Exp2(1) == 2 && Exp2(0) == 1;
    LostFurther(w, c, 1, (w / Exp2(c)) % 2, 0);
  }

  /** 0x3FFFFFFFFFFFFFp-1076 rounds to the smallest normal number, and the code returns zero for it. */
  lemma {:induction false} SmallestNormalMissed(word0: Word, word1: Word)
    requires Delivered(Exp2(54) - 1, -1076, Near, false, word0, word1)
    ensures Best(Exp2(54) - 1, -1076, Near, false) == (Exp2(NBITS - 1), EMIN) && word0 == 0 == word1
  {
    var v := Exp2(54) - 1;
    assert Exp2(54) == 2 * Exp2(53) && Exp2(53) == 2 * Exp2(52) && Exp2(1) == 2 && Exp2(2) == 4 && Exp2(0) == 1;
    Fifty();
    BitLenIs(v, 54);
    hide Exp2, BitLen, Denote;
  }

  /** 0x1000000000000001p-1135 is just above half the smallest number. */
  lemma {:induction false} SmallestMissed()
    ensures JustAboveHalf(Exp2(60) + 1, -1135, Near)
  {
    var v := Exp2(60) + 1;
    assert Exp2(61) == 2 * Exp2(60) && Exp2(8) == 256;
    Exp2Add(52, 8);
    BitLenIs(v, 61);
    WidenedCases(v);
    hide BitLen, Exp2, Widened, ExtraBits;
    DivModUnique(v, 256, Exp2(52), 1);
    LostNothing(v, 8);
  }
}
