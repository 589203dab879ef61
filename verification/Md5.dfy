/** The block loop of MD5: which blocks are digested, and in what order. */
module Md5 {
  import opened Arith
  import opened Bytes

  type Word = w: int | 0 <= w < 0x1_0000_0000

  /** The four words of the running digest. */
  datatype Digest = Digest(a: Word, b: Word, c: Word, d: Word)

  const INITIAL := Digest(0x67452301, 0xEFCDAB89, 0x98BADCFE, 0x10325476)

  function Plus(x: Word, y: Word): Word {
    (x + y) % 0x1_0000_0000
  }

  function Sum(x: Digest, y: Digest): Digest {
    Digest(Plus(x.a, y.a), Plus(x.b, y.b), Plus(x.c, y.c), Plus(x.d, y.d))
  }

  // ---- What RFC 1321 asks for ----

  /** The zeros after the mark bring the length to 56 modulo 64 (section 3.1). */
  function PadCount(len: nat): nat {
    if len % 64 <= 55 then 55 - len % 64 else 119 - len % 64
  }

  /** The message, the mark, the zeros, and a count of bits as 64 bits, the lowest byte first. */
  function PaddedWith(message: seq<Byte>, bits: nat): seq<Byte> {
    message + [0x80] + Zeros(PadCount(|message|)) + LowFirst(bits, 8)
  }

  /** The padded message of sections 3.1 and 3.2: the count is the low 64 bits of the length in bits. */
  function Padded(message: seq<Byte>): seq<Byte> {
    PaddedWith(message, 8 * |message|)
  }

  /** The count that the code writes: the low 35 bits. */
  function WrittenBits(len: nat): nat {
    8 * len % 0x8_0000_0000
  }

  function Written(message: seq<Byte>): seq<Byte> {
    PaddedWith(message, WrittenBits(|message|))
  }

  /** The code's count is the right one: of the low 64 bits of the length in bits only 35 can be set. */
  predicate CountFits(len: nat) {
    len / 0x2000_0000 % 0x1_0000_0000 < 8
  }

  /** The sixteen words of a block of 64 bytes. */
  function Words(block: seq<Byte>): (w: seq<Word>)
    requires |block| == 64
    ensures |w| == 16
  {
    seq(16, j requires 0 <= j < 16 => WordAt(block, j))
  }

  /** Four bytes as one word, the lowest first. */
  function Four(a: int, b: int, c: int, d: int): (w: int)
    ensures 0 <= a < 256 && 0 <= b < 256 && 0 <= c < 256 && 0 <= d < 256 ==> 0 <= w < 0x1_0000_0000
  {
    a + 256 * (b + 256 * (c + 256 * d))
  }

  function WordAt(block: seq<Byte>, j: nat): Word
    requires |block| == 64 && j < 16
  {
    Four(block[4 * j], block[4 * j + 1], block[4 * j + 2], block[4 * j + 3])
  }

  function OutBytes(d: Digest): seq<Byte> {
    LowFirst(d.a, 4) + LowFirst(d.b, 4) + LowFirst(d.c, 4) + LowFirst(d.d, 4)
  }

  /** The digest after the blocks of s from i on. */
  function Fold(f: (seq<Word>, Digest) -> Digest, d: Digest, s: seq<Byte>, i: nat): Digest
    requires i <= |s|
    decreases |s| - i
  {
    if i + 64 > |s| then d else Fold(f, Sum(f(Words(s[i..i + 64]), d), d), s, i + 64)
  }

  // ---- The code ----

  /** Four bytes to a word, sixteen times. */
  method BytesToWord32(x: array<Word>, pt: seq<Byte>)
    requires x.Length == 16 && |pt| == 64
    modifies x
    ensures x[..] == Words(pt)
  {
    var i := 0;
    while i < 16
      invariant 0 <= i <= 16 && forall k | 0 <= k < i :: x[k] == WordAt(pt, k)
    {
      var j := i * 4;
      x[i] := Four(pt[j], pt[j + 1], pt[j + 2], pt[j + 3]);
      i := i + 1;
    }
  }

  /** A block cut short: what there is of the message, then the mark or a zero, then zeros. */
  function Tail(pt: seq<Byte>, mark: bool): (s: seq<Byte>)
    requires |pt| < 64
    ensures |s| == 64
  {
    pt + [if mark then 0x80 else 0] + Zeros(63 - |pt|)
  }

  method Converte(x: array<Word>, pt: seq<Byte>, oldStatus: nat) returns (newStatus: nat)
    requires x.Length == 16 && |pt| <= 64
    modifies x
    ensures newStatus == if |pt| == 64 then 0 else if |pt| <= 55 then 2 else 1
    ensures x[..] == Words(if |pt| == 64 then pt else Tail(pt, oldStatus == 0))
  {
    newStatus := 0;
    var block := pt;
    var num := |pt|;
    if num < 64 {
      var buff := new Byte[64];
      forall k | 0 <= k < 64 {
        buff[k] := if k < num then pt[k] else 0;
      }
      if oldStatus == 0 {
        buff[num] := 0x80;
      }
      newStatus := 1;
      block := buff[..];
      assert block == Tail(pt, oldStatus == 0);
    }
    BytesToWord32(x, block);
    if num <= 64 - 9 {
      newStatus := 2;
    }
  }

  /** Two words as one number, the lower first. */
  function Joined(lo: int, hi: int): int {
    lo + 0x1_0000_0000 * hi
  }

  /** The two words that take the length: together its low 35 bits, which is right exactly when they suffice. */
  method PutLength(x: array<Word>, len: nat)
    requires x.Length == 16
    modifies x
    ensures forall j | 0 <= j < 14 :: x[j] == old(x[j])
    ensures Joined(x[14], x[15]) == WrittenBits(len)
    ensures Joined(x[14], x[15]) == 8 * len % WIDE <==> CountFits(len)
  {
    LengthParts(len);
    LengthExact(len);
    x[14] := len * 8 % 0x1_0000_0000;
    x[15] := len / 0x2000_0000 % 8;
  }

  lemma {:induction false} LengthParts(len: nat)
    ensures WrittenBits(len) == len * 8 % 0x1_0000_0000 + 0x1_0000_0000 * (len / 0x2000_0000 % 8)
  {
    var hi, lo := len / 0x2000_0000, len % 0x2000_0000;
    assert len == hi * 0x2000_0000 + lo;
    DivModUnique(len * 8, 0x1_0000_0000, hi, lo * 8);
    DivModUnique(len * 8, 0x8_0000_0000, hi / 8, (hi % 8) * 0x1_0000_0000 + lo * 8);
  }

  /** The length written is the length in bits modulo 2^64 exactly when only three bits of it lie above the low word. */
  lemma {:induction false} LengthExact(len: nat)
    ensures WrittenBits(len) == 8 * len % WIDE <==> CountFits(len)
    ensures len < 0x1_0000_0000 ==> CountFits(len)
  {
    hide WrittenBits;
    LengthParts(len);
    var hi, lo := len / 0x2000_0000, len % 0x2000_0000;
    var top, low := hi / 0x1_0000_0000, hi % 0x1_0000_0000;
    WholeLength(len, hi, lo, top, low);
    SameEighth(hi, top, low);
  }

  lemma {:induction false} SameEighth(hi: nat, top: nat, low: nat)
    requires hi == top * 0x1_0000_0000 + low
    ensures hi % 8 == low % 8
  {
  }

  /** The length in bits by its parts. */
  lemma {:induction false} WholeLength(len: nat, hi: nat, lo: nat, top: nat, low: nat)
    requires len == hi * 0x2000_0000 + lo && lo < 0x2000_0000 && hi == top * 0x1_0000_0000 + low && low < 0x1_0000_0000
    ensures 8 * len % WIDE == low * 0x1_0000_0000 + lo * 8 && len * 8 % 0x1_0000_0000 == lo * 8
  {
    assert len * 8 == top * WIDE + (low * 0x1_0000_0000 + lo * 8);
    DivModUnique(len * 8, WIDE, top, low * 0x1_0000_0000 + lo * 8);
    DivModUnique(len * 8, 0x1_0000_0000, hi, lo * 8);
  }

  /** The padding written is that of sections 3.1 and 3.2 exactly when the count fits. */
  lemma {:induction false} WrittenIsPadded(message: seq<Byte>)
    ensures Written(message) == Padded(message) <==> CountFits(|message|)
  {
    var n := |message|;
    var front, w, p := message + [0x80] + Zeros(PadCount(n)), WrittenBits(n), 8 * n % WIDE;
    LengthExact(n);
    Power8();
    assert 8 * n == p + (8 * n / WIDE) * WIDE;
    HighLost(p, 8 * n / WIDE, 8);
    NaturalOfLowFirst(w, 8);
    NaturalOfLowFirst(p, 8);
    hide LowFirst, Natural, CountFits, PadCount;
    assert (front + LowFirst(w, 8))[|front|..] == LowFirst(w, 8);
    assert (front + LowFirst(p, 8))[|front|..] == LowFirst(p, 8);
  }

  /** The last block of words, once the length is in. */
  lemma {:induction false} LengthWords(block: seq<Byte>, w: seq<Word>, len: nat)
    requires |block| == 64 && (forall k | 56 <= k < 64 :: block[k] == 0)
    requires |w| == 16 && (forall j | 0 <= j < 14 :: w[j] == Words(block)[j])
    requires Joined(w[14], w[15]) == WrittenBits(len)
    ensures w == Words(block[..56] + LowFirst(WrittenBits(len), 8))
  {
    hide LowFirst, Four, WrittenBits;
    var full := block[..56] + LowFirst(WrittenBits(len), 8);
    LengthBytes(WrittenBits(len), w[14], w[15]);
    forall j | 0 <= j < 16
      ensures Words(full)[j] == w[j]
    {
      if j < 14 {
        assert WordAt(full, j) == WordAt(block, j);
      }
    }
  }

  lemma {:induction false} LengthBytes(v: nat, lo: nat, hi: nat)
    requires lo < 0x1_0000_0000 && hi < 0x1_0000_0000 && v == lo + 0x1_0000_0000 * hi
    ensures var s := LowFirst(v, 8);
            && Four(s[0], s[1], s[2], s[3]) == lo
            && Four(s[4], s[5], s[6], s[7]) == hi
  {
    hide LowFirst, Drop, Four;
    DivModUnique(v, 0x1_0000_0000, hi, lo);
    FourBytes(v, 8);
    FourDown(v, lo, hi);
    FourBytes(hi, 4);
    forall k | 0 <= k < 4
      ensures LowFirst(v, 8)[4 + k] == LowFirst(hi, 4)[k]
    {
      LowFirstAt(v, 8, 4 + k);
      LowFirstAt(hi, 4, k);
      DropSum(v, 4, k);
    }
    var s, t := LowFirst(v, 8), LowFirst(hi, 4);
    assert s[4 + 0] == t[0] && s[4 + 1] == t[1] && s[4 + 2] == t[2] && s[4 + 3] == t[3];
    DivModUnique(hi, 0x1_0000_0000, 0, hi);
  }

  lemma {:induction false} DropSum(v: nat, i: nat, k: nat)
    ensures Drop(v, i + k) == Drop(Drop(v, i), k)
  {
    if i == 0 {
    } else {
      DropSum(v / 256, i - 1, k);
    }
  }

  lemma {:induction false} FourDown(v: nat, lo: nat, hi: nat)
    requires lo < 0x1_0000_0000 && v == lo + 0x1_0000_0000 * hi
    ensures Drop(v, 4) == hi
  {
    var a := lo / 256 + 0x100_0000 * hi;
    var b := lo / 256 / 256 + 0x1_0000 * hi;
    var c := lo / 256 / 256 / 256 + 0x100 * hi;
    assert v / 256 == a && a / 256 == b && b / 256 == c && c / 256 == hi;
    assert Drop(v, 4) == Drop(a, 3) == Drop(b, 2) == Drop(c, 1) == Drop(hi, 0);
  }

  /** The four low bytes make up the low word. */
  lemma {:induction false} FourBytes(v: nat, size: nat)
    requires size >= 4
    ensures var s := LowFirst(v, size);
            Four(s[0], s[1], s[2], s[3]) == v % 0x1_0000_0000
  {
    var s := LowFirst(v, size);
    var a, b, c := v / 256, v / 256 / 256, v / 256 / 256 / 256;
    assert s[1..] == LowFirst(a, size - 1) && s[1..][1..] == LowFirst(b, size - 2)
        && s[1..][1..][1..] == LowFirst(c, size - 3);
    assert s[1] == a % 256 && s[2] == b % 256 && s[3] == c % 256;
    var low := v % 256 + 256 * (a % 256 + 256 * (b % 256 + 256 * (c % 256)));
    assert v == low + 0x1_0000_0000 * (c / 256);
    DivModUnique(v, 0x1_0000_0000, c / 256, low);
  }

  // ---- The blocks of the padded message ----

  lemma {:induction false} WholeBlock(message: seq<Byte>, i: nat)
    requires i + 64 <= |message|
    ensures i + 64 <= |Written(message)| && Written(message)[i..i + 64] == message[i..i + 64]
  {
  }

  /** The last block when at most 55 bytes remain. */
  lemma {:induction false} ShortTail(message: seq<Byte>, i: nat)
    requires i % 64 == 0 && i <= |message| <= i + 55
    ensures |Written(message)| == i + 64
    ensures Written(message)[i..i + 64] == Tail(message[i..], true)[..56] + LowFirst(WrittenBits(|message|), 8)
  {
    hide LowFirst;
    var num := |message| - i;
    assert |message| % 64 == num;
    assert Zeros(63 - num)[..55 - num] == Zeros(55 - num);
    assert Tail(message[i..], true)[..56] == message[i..] + [0x80] + Zeros(55 - num);
  }

  /** The two blocks when 56 to 63 bytes remain: the mark ends the first, the length the second. */
  lemma {:induction false} LongTail(message: seq<Byte>, i: nat)
    requires i % 64 == 0 && i + 56 <= |message| <= i + 63
    ensures |Written(message)| == i + 128
    ensures Written(message)[i..i + 64] == Tail(message[i..], true)
    ensures Written(message)[i + 64..i + 128] == Tail([], false)[..56] + LowFirst(WrittenBits(|message|), 8)
  {
    hide LowFirst;
    var num := |message| - i;
    assert |message| % 64 == num;
    assert Zeros(119 - num)[..63 - num] == Zeros(63 - num);
    assert Zeros(119 - num)[63 - num..] == Zeros(56);
    assert Tail([], false)[..56] == Zeros(56);
  }

  /** How far the loop is: i bytes of the message are read and at bytes of the padded message are digested. */
  ghost predicate Reached(message: seq<Byte>, i: nat, at: nat, status: nat) {
    var p := Written(message);
    && i <= |message| && at <= |p|
    && match status
       case 0 => at == i && i % 64 == 0
       case 1 =>
         && i == |message| && |p| == at + 64
         && p[at..at + 64] == Tail([], false)[..56] + LowFirst(WrittenBits(|message|), 8)
       case _ => status == 2 && at == |p|
  }

  lemma {:induction false} FoldStep(f: (seq<Word>, Digest) -> Digest, d: Digest, s: seq<Byte>, i: nat)
    requires i + 64 <= |s|
    ensures Fold(f, d, s, i) == Fold(f, Sum(f(Words(s[i..i + 64]), d), d), s, i + 64)
  {
  }

  /**
   * md5 with the digest step f: the fold of f over the message as the code pads it, which for every length whose
   * count fits is the padding of sections 3.1 and 3.2.
   */
  method Md5(message: seq<Byte>, f: (seq<Word>, Digest) -> Digest) returns (output: seq<Byte>)
    ensures output == OutBytes(Fold(f, INITIAL, Written(message), 0))
    ensures CountFits(|message|) ==> output == OutBytes(Fold(f, INITIAL, Padded(message), 0))
  {
    WrittenIsPadded(message);
    hide Padded, CountFits;
    hide Written, Fold, Words, Tail, OutBytes, LowFirst, Reached;
    var d := INITIAL;
    var status: nat, i := 0, 0;
    ghost var at := 0;
    ghost var p := Written(message);
    Begun(message);
    while status != 2
      invariant 0 <= i <= |message| && status <= 2 && at <= |p| && Reached(message, i, at, status)
      invariant Fold(f, INITIAL, p, 0) == Fold(f, d, p, at)
      decreases |p| - at
    {
      var numbytes := if |message| - i >= 64 then 64 else |message| - i;
      var wbuff := new Word[16];
      var oldStatus := status;
      var pt := message[i..i + numbytes];
      status := Converte(wbuff, pt, oldStatus);
      if status == 2 {
        PutLength(wbuff, |message|);
      }
      BlockIs(message, i, at, oldStatus, wbuff[..]);
      FoldStep(f, d, p, at);
      d := Sum(f(wbuff[..], d), d);
      i := i + numbytes;
      at := at + 64;
    }
    AllDone(message, i, at);
    FoldEnd(f, d, p);
    output := Word32ToBytes(d);
  }

  lemma {:induction false} FoldEnd(f: (seq<Word>, Digest) -> Digest, d: Digest, s: seq<Byte>)
    ensures Fold(f, d, s, |s|) == d
  {
  }

  /** The words built in one turn, with the length in the last two when it is the last, are the next block's. */
  lemma {:induction false} BlockIs(message: seq<Byte>, i: nat, at: nat, status: nat, x: seq<Word>)
    requires status <= 1 && Reached(message, i, at, status) && |x| == 16
    requires var n := if |message| - i >= 64 then 64 else |message| - i;
             var pt := message[i..i + n];
             var w := Words(if n == 64 then pt else Tail(pt, status == 0));
             if n <= 55 then
               (forall j | 0 <= j < 14 :: x[j] == w[j]) && Joined(x[14], x[15]) == WrittenBits(|message|)
             else x == w
    ensures at + 64 <= |Written(message)| && x == Words(Written(message)[at..at + 64])
    ensures var n := if |message| - i >= 64 then 64 else |message| - i;
            Reached(message, i + n, at + 64, if n == 64 then 0 else if n <= 55 then 2 else 1)
  {
    hide Written, Words, LowFirst, WrittenBits;
    var n := if |message| - i >= 64 then 64 else |message| - i;
    var pt := message[i..i + n];
    if n == 64 {
      WholeBlock(message, i);
    } else if n < 56 {
      if status == 0 {
        ShortTail(message, i);
        assert message[i..] == pt;
        LengthWords(Tail(pt, true), x, |message|);
      } else {
        assert pt == [];
        LengthWords(Tail(pt, false), x, |message|);
      }
    } else {
      LongTail(message, i);
      assert message[i..] == pt;
    }
  }

  lemma {:induction false} Begun(message: seq<Byte>)
    ensures Reached(message, 0, 0, 0)
  {
  }

  lemma {:induction false} AllDone(message: seq<Byte>, i: nat, at: nat)
    requires Reached(message, i, at, 2)
    ensures at == |Written(message)|
  {
  }

  /** The four words as bytes. */
  method Word32ToBytes(d: Digest) returns (output: seq<Byte>)
    ensures output == OutBytes(d)
  {
    var input := [d.a, d.b, d.c, d.d];
    output := [];
    var j := 0;
    while j < 4
      invariant 0 <= j <= 4
      invariant output == WordsOut(input, j)
    {
      var v := input[j];
      ghost var before := output;
      Bytes4(v);
      output := output + [v % 256, v / 256 % 256, v / 256 / 256 % 256, v / 256 / 256 / 256 % 256];
      j := j + 1;
    }
    AllOut(d);
  }

  ghost function WordsOut(input: seq<Word>, j: nat): seq<Byte>
    requires j <= |input|
  {
    if j == 0 then [] else WordsOut(input, j - 1) + LowFirst(input[j - 1], 4)
  }

  lemma {:induction false} Bytes4(v: nat)
    ensures LowFirst(v, 4) == [v % 256, v / 256 % 256, v / 256 / 256 % 256, v / 256 / 256 / 256 % 256]
  {
    assert LowFirst(v / 256 / 256 / 256, 1) == [v / 256 / 256 / 256 % 256];
    assert LowFirst(v / 256 / 256, 2) == [v / 256 / 256 % 256] + LowFirst(v / 256 / 256 / 256, 1);
  }

  lemma {:induction false} AllOut(d: Digest)
    ensures WordsOut([d.a, d.b, d.c, d.d], 4) == OutBytes(d)
  {
    hide LowFirst;
    var input := [d.a, d.b, d.c, d.d];
    assert WordsOut(input, 1) == LowFirst(d.a, 4);
    assert WordsOut(input, 2) == WordsOut(input, 1) + LowFirst(d.b, 4);
    assert WordsOut(input, 3) == WordsOut(input, 2) + LowFirst(d.c, 4);
  }

  // ---- What the blocks, the words and the digest are ----

  /** The starting words of section 3.3 of RFC 1321, as bytes with the lowest first. */
  lemma {:induction false} InitialBytes()
    ensures OutBytes(INITIAL) == [0x01, 0x23, 0x45, 0x67, 0x89, 0xab, 0xcd, 0xef,
                                  0xfe, 0xdc, 0xba, 0x98, 0x76, 0x54, 0x32, 0x10]
  {
    hide LowFirst;
    Bytes4(INITIAL.a);
    Bytes4(INITIAL.b);
    Bytes4(INITIAL.c);
    Bytes4(INITIAL.d);
  }

  /** Padding: the message, a one bit, the fewest zeros that fill whole blocks with the 64-bit length behind them. */
  lemma {:induction false} PaddedIs(message: seq<Byte>)
    ensures var s, n := Padded(message), |message|;
            && |s| % 64 == 0 && n + 9 <= |s| < n + 9 + 64
            && s[..n] == message && s[n] == 0x80 && (forall k | n < k < |s| - 8 :: s[k] == 0)
            && Natural(s[|s| - 8..]) == 8 * n % 0x1_0000_0000_0000_0000
  {
    hide LowFirst, Natural;
    var s, n := Padded(message), |message|;
    var zeros, bits := Zeros(PadCount(n)), LowFirst(8 * n, 8);
    assert s == message + [0x80] + zeros + bits;
    assert s[|s| - 8..] == bits;
    LowBits(8 * n);
    assert |s| == n + 9 + PadCount(n);
  }

  lemma {:induction false} LowBits(v: nat)
    ensures Natural(LowFirst(v, 8)) == v % 0x1_0000_0000_0000_0000
  {
    var m, r := v / WIDE, v % WIDE;
    Power8();
    HighLost(r, m, 8);
    NaturalOfLowFirst(r, 8);
    assert v == r + m * WIDE;
  }

  /** A word of a block is the number of its four bytes, the lowest first. */
  lemma {:induction false} WordIsNatural(block: seq<Byte>, j: nat)
    requires |block| == 64 && j < 16
    ensures Words(block)[j] == Natural(block[4 * j..4 * j + 4])
  {
    var s := block[4 * j..4 * j + 4];
    assert s[1..][1..][1..][1..] == [];
    assert s[1..][0] == s[1] && s[1..][1..][0] == s[2] && s[1..][1..][1..][0] == s[3];
    assert Natural(s[1..][1..][1..]) == s[3];
    assert Natural(s[1..][1..]) == s[2] + 256 * Natural(s[1..][1..][1..]);
    assert Natural(s[1..]) == s[1] + 256 * Natural(s[1..][1..]);
  }

  /** After each block the result of the step is added to the words before it, modulo 2^32. */
  lemma {:induction false} OneBlock(f: (seq<Word>, Digest) -> Digest, d: Digest, s: seq<Byte>)
    requires |s| == 64
    ensures var x, y := Fold(f, d, s, 0), f(Words(s), d);
            && x.a == (y.a + d.a) % 0x1_0000_0000 && x.b == (y.b + d.b) % 0x1_0000_0000
            && x.c == (y.c + d.c) % 0x1_0000_0000 && x.d == (y.d + d.d) % 0x1_0000_0000
  {
    assert s[0..64] == s;
    FoldStep(f, d, s, 0);
    FoldEnd(f, Sum(f(Words(s), d), d), s);
  }

  /** The digest holds the four words in order, the lowest byte first. */
  lemma {:induction false} DigestBytes(d: Digest)
    ensures var s := OutBytes(d);
            && |s| == 16 && Natural(s[..4]) == d.a && Natural(s[4..8]) == d.b && Natural(s[8..12]) == d.c
            && Natural(s[12..]) == d.d
  {
    FourBack(d.a);
    FourBack(d.b);
    FourBack(d.c);
    FourBack(d.d);
    hide LowFirst, Natural;
    var s := OutBytes(d);
    assert s[..4] == LowFirst(d.a, 4) && s[4..8] == LowFirst(d.b, 4) && s[8..12] == LowFirst(d.c, 4);
    assert s[12..] == LowFirst(d.d, 4);
  }

  lemma {:induction false} FourBack(w: Word)
    ensures Natural(LowFirst(w, 4)) == w
  {
    assert Power256(2) == 0x1_0000 && Power256(4) == 0x1_0000_0000;
    NaturalOfLowFirst(w, 4);
  }
}
