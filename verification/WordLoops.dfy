/** The carry and borrow loops of the big-integer kernel, each over the words of an array in place. */
module WordLoops {
  import opened Arith
  import opened Words

  const WIDE: int := 0x1_0000_0000_0000_0000

  /** m * v by repeated addition: a product that the loop proofs treat as a single unknown. */
  ghost function Prod(m: int, v: nat): int {
    if v == 0 then 0 else m + Prod(m, v - 1)
  }

  lemma {:induction false} ProdIsProduct(m: int, v: nat)
    ensures Prod(m, v) == m * v
  {
    if v == 0 {
    } else {
      ProdIsProduct(m, v - 1);
    }
  }

  /** One multiply-accumulate in the 64-bit accumulator, which never overflows. */
  method MulStep(x: Word, m: Word, c: int) returns (lo: Word, hi: Word)
    requires 0 <= c <= 2 * (BASE - 1)
    ensures Prod(m, x) + c == hi * BASE + lo
  {
    var z := x * m + c;
    assert 0 <= z < WIDE by {
      var x', m': int := x, m;
      MulNonnegative(x', m');
      MulMonotone(x', BASE - 1, m');
      MulMonotone(m', BASE - 1, BASE - 1);
    }
    ProdIsProduct(m, x);
    lo, hi := z % BASE, z / BASE;
  }

  /** m * Val(s), summed word by word. */
  ghost function Multiple(m: int, s: seq<Word>): int {
    if |s| == 0 then 0 else var n := |s| - 1; Multiple(m, s[..n]) + Up(Prod(m, s[n]), n)
  }

  lemma {:induction false} MultipleIsProduct(m: int, s: seq<Word>)
    ensures Multiple(m, s) == m * Val(s)
  {
    if |s| == 0 {
    } else {
      var n := |s| - 1;
      MultipleIsProduct(m, s[..n]);
      ProdIsProduct(m, s[n]);
      UpTimes(m, s[n], n);
      assert m * (Val(s[..n]) + Up(s[n], n)) == m * Val(s[..n]) + m * Up(s[n], n);
    }
  }

  lemma {:induction false} MultiplePrefix(m: int, s: seq<Word>, i: nat)
    requires i < |s|
    ensures Multiple(m, s[..i + 1]) == Multiple(m, s[..i]) + Up(Prod(m, s[i]), i)
  {
    assert s[..i + 1][..i] == s[..i];
  }

  /** Word i takes r and the carry q goes to word i + 1. */
  lemma {:induction false} CarryStep(v: int, c: int, i: nat, target: int, x: int, q: int, r: int)
    requires v + Up(c, i) == target && x + c == q * BASE + r
    ensures (v + Up(r, i)) + Up(q, i + 1) == target + Up(x, i)
  {
    UpNext(q, i);
    UpSum(BASE * q, r, i);
    UpSum(x, c, i);
  }

  lemma {:induction false} MulAddStep(lo: seq<Word>, x: seq<Word>, i: nat, m: Word, c: int, a: int, w: Word, hi: int)
    requires i == |lo| < |x| && Prod(m, x[i]) + c == hi * BASE + w
    requires Val(lo) + Up(c, i) == Multiple(m, x[..i]) + a
    ensures Val(lo + [w]) + Up(hi, i + 1) == Multiple(m, x[..i + 1]) + a
  {
    CarryStep(Val(lo), c, i, Multiple(m, x[..i]) + a, Prod(m, x[i]), hi, w);
    ValPush(lo, w);
    MultiplePrefix(m, x, i);
  }

  /** x[..n] := x[..n] * m + a; the carry out of the top word is returned. */
  method MulAddWords(x: array<Word>, n: nat, m: Word, a: Word) returns (carry: Word)
    requires n <= x.Length
    modifies x
    ensures Val(x[..n]) + Up(carry, n) == m * Val(old(x[..n])) + a
    ensures forall j | n <= j < x.Length :: x[j] == old(x[j])
  {
    ghost var x0, lo := x[..n], [];
    carry := a;
    var i := 0;
    while i < n
      invariant i <= n && |lo| == i
      invariant forall j | 0 <= j < i :: x[j] == lo[j]
      invariant forall j | i <= j < x.Length :: x[j] == old(x[j])
      invariant Val(lo) + Up(carry, i) == Multiple(m, x0[..i]) + a
    {
      var w, hi := MulStep(x[i], m, carry);
      MulAddStep(lo, x0, i, m, carry, a, w, hi);
      x[i], lo, carry := w, lo + [w], hi;
      i := i + 1;
    }
    assert x0[..n] == x0 && x[..n] == lo;
    MultipleIsProduct(m, x0);
  }

  lemma {:induction false} RowStep(lo: seq<Word>, t: seq<Word>, a: seq<Word>, i: nat, y: Word, c: int, w: Word, hi: int)
    requires i == |lo| && i < |a| && i < |t| && Prod(y, a[i]) + t[i] + c == hi * BASE + w
    requires Val(lo) + Up(c, i) == Val(t[..i]) + Multiple(y, a[..i])
    ensures Val(lo + [w]) + Up(hi, i + 1) == Val(t[..i + 1]) + Multiple(y, a[..i + 1])
  {
    CarryStep(Val(lo), c, i, Val(t[..i]) + Multiple(y, a[..i]), Prod(y, a[i]) + t[i], hi, w);
    UpSum(Prod(y, a[i]), t[i], i);
    ValPush(lo, w);
    MultiplePrefix(y, a, i);
    ValPrefix(t, i);
  }

  /** One row of the school product: c[off..] += a * y; word off + n only receives the last carry. */
  method AddRow(c: array<Word>, off: nat, a: array<Word>, n: nat, y: Word)
    requires n <= a.Length && off + n < c.Length && a != c
    modifies c
    ensures Val(c[off..off + n + 1]) == Val(old(c[off..off + n])) + y * Val(a[..n])
    ensures forall j | 0 <= j < c.Length && !(off <= j <= off + n) :: c[j] == old(c[j])
  {
    ghost var t, a0, lo := c[off..off + n], a[..n], [];
    var carry: Word := 0;
    var i := 0;
    while i < n
      invariant i <= n && |lo| == i
      invariant forall j | 0 <= j < i :: c[off + j] == lo[j]
      invariant forall j | 0 <= j < c.Length && (j < off || off + i <= j) :: c[j] == old(c[j])
      invariant Val(lo) + Up(carry, i) == Val(t[..i]) + Multiple(y, a0[..i])
    {
      var w, hi := MulStep(a[i], y, c[off + i] + carry);
      RowStep(lo, t, a0, i, y, carry, w, hi);
      c[off + i], lo, carry := w, lo + [w], hi;
      i := i + 1;
    }
    assert t[..n] == t && a0[..n] == a0;
    MultipleIsProduct(y, a0);
    c[off + n] := carry;
    ValPush(lo, carry);
    assert c[off..off + n + 1] == lo + [carry];
  }

  /** The low word and the borrow that unsigned 64-bit arithmetic gives for a small difference. */
  function LowWord(d: int): Word {
    (d % WIDE) % BASE
  }

  function Borrow(d: int): int {
    ((d % WIDE) / BASE) % 2
  }

  lemma {:induction false} BorrowStep(d: int)
    requires -BASE <= d < BASE
    ensures Borrow(d) == (if d < 0 then 1 else 0)
    ensures d == LowWord(d) - Borrow(d) * BASE
  {
    if d < 0 {
      DivModUnique(d, WIDE, -1, d + WIDE);
      DivModUnique(d + WIDE, BASE, BASE - 1, d + BASE);
    } else {
      DivModUnique(d, WIDE, 0, d);
      DivModUnique(d, BASE, 0, d);
    }
  }

  /** a - b - borrow for one word. */
  method DiffStep(a: Word, b: Word, borrow: int) returns (w: Word, borrow': int)
    requires 0 <= borrow <= 1
    ensures 0 <= borrow' <= 1
    ensures w - borrow' * BASE == a - b - borrow
  {
    var d: int := a as int - b - borrow;
    BorrowStep(d);
    w, borrow' := LowWord(d), Borrow(d);
  }

  /** b - (s * q + carry) - borrow for one word, in the 64-bit accumulators. */
  method SubStep(b: Word, s: Word, q: Word, borrow: int, carry: Word) returns (w: Word, borrow': int, carry': Word)
    requires 0 <= borrow <= 1
    ensures 0 <= borrow' <= 1
    ensures w - (borrow' + carry') * BASE == b - Prod(q, s) - (borrow + carry)
  {
    var ys;
    ys, carry' := MulStep(s, q, carry);
    w, borrow' := DiffStep(b, ys, borrow);
  }

  lemma {:induction false} SubMulStep(lo: seq<Word>, b: seq<Word>, s: seq<Word>, i: nat, q: int, short: int, w: Word,
      short': int)
    requires i == |lo| < |b| && i < |s|
    requires Val(lo) - Up(short, i) == Val(b[..i]) - Multiple(q, s[..i])
    requires w - short' * BASE == b[i] - Prod(q, s[i]) - short
    ensures Val(lo + [w]) - Up(short', i + 1) == Val(b[..i + 1]) - Multiple(q, s[..i + 1])
  {
    UpSum(0, short, i);
    UpSum(0, short', i + 1);
    UpZero(i);
    UpZero(i + 1);
    CarryStep(Val(lo), -short, i, Val(b[..i]) - Multiple(q, s[..i]), b[i] - Prod(q, s[i]), -short', w);
    UpSum(b[i], Prod(q, s[i]), i);
    ValPush(lo, w);
    ValPrefix(b, i);
    MultiplePrefix(q, s, i);
  }

  /** b[..n] := b[..n] - q * s[..n]; what could not be subtracted comes back as a multiple of BASE^n. */
  method SubMulWords(b: array<Word>, s: array<Word>, n: nat, q: Word) returns (short: int)
    requires n <= b.Length && n <= s.Length && b != s
    modifies b
    ensures short >= 0
    ensures Val(b[..n]) - Up(short, n) == Val(old(b[..n])) - q * Val(s[..n])
    ensures forall j | n <= j < b.Length :: b[j] == old(b[j])
  {
    ghost var b0, s0, lo := b[..n], s[..n], [];
    var borrow, carry: Word := 0, 0;
    var i := 0;
    while i < n
      invariant i <= n && 0 <= borrow <= 1 && |lo| == i
      invariant forall j | 0 <= j < i :: b[j] == lo[j]
      invariant forall j | i <= j < b.Length :: b[j] == old(b[j])
      invariant Val(lo) - Up(borrow + carry, i) == Val(b0[..i]) - Multiple(q, s0[..i])
    {
      var w, borrow', carry' := SubStep(b[i], s[i], q, borrow, carry);
      SubMulStep(lo, b0, s0, i, q, borrow + carry, w, borrow' + carry');
      b[i], lo, borrow, carry := w, lo + [w], borrow', carry';
      i := i + 1;
    }
    short := borrow + carry;
    assert b0[..n] == b0 && s0[..n] == s0 && b[..n] == lo;
    MultipleIsProduct(q, s0);
  }

  lemma {:induction false} BorrowOn(lo: seq<Word>, a: seq<Word>, b: seq<Word>, i: nat, short: int, w: Word, short': int)
    requires i == |lo| < |a| == |b|
    requires Val(lo) - Up(short, i) == Val(a[..i]) - Val(b[..i])
    requires w - short' * BASE == a[i] - b[i] - short
    ensures Val(lo + [w]) - Up(short', i + 1) == Val(a[..i + 1]) - Val(b[..i + 1])
  {
    MultipleIsProduct(1, b[..i]);
    MultipleIsProduct(1, b[..i + 1]);
    ProdIsProduct(1, b[i]);
    SubMulStep(lo, a, b, i, 1, short, w, short');
  }

  /** The same number on n words. */
  ghost function Pad(s: seq<Word>, n: nat): (r: seq<Word>)
    requires |s| <= n
    ensures |r| == n && Val(r) == Val(s)
    ensures forall j | 0 <= j < n :: r[j] == if j < |s| then s[j] else 0
  {
    var r := s + seq(n - |s|, _ => 0);
    assert r[..|s|] == s;
    ValTrim(r, |s|);
    r
  }

  /** c[..wa] := a[..wa] - b[..wb], for operands whose difference is not negative. */
  method DiffWords(c: array<Word>, a: array<Word>, wa: nat, b: array<Word>, wb: nat)
    requires wb <= wa && wa <= a.Length && wb <= b.Length && wa <= c.Length && c != a && c != b
    requires Val(a[..wa]) >= Val(b[..wb])
    modifies c
    ensures Val(c[..wa]) == Val(a[..wa]) - Val(b[..wb])
    ensures forall j | wa <= j < c.Length :: c[j] == old(c[j])
  {
    ghost var a0, b0, lo := a[..wa], Pad(b[..wb], wa), [];
    var borrow := 0;
    var i := 0;
    while i < wa
      invariant i <= wa && 0 <= borrow <= 1 && |lo| == i
      invariant forall j | 0 <= j < i :: c[j] == lo[j]
      invariant forall j | wa <= j < c.Length :: c[j] == old(c[j])
      invariant Val(lo) - Up(borrow, i) == Val(a0[..i]) - Val(b0[..i])
    {
      var bi := if i < wb then b[i] else 0;
      var w, borrow' := DiffStep(a[i], bi, borrow);
      BorrowOn(lo, a0, b0, i, borrow, w, borrow');
      c[i], lo, borrow := w, lo + [w], borrow';
      i := i + 1;
    }
    assert a0[..wa] == a0 && b0[..wa] == b0 && c[..wa] == lo;
    ValBound(lo);
    UpZero(wa);
  }

  /** -1, 0 or 1 as the first n words of a are below, equal to or above those of b. */
  method CompareWords(a: array<Word>, b: array<Word>, n: nat) returns (r: int)
    requires n <= a.Length && n <= b.Length
    ensures r == (if Val(a[..n]) < Val(b[..n]) then -1 else if Val(a[..n]) > Val(b[..n]) then 1 else 0)
  {
    var i := n;
    while i > 0
      invariant 0 <= i <= n
      invariant a[i..n] == b[i..n]
    {
      i := i - 1;
      if a[i] != b[i] {
        assert a[..n][i + 1..] == a[i + 1..n] && b[..n][i + 1..] == b[i + 1..n];
        if a[i] < b[i] {
          ValCompare(a[..n], b[..n], i);
          return -1;
        }
        ValCompare(b[..n], a[..n], i);
        return 1;
      }
    }
    assert a[..n] == b[..n];
    return 0;
  }

  /** The number of words left when leading zero words are dropped, but never below floor. */
  method DropLeadingZeros(x: array<Word>, n: nat, floor: nat) returns (m: nat)
    requires floor <= n <= x.Length
    ensures floor <= m <= n
    ensures Val(x[..m]) == Val(x[..n])
    ensures m > floor ==> x[m - 1] != 0
  {
    m := n;
    while m > floor && x[m - 1] == 0
      invariant floor <= m <= n
      invariant forall i | m <= i < n :: x[i] == 0
    {
      m := m - 1;
    }
    ValTrim(x[..n], m);
    assert x[..n][..m] == x[..m];
  }
}
