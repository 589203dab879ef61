/** Bit shifts, bit tests and the increment of the big-integer kernel, word by word. */
module WordShifts {
  import opened Arith
  import opened Words
  import opened WordLoops

  lemma {:induction false} SplitAlgebra(x: Word, m: int, h: int)
    requires m > 0 && h > 0 && m * h == BASE
    ensures 0 <= x / h < m
    ensures x * m == (x / h) * BASE + (x % h) * m
    ensures 0 <= (x % h) * m <= BASE - m
  {
    var q, r: int := x / h, x % h;
    assert x == q * h + r;
    if q >= m {
      MulMonotone(m, q, h);
    }
    if q < 0 {
      MulMonotone(q, -1, h);
    }
    MulMonotone(r, h - 1, m);
    MulMonotone(0, r, m);
    assert (h - 1) * m == BASE - m;
    MulAssoc(q, h, m);
    assert (q * h + r) * m == (q * h) * m + r * m;
  }

  lemma {:induction false} HalfWords(k: nat)
    requires k <= 32
    ensures Exp2(k) * Exp2(32 - k) == BASE
  {
    Exp2Add(k, 32 - k);
    assert Exp2(32) == BASE by {
      Exp2Add(16, 16);
      assert Exp2(16) == 0x1_0000 by {
        Exp2Add(8, 8);
        assert Exp2(8) == 256;
      }
    }
  }

  /** A word splits at bit k: the part that stays and the part that moves to the next word. */
  lemma {:induction false} SplitWord(x: Word, k: nat)
    requires 1 <= k <= 31
    ensures 0 <= x / Exp2(32 - k) < Exp2(k)
    ensures x * Exp2(k) == (x / Exp2(32 - k)) * BASE + (x * Exp2(k)) % BASE
    ensures (x * Exp2(k)) % BASE == (x % Exp2(32 - k)) * Exp2(k) <= BASE - Exp2(k)
  {
    var m, h := Exp2(k), Exp2(32 - k);
    HalfWords(k);
    SplitAlgebra(x, m, h);
    DivModUnique(x * m, BASE, x / h, (x % h) * m);
  }

  lemma {:induction false} ShiftParts(x: Word, k: nat, t: int)
    requires 1 <= k <= 31 && t == x * Exp2(k)
    ensures 0 <= x / Exp2(32 - k) < Exp2(k)
    ensures t % BASE <= BASE - Exp2(k)
    ensures Prod(Exp2(k), x) == (x / Exp2(32 - k)) * BASE + t % BASE
  {
    hide Exp2, Prod;
    SplitWord(x, k);
    ProdIsProduct(Exp2(k), x);
  }

  /** (x << k) | z with the bits shifted out returned: the two operands of the or share no bits. */
  method ShiftStep(x: Word, k: nat, z: int) returns (lo: Word, hi: Word)
    requires 1 <= k <= 31 && 0 <= z < Exp2(k)
    ensures hi < Exp2(k)
    ensures Prod(Exp2(k), x) + z == hi * BASE + lo
  {
    var t: int := x * Exp2(k);
    ShiftParts(x, k, t);
    lo, hi := t % BASE + z, x / Exp2(32 - k);
  }

  /** dst[off..off + n + 1] := x[..n] << k. */
  method ShiftUpWords(dst: array<Word>, off: nat, x: array<Word>, n: nat, k: nat)
    requires n <= x.Length && off + n < dst.Length && x != dst && 1 <= k <= 31
    modifies dst
    ensures Val(dst[off..off + n + 1]) == Exp2(k) * Val(x[..n])
    ensures forall j | 0 <= j < dst.Length && !(off <= j <= off + n) :: dst[j] == old(dst[j])
  {
    ghost var x0, lo, m := x[..n], [], Exp2(k);
    var z: Word := 0;
    var i := 0;
    while i < n
      invariant i <= n && |lo| == i && z < Exp2(k)
      invariant forall j | 0 <= j < i :: dst[off + j] == lo[j]
      invariant forall j | 0 <= j < dst.Length && (j < off || off + i <= j) :: dst[j] == old(dst[j])
      invariant Val(lo) + Up(z, i) == Multiple(m, x0[..i])
    {
      var w, hi := ShiftStep(x[i], k, z);
      CarryStep(Val(lo), z, i, Multiple(m, x0[..i]), Prod(m, x0[i]), hi, w);
      ValPush(lo, w);
      MultiplePrefix(m, x0, i);
      dst[off + i], lo, z := w, lo + [w], hi;
      i := i + 1;
    }
    assert x0[..n] == x0;
    MultipleIsProduct(m, x0);
    dst[off + n] := z;
    ValPush(lo, z);
    assert dst[off..off + n + 1] == lo + [z];
  }

  /** What the shift down keeps: src[..i + 1] is m * (lo + y * BASE^i) plus the bits dropped from word 0. */
  ghost predicate Halved(lo: seq<Word>, y: int, m: nat, src: seq<Word>, i: nat, dropped: int)
    requires i < |src|
  {
    Val(src[..i + 1]) == Prod(Val(lo) + Up(y, i), m) + dropped
  }

  lemma {:induction false} ProdSum(a: int, b: int, m: nat)
    ensures Prod(a + b, m) == Prod(a, m) + Prod(b, m)
  {
    if m == 0 {
    } else {
      ProdSum(a, b, m - 1);
    }
  }

  lemma {:induction false} MoveDown(s: int, e: int, m: nat, i: nat)
    requires s * BASE == Prod(e, m)
    ensures Up(s, i + 1) == Prod(Up(e, i), m)
  {
    ProdIsProduct(e, m);
    ProdIsProduct(Up(e, i), m);
    UpNext(s, i);
    UpTimes(m, e, i);
  }

  lemma {:induction false} HalvedStep(lo: seq<Word>, y: int, m: nat, src: seq<Word>, i: nat, w: Word, hi: int,
      dropped: int)
    requires i == |lo| && i + 1 < |src|
    requires Halved(lo, y, m, src, i, dropped)
    requires src[i + 1] * BASE == Prod(w - y + hi * BASE, m)
    ensures Halved(lo + [w], hi, m, src, i + 1, dropped)
  {
    var e := w - y + hi * BASE;
    MoveDown(src[i + 1], e, m, i);
    ProdSum(Val(lo) + Up(y, i), Up(e, i), m);
    UpSum(w - y, hi * BASE, i);
    UpSum(w, y, i);
    UpNext(hi, i);
    ValPrefix(src, i + 1);
    ValPush(lo, w);
  }

  lemma {:induction false} SplitDown(s: Word, k: nat, t: int)
    requires 1 <= k <= 31 && t == s * Exp2(32 - k)
    ensures 0 <= s / Exp2(k) < Exp2(32 - k)
    ensures t % BASE <= BASE - Exp2(32 - k)
    ensures t == t % BASE + (s / Exp2(k)) * BASE
    ensures s * BASE == Prod(t, Exp2(k))
  {
    SplitWord(s, 32 - k);
    ProdIsProduct(t, Exp2(k));
    HalfWords(k);
    MulAssoc(s, Exp2(32 - k), Exp2(k));
  }

  /** y | (s << (32 - k)), and s >> k for the next word: s * BASE is 2^k times what these add. */
  method ShiftDownStep(s: Word, k: nat, y: Word) returns (w: Word, hi: Word)
    requires 1 <= k <= 31 && y < Exp2(32 - k)
    ensures hi < Exp2(32 - k)
    ensures s * BASE == Prod(w - y + hi * BASE, Exp2(k))
    ensures s != 0 && hi == 0 ==> w != 0
  {
    var t: int := s * Exp2(32 - k);
    if s > 0 {
      MulPositive(s, Exp2(32 - k));
    }
    SplitDown(s, k, t);
    w, hi := y + t % BASE, s / Exp2(k);
  }

  /** x[..m] := x[n..wds] >> k for a shift by whole words and 1 to 31 bits more. */
  method ShiftDownWords(x: array<Word>, n: nat, wds: nat, k: nat) returns (m: nat)
    requires n < wds <= x.Length && 1 <= k <= 31
    modifies x
    ensures wds - n - 1 <= m <= wds - n
    ensures Val(x[..m]) == Val(old(x[n..wds])) / Exp2(k)
    ensures m == wds - n || (m > 0 && old(x[wds - 1]) != 0) ==> x[m - 1] != 0
    ensures forall j | wds <= j < x.Length :: x[j] == old(x[j])
  {
    ghost var src, lo, p := x[n..wds], [], Exp2(k);
    ghost var dropped := src[0] % p;
    SplitDown(x[n], k, x[n] * Exp2(32 - k));
    var y: Word := x[n] / Exp2(k);
    var i := 0;
    HalvedStart(src, p);
    while n + i + 1 < wds
      invariant n + i + 1 <= wds && |lo| == i && y < Exp2(32 - k)
      invariant forall j | 0 <= j < i :: x[j] == lo[j]
      invariant forall j | i <= j < x.Length :: x[j] == old(x[j])
      invariant Halved(lo, y, p, src, i, dropped)
      invariant i > 0 && src[i] != 0 && y == 0 ==> lo[i - 1] != 0
    {
      var w, hi := ShiftDownStep(x[n + i + 1], k, y);
      HalvedStep(lo, y, p, src, i, w, hi, dropped);
      x[i], lo, y := w, lo + [w], hi;
      i := i + 1;
    }
    HalvedEnd(lo, y, p, src, i, dropped);
    x[i] := y;
    m := if y != 0 then i + 1 else i;
    assert x[..m] == if y != 0 then lo + [y] else lo;
  }

  lemma {:induction false} HalvedStart(src: seq<Word>, m: nat)
    requires |src| > 0 && m > 0
    ensures Halved([], src[0] / m, m, src, 0, src[0] % m)
  {
    ValPrefix(src, 0);
    assert src[..0] == [];
    ProdIsProduct(src[0] / m, m);
  }

  lemma {:induction false} HalvedEnd(lo: seq<Word>, y: Word, m: nat, src: seq<Word>, i: nat, dropped: int)
    requires 0 <= dropped < m && |src| == i + 1 && |lo| == i && Halved(lo, y, m, src, i, dropped)
    ensures Val(lo + [y]) == Val(src) / m
    ensures y == 0 ==> Val(lo) == Val(src) / m
  {
    assert src[..i + 1] == src;
    ValPush(lo, y);
    UpZero(i);
    ProdIsProduct(Val(lo + [y]), m);
    DivModUnique(Val(src), m, Val(lo + [y]), dropped);
  }

  /** The lowest n words and k bits above them are not all zero. */
  method AnyLowBits(x: array<Word>, n: nat, k: nat) returns (on: bool)
    requires n <= x.Length && k <= 31 && (k > 0 ==> n < x.Length)
    ensures on <==> (k > 0 && x[n] % Exp2(k) != 0) || Val(x[..n]) != 0
  {
    ValZeroIff(x[..n]);
    if k > 0 {
      var cleared := (x[n] / Exp2(k)) * Exp2(k);
      assert cleared == x[n] - x[n] % Exp2(k);
      if cleared != x[n] {
        return true;
      }
    }
    var i := n;
    while i > 0
      invariant 0 <= i <= n
      invariant forall j | i <= j < n :: x[j] == 0
    {
      i := i - 1;
      if x[i] != 0 {
        assert x[..n][i] != 0;
        return true;
      }
    }
    return false;
  }

  /** Carrying into word i and stopping there adds one. */
  lemma {:induction false} IncrementStop(x: seq<Word>, y: seq<Word>, i: nat)
    requires i < |x| == |y| && Up(1, i) == Val(x[..i]) + 1
    requires forall j | 0 <= j < i :: y[j] == 0
    requires y[i] == x[i] + 1 as int
    requires forall j | i < j < |x| :: y[j] == x[j]
    ensures Val(y) == Val(x) + 1
  {
    ValSameHigh(x, y, i + 1);
    ValPrefix(x, i);
    ValPrefix(y, i);
    ValZeros(y[..i]);
    UpSum(x[i], 1, i);
  }

  /** x[..n] := x[..n] + 1; overflow says that all words wrapped to zero. */
  method IncrementWords(x: array<Word>, n: nat) returns (overflow: bool)
    requires 1 <= n <= x.Length
    modifies x
    ensures Val(x[..n]) + (if overflow then Up(1, n) else 0) == Val(old(x[..n])) + 1
    ensures forall j | n <= j < x.Length :: x[j] == old(x[j])
  {
    ghost var x0 := x[..n];
    var i := 0;
    while i < n
      invariant i <= n
      invariant forall j | 0 <= j < i :: x[j] == 0
      invariant forall j | i <= j < x.Length :: x[j] == old(x[j])
      invariant Up(1, i) == Val(x0[..i]) + 1
    {
      if x[i] < BASE - 1 {
        x[i] := x[i] + 1;
        IncrementStop(x0, x[..n], i);
        return false;
      }
      ValPrefix(x0, i);
      UpNext(1, i);
      UpSum(BASE - 1, 1, i);
      x[i] := 0;
      i := i + 1;
    }
    assert x0[..n] == x0;
    ValZeros(x[..n]);
    return true;
  }
}
