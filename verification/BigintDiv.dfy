/** Comparison, difference, left shift and the one-digit division of big integers. */
module BigintDiv {
  import opened Arith
  import opened Words
  import opened WordLoops
  import opened WordShifts
  import opened Bigints

  /** x << k without a word limit. */
  ghost function Sh(x: int, k: nat): int {
    if k == 0 then x else 2 * Sh(x, k - 1)
  }

  lemma {:induction false} ShIsProduct(x: int, k: nat)
    ensures Sh(x, k) == x * Exp2(k)
  {
    if k == 0 {
    } else {
      ShIsProduct(x, k - 1);
      MulAssoc(2, x, Exp2(k - 1));
      MulAssoc(x, 2, Exp2(k - 1));
    }
  }

  lemma {:induction false} ShMore(x: int, k: nat, j: nat, f: int)
    requires f == Exp2(j)
    ensures Sh(x, k + j) == f * Sh(x, k)
  {
    ShIsProduct(x, k);
    ShIsProduct(x, k + j);
    Exp2Add(j, k);
    MulAssoc(x, Exp2(j), Exp2(k));
    MulAssoc(f, x, Exp2(k));
  }

  lemma {:induction false} SmallShifts()
    ensures Exp2(0) == 1 && Exp2(1) == 2 && Exp2(2) == 4 && Exp2(4) == 16 && Exp2(8) == 0x100
    ensures Exp2(16) == 0x1_0000 && Exp2(31) == 0x8000_0000 && Exp2(32) == BASE
  {
    assert Exp2(8) == 0x100;
    Exp2Add(8, 8);
    Exp2Add(16, 15);
    assert Exp2(16) == 2 * Exp2(15);
    assert Exp2(32) == 2 * Exp2(31);
  }

  /** A word that k shifts bring to bit 31 has k leading zero bits. */
  lemma {:induction false} Bracket(x0: Word, k: nat)
    requires k <= 31 && 0x8000_0000 <= Sh(x0, k) < BASE
    ensures Exp2(31 - k) <= x0 < Exp2(32 - k)
  {
    SmallShifts();
    ShIsProduct(x0, k);
    Exp2Add(31 - k, k);
    Exp2Add(32 - k, k);
    if x0 < Exp2(31 - k) {
      MulStrict(x0, Exp2(31 - k), Exp2(k));
    }
    MulCancel(x0, Exp2(32 - k), Exp2(k));
  }

  lemma {:induction false} ShNone(x: Word)
    ensures x == Sh(x, 0)
  {
  }

  /** The number of leading zero bits of a word. */
  method Hi0bits(x0: Word) returns (k: nat)
    ensures x0 == 0 <==> k == 32
    ensures x0 != 0 ==> k <= 31 && Exp2(31 - k) <= x0 < Exp2(32 - k)
  {
    hide Exp2, Sh;
    SmallShifts();
    var x: Word := x0;
    k := 0;
    ShNone(x0);
    if x < 0x1_0000 {
      ShMore(x0, 0, 16, 0x1_0000);
      k, x := 16, x * 0x1_0000;
    }
    assert x == Sh(x0, k) && k <= 16;
    if x < 0x100_0000 {
      ShMore(x0, k, 8, 0x100);
      k, x := k + 8, x * 0x100;
    }
    assert x == Sh(x0, k) && k <= 24;
    if x < 0x1000_0000 {
      ShMore(x0, k, 4, 0x10);
      k, x := k + 4, x * 0x10;
    }
    assert x == Sh(x0, k) && k <= 28;
    if x < 0x4000_0000 {
      ShMore(x0, k, 2, 4);
      k, x := k + 2, x * 4;
    }
    assert x == Sh(x0, k) && k <= 30;
    if x < 0x8000_0000 {
      ShMore(x0, k, 1, 2);
      k := k + 1;
      if x < 0x4000_0000 {
        return 32;
      }
    }
    Bracket(x0, k);
  }

  /** Bit length of a positive number: its top word is nonzero and has k leading zero bits. */
  lemma {:induction false} BitLength(s: seq<Word>, k: nat)
    requires |s| > 0 && k <= 31 && Exp2(31 - k) <= s[|s| - 1] < Exp2(32 - k)
    ensures Exp2(32 * |s| - k - 1) <= Val(s) < Exp2(32 * |s| - k)
  {
    var n := |s| - 1;
    ValTop(s);
    UpMonotone(Exp2(31 - k), s[n], n);
    UpMonotone(s[n] + 1 as int, Exp2(32 - k), n);
    UpIsShift(Exp2(31 - k), n);
    UpIsShift(Exp2(32 - k), n);
    Exp2Add(31 - k, 32 * n);
    Exp2Add(32 - k, 32 * n);
  }

  lemma {:induction false} UpIsShift(v: int, n: nat)
    ensures Up(v, n) == v * Exp2(32 * n)
  {
    if n == 0 {
    } else {
      UpIsShift(v, n - 1);
      Exp2Add(32, 32 * (n - 1));
      SmallShifts();
      MulAssoc(BASE, v, Exp2(32 * (n - 1)));
      MulAssoc(v, BASE, Exp2(32 * (n - 1)));
    }
  }

  /** A number with 32 * t + 28 significant bits has, without leading zeros, a top word with exactly four zero bits. */
  lemma {:induction false} FourZeroBits(s: seq<Word>, t: nat)
    requires |s| > 0 && (|s| > 1 ==> s[|s| - 1] != 0)
    requires Exp2(32 * t + 27) <= Val(s) < Exp2(32 * t + 28)
    ensures |s| == t + 1 && 0x800_0000 <= s[t] < 0x1000_0000
  {
    var n := |s| - 1;
    ValTop(s);
    var w: int := s[n];
    UpIsShift(w, n);
    UpIsShift(w + 1, n);
    TopIndex(w, n, t, Val(s));
  }

  lemma {:induction false} TopIndex(w: int, n: nat, t: nat, v: int)
    requires 0 <= w < BASE && (n > 0 ==> w > 0) && w * Exp2(32 * n) <= v < (w + 1) * Exp2(32 * n)
    requires Exp2(32 * t + 27) <= v < Exp2(32 * t + 28)
    ensures n == t && 0x800_0000 <= w < 0x1000_0000
  {
    SmallShifts();
    if n > t {
      Exp2Monotone(32 * t + 28, 32 * n);
      MulMonotone(1, w, Exp2(32 * n));
    } else if n < t {
      Exp2Monotone(32 * n + 32, 32 * t + 27);
      Exp2Add(32, 32 * n);
      MulMonotone(w + 1, BASE, Exp2(32 * n));
    } else {
      var p := Exp2(32 * t);
      Exp2Add(27, 32 * t);
      Exp2Add(28, 32 * t);
      assert Exp2(27) == 0x800_0000 && Exp2(28) == 0x1000_0000 by {
        Exp2Add(16, 11);
        Exp2Add(8, 3);
        Exp2Add(16, 12);
        Exp2Add(8, 4);
        assert Exp2(3) == 8;
      }
      MulCancel(0x800_0000, w + 1, p);
      MulCancel(w, 0x1000_0000, p);
    }
  }

  /** How far to shift b further, after a shift by p2, so that its top word gets four leading zero bits. */
  method Dshift(b: Bigint, p2: int) returns (r: nat)
    requires b.Ok() && b.wds > 0 && b.x[b.wds - 1] != 0
    ensures r < 32
    ensures p2 >= 0 ==> forall v: nat {:trigger FourZeroTop(v)} ::
              v == b.Value() * Exp2(p2 + r) ==> FourZeroTop(v)
  {
    var h := Hi0bits(b.x[b.wds - 1]);
    var rv := h - 4;
    if p2 > 0 {
      rv := rv - p2;
    }
    r := rv % 32;
    ghost var s := b.x[..b.wds];
    BitLength(s, h);
    if p2 >= 0 {
      ghost var e := 32 * |s| - h + p2 + r;
      ghost var t := e / 32;
      assert e % 32 == 28 by {
        DivModUnique(e, 32, |s| - (h - 4 - p2) / 32 - 1, 28);
      }
      ShiftBits(Val(s), 32 * |s| - h, p2 + r);
      assert FourZeroAt(Val(s) * Exp2(p2 + r), t);
    }
  }

  lemma {:induction false} ShiftBits(v: nat, len: nat, k: nat)
    requires len > 0 && Exp2(len - 1) <= v < Exp2(len)
    ensures Exp2(len + k - 1) <= v * Exp2(k) < Exp2(len + k)
  {
    Exp2Add(len - 1, k);
    Exp2Add(len, k);
    MulMonotone(Exp2(len - 1), v, Exp2(k));
    MulStrict(v, Exp2(len), Exp2(k));
  }

  ghost predicate FourZeroAt(v: nat, t: nat) {
    Exp2(32 * t + 27) <= v < Exp2(32 * t + 28)
  }

  /** The most significant word of v has exactly four leading zero bits. */
  ghost predicate FourZeroTop(v: nat) {
    exists t: nat :: FourZeroAt(v, t)
  }

  /** -, 0 or + as a is below, equal to or above b; only two zeros in different forms are told apart. */
  method Cmp(a: Bigint, b: Bigint) returns (r: int)
    requires a.Norm() && b.Norm() && a.wds + b.wds > 0
    ensures a.Value() != 0 || b.Value() != 0 || a.wds == b.wds ==>
              (r < 0 <==> a.Value() < b.Value()) && (r > 0 <==> a.Value() > b.Value())
    ensures a.Value() == 0 == b.Value() ==> r == a.wds - b.wds
  {
    r := a.wds - b.wds;
    if r == 0 {
      r := CompareWords(a.x, b.x, a.wds);
    } else if a.wds > b.wds {
      Longer(a, b);
    } else {
      Longer(b, a);
    }
  }

  lemma {:induction false} Longer(a: Bigint, b: Bigint)
    requires a.Norm() && b.Norm() && a.wds > b.wds
    ensures a.Value() > b.Value() || (a.Value() == 0 == b.Value() && a.wds == 1 && b.wds == 0)
  {
    var s, t := a.x[..a.wds], b.x[..b.wds];
    if a.wds > 1 || a.x[0] != 0 {
      ValShorter(t, s);
    } else {
      ValZeroIff(s);
      ValZeroIff(t);
    }
  }

  /** |a - b| with the sign of a - b in the result's sign flag. */
  method Diff(pool: Pool, a: Bigint, b: Bigint) returns (c: Bigint)
    requires pool.Valid() && a in pool.held && b in pool.held && a.Norm() && b.Norm()
    requires a.Value() != 0 || b.Value() != 0
    modifies pool.spare
    ensures pool.Valid() && pool.powers == old(pool.powers) && pool.p5s == old(pool.p5s)
    ensures c !in old(pool.held) && pool.held == old(pool.held) + {c}
    ensures c.Norm() && c.wds > 0 && (c.sign <==> old(a.Value()) < old(b.Value()))
    ensures c.Value() == if c.sign then old(b.Value()) - old(a.Value()) else old(a.Value()) - old(b.Value())
    ensures fresh({c as object, c.x} - old(pool.spare))
    ensures fresh(pool.spare - old(pool.spare))
  {
    hide Disjoint, Fives, Lists, Spared, Linked, Val;
    NonzeroHasWords(a);
    NonzeroHasWords(b);
    var i := Cmp(a, b);
    if i == 0 {
      c := pool.Balloc(0);
      pool.HeldApart(c);
      SetZero(c);
    } else if i < 0 {
      c := Subtract(pool, b, a, true);
    } else {
      c := Subtract(pool, a, b, false);
    }
  }

  /** a - b for a above b, with the given sign flag. */
  method Subtract(pool: Pool, a: Bigint, b: Bigint, sign: bool) returns (c: Bigint)
    requires pool.Valid() && a in pool.held && b in pool.held && a.Norm() && b.Norm() && a.Value() > b.Value()
    modifies pool.spare
    ensures pool.Valid() && pool.powers == old(pool.powers) && pool.p5s == old(pool.p5s)
    ensures c !in old(pool.held) && pool.held == old(pool.held) + {c}
    ensures c.Norm() && c.wds > 0 && c.sign == sign && c.Value() == old(a.Value()) - old(b.Value())
    ensures fresh({c as object, c.x} - old(pool.spare))
    ensures fresh(pool.spare - old(pool.spare))
  {
    hide Disjoint, Fives, Lists, Spared, Linked, Val;
    pool.HeldApart(a);
    pool.HeldApart(b);
    Larger(a, b);
    c := pool.Balloc(a.k);
    pool.HeldApart(c);
    DiffInto(c, a, b);
    c.sign := sign;
  }

  lemma {:induction false} NonzeroHasWords(b: Bigint)
    requires b.Ok()
    ensures b.Value() != 0 ==> b.wds > 0
  {
  }

  lemma {:induction false} Larger(a: Bigint, b: Bigint)
    requires a.Norm() && b.Norm() && a.Value() > b.Value()
    ensures a.wds >= b.wds && a.wds > 0
  {
    NonzeroHasWords(a);
    if a.wds < b.wds {
      Longer(b, a);
    }
  }

  method SetZero(c: Bigint)
    requires c.Sized()
    modifies c`wds, c.x
    ensures c.Norm() && c.wds == 1 && c.Value() == 0
  {
    c.wds := 1;
    c.x[0] := 0;
    ValZeros(c.x[..1]);
  }

  method DiffInto(c: Bigint, a: Bigint, b: Bigint)
    requires a.Norm() && b.Ok() && c.Sized() && b.wds <= a.wds <= c.maxwds && a.Value() > b.Value()
    requires c != a && c != b && c.x != a.x && c.x != b.x
    modifies c`wds, c.x
    ensures c.Norm() && c.wds > 0 && c.Value() == a.Value() - b.Value()
  {
    DiffWords(c.x, a.x, a.wds, b.x, b.wds);
    c.wds := DropLeadingZeros(c.x, a.wds, 0);
  }

  /** b << k in a new block; the block of b is given back. */
  method Lshift(pool: Pool, b: Bigint, k: nat) returns (b1: Bigint)
    requires pool.Valid() && pool.Owned(b) && b.Ok() && b.wds > 0
    modifies pool.spare, b
    ensures pool.Valid() && pool.powers == old(pool.powers)
    ensures pool.held == old(pool.held) - {b} + {b1} && b1 !in old(pool.held)
    ensures b1.Ok() && b1.wds > 0 && b1.Value() == old(b.Value()) * Exp2(k)
    ensures old(b.Norm() && b.Value() != 0) ==> b1.Norm()
    ensures fresh({b1 as object, b1.x} - old(pool.spare))
    ensures fresh(pool.spare - old(pool.spare) - {b, b.x})
  {
    hide Disjoint, Fives, Lists, Spared, Linked, Val;
    var n := k / 32;
    var n1 := n + b.wds + 1;
    var k1, i := b.k, b.maxwds;
    while n1 > i
      invariant i == Exp2(k1)
      decreases n1 - i
    {
      k1, i := k1 + 1, i * 2;
    }
    pool.HeldApart(b);
    b1 := pool.Balloc(k1);
    pool.HeldApart(b1);
    ShiftInto(b1, b, n, k % 32);
    SplitShift(b.Value(), n, k);
    pool.Bfree(b);
  }

  lemma {:induction false} SplitShift(v: nat, n: nat, k: nat)
    requires n == k / 32
    ensures Up(v * Exp2(k % 32), n) == v * Exp2(k)
  {
    UpIsShift(v * Exp2(k % 32), n);
    Exp2Add(k % 32, 32 * n);
    MulAssoc(v, Exp2(k % 32), Exp2(32 * n));
  }

  /** dst := src << (32 * n + k) for less than a word of extra bits. */
  method ShiftInto(dst: Bigint, src: Bigint, n: nat, k: nat)
    requires src.Ok() && src.wds > 0 && dst.Sized() && n + src.wds + 1 <= dst.maxwds && k < 32
    requires dst != src && dst.x != src.x
    modifies dst`wds, dst.x
    ensures dst.Ok() && dst.wds > 0 && dst.Value() == Up(src.Value() * Exp2(k), n)
    ensures src.Norm() && src.Value() != 0 ==> dst.Norm()
  {
    var w := src.wds;
    ghost var s := src.x[..w];
    forall i | 0 <= i < n {
      dst.x[i] := 0;
    }
    var n1 := ShiftWords(dst.x, n, src.x, w, k);
    dst.wds := n1;
    LowZeros(dst.x[..n1], n);
    assert dst.x[..n1][n..] == dst.x[n..n1];
    if src.Norm() && src.Value() != 0 && n1 == n + w {
      KeepsTop(s, dst.x[n..n1], k);
    }
  }

  /** dst[n..n1] := x[..w] << k, leaving out a top word of zero. */
  method ShiftWords(dst: array<Word>, n: nat, x: array<Word>, w: nat, k: nat) returns (n1: nat)
    requires w <= x.Length && n + w + 1 <= dst.Length && dst != x && k < 32
    modifies dst
    ensures n + w <= n1 <= n + w + 1 && (n1 == n + w + 1 ==> dst[n + w] != 0)
    ensures Val(dst[n..n1]) == Val(x[..w]) * Exp2(k)
    ensures forall j | 0 <= j < n :: dst[j] == old(dst[j])
  {
    assert Exp2(0) == 1;
    hide Val, Exp2;
    n1 := n + w;
    if k > 0 {
      ShiftUpWords(dst, n, x, w, k);
      if dst[n1] != 0 {
        n1 := n1 + 1;
      } else {
        ValDropZero(dst[n..n + w + 1]);
        assert dst[n..n + w + 1][..w] == dst[n..n + w];
      }
    } else {
      forall i | 0 <= i < w {
        dst[n + i] := x[i];
      }
      assert dst[n..n + w] == x[..w];
    }
  }

  lemma {:induction false} ValDropZero(s: seq<Word>)
    requires |s| > 0 && s[|s| - 1] == 0
    ensures Val(s) == Val(s[..|s| - 1])
  {
    ValTrim(s, |s| - 1);
  }

  lemma {:induction false} LowZeros(s: seq<Word>, n: nat)
    requires n <= |s| && forall i | 0 <= i < n :: s[i] == 0
    ensures Val(s) == Up(Val(s[n..]), n)
  {
    ValSplit(s, n);
    ValZeros(s[..n]);
  }

  /** A shift that needs no further word keeps the top word nonzero. */
  lemma {:induction false} KeepsTop(s: seq<Word>, t: seq<Word>, k: nat)
    requires |s| == |t| > 0 && Val(t) == Val(s) * Exp2(k) && Val(s) != 0
    requires |s| > 1 ==> s[|s| - 1] != 0
    ensures t[|t| - 1] != 0
  {
    TopNonzero(t);
    MulMonotone(1, Exp2(k), Val(s));
    if |s| > 1 {
      TopNonzero(s);
    }
  }

  lemma {:induction false} EstimateLow(v: int, w: int, bt: int, st: int, n: nat, q: int)
    requires 0 <= q && q * (st + 1) <= bt && Up(bt, n) <= v && w < Up(st + 1, n)
    ensures q * w <= v
  {
    UpTimes(q, st + 1, n);
    UpMonotone(q * (st + 1), bt, n);
    MulMonotone(w, Up(st + 1, n), q);
  }

  lemma {:induction false} EstimateHigh(v: int, w: int, bt: int, st: int, n: nat, c: int)
    requires 0 <= c <= st && bt < c * (st + 1) && v < Up(bt + 1, n) && Up(st, n) <= w
    ensures v < c * w + w
  {
    UpTimes(c, st + 1, n);
    UpMonotone(bt + 1, c * (st + 1), n);
    UpSum(st, 1, n);
    UpTimes(c, 1, n);
    UpMonotone(c, st, n);
    Spread(c, w, Up(st + 1, n), Up(st, n), Up(1, n));
  }

  lemma {:induction false} NextMultiple(q: int, w: int)
    ensures (q + 1) * w == q * w + w && 1 * w == w
  {
  }

  lemma {:induction false} DivBounds(a: int, d: int)
    requires d > 0
    ensures (a / d) * d <= a < (a / d + 1) * d
  {
  }

  /** Dividing the top words, the divisor's rounded up, gives the quotient or one less. */
  lemma {:induction false} Estimate(v: int, w: int, bt: int, st: int, n: nat, q: int)
    requires 10 < st && 0 <= bt && q == bt / (st + 1)
    requires Up(bt, n) <= v < Up(bt + 1, n) && Up(st, n) <= w < Up(st + 1, n)
    requires 0 < w && v < 10 * w
    ensures 0 <= q <= 9 && q * w <= v < q * w + 2 * w
  {
    DivBounds(bt, st + 1);
    EstimateLow(v, w, bt, st, n, q);
    if q >= 10 {
      MulMonotone(10, q, w);
    }
    EstimateHigh(v, w, bt, st, n, q + 1);
    assert (q + 1) * w == q * w + w;
  }

  lemma {:induction false} Spread(c: int, w: int, u: int, a: int, e: int)
    requires 0 <= c && u == a + e && a <= w && c * e <= w
    ensures c * u <= c * w + w
  {
    MulMonotone(a, w, c);
    assert c * (a + e) == c * a + c * e;
  }

  /** Drops the leading zero words of b, whose value sits in the first n + 1 words. */
  method TrimTop(b: Bigint, n: nat)
    requires b.Sized() && b.wds == n + 1 <= b.maxwds
    modifies b`wds
    ensures b.Norm() && b.wds <= n + 1 && b.Value() == Val(b.x[..n + 1])
  {
    if b.x[n] == 0 {
      ValDropZero(b.x[..n + 1]);
      assert b.x[..n + 1][..n] == b.x[..n];
      b.wds := DropLeadingZeros(b.x, n, Min(n, 1));
    }
  }

  /** b := b - q * s for a product that is not larger: nothing is left to borrow. */
  method SubtractMultiple(b: Bigint, s: Bigint, q: Word)
    requires b.Norm() && s.Norm() && b.wds == s.wds > 0 && b != s && b.x != s.x
    requires b.Value() >= q * s.Value()
    modifies b`wds, b.x
    ensures b.Norm() && b.wds <= s.wds && b.Value() == old(b.Value()) - q * s.Value()
  {
    var n := s.wds - 1;
    var short := SubMulWords(b.x, s.x, n + 1, q);
    ValBound(b.x[..n + 1]);
    UpZero(n + 1);
    assert short == 0 by {
      UpMonotone(1, short, n + 1);
    }
    TrimTop(b, n);
  }

  /** The correction: b := b - s if that is not negative, which is enough below 2 * s. */
  method SubtractOnce(b: Bigint, s: Bigint) returns (again: bool)
    requires b.Norm() && s.Norm() && b.wds <= s.wds && b != s && b.x != s.x
    requires 0 < s.Value() && b.Value() < 2 * s.Value()
    modifies b`wds, b.x
    ensures b.Norm() && (again <==> old(b.Value()) >= s.Value())
    ensures b.Value() == (if again then old(b.Value()) - s.Value() else old(b.Value())) < s.Value()
  {
    hide Val;
    NonzeroHasWords(s);
    var r := Cmp(b, s);
    again := r >= 0;
    if again {
      if b.wds < s.wds {
        Longer(s, b);
      }
      NextMultiple(0, s.Value());
      SubtractMultiple(b, s, 1);
    }
  }

  /** Returns b / s and leaves b % s in b. */
  method Quorem(b: Bigint, s: Bigint) returns (q: nat)
    requires b.Norm() && s.Norm() && s.wds > 0 && b != s && b.x != s.x
    requires 10 < s.x[s.wds - 1] < 0x1000_0000
    requires b.Value() < 10 * s.Value()
    modifies b`wds, b.x
    ensures b.Norm() && q <= 9 && s.Value() > 0
    ensures q == old(b.Value()) / s.Value() && b.Value() == old(b.Value()) % s.Value()
  {
    hide Val;
    ghost var v, w := b.Value(), s.Value();
    SizeOfDividend(b, s);
    var n := s.wds;
    if b.wds < n {
      Longer(s, b);
      DivModUnique(v, w, 0, v);
      return 0;
    }
    n := n - 1;
    q := b.x[n] / (s.x[n] + 1 as int);
    QuotientDigit(b, s, q);
    if q > 0 {
      SubtractMultiple(b, s, q);
    }
    NextMultiple(q, w);
    var again := SubtractOnce(b, s);
    if again {
      q := q + 1;
    }
    DivModUnique(v, w, q, b.Value());
  }

  lemma {:induction false} QuotientDigit(b: Bigint, s: Bigint, q: int)
    requires b.Norm() && s.Norm() && b.wds == s.wds > 0 && 10 < s.x[s.wds - 1]
    requires 0 < s.Value() && b.Value() < 10 * s.Value()
    requires q == b.x[b.wds - 1] / (s.x[s.wds - 1] + 1 as int)
    ensures 0 <= q <= 9 && q * s.Value() <= b.Value() < q * s.Value() + 2 * s.Value()
  {
    var n := s.wds - 1;
    ValTop(b.x[..n + 1]);
    ValTop(s.x[..n + 1]);
    Estimate(b.Value(), s.Value(), b.x[n], s.x[n], n, q);
  }

  /** A number below 10 * s has no more words than s, since s leaves four bits free. */
  lemma {:induction false} SizeOfDividend(b: Bigint, s: Bigint)
    requires b.Norm() && s.Norm() && s.wds > 0 && 0 < s.x[s.wds - 1] < 0x1000_0000
    requires b.Value() < 10 * s.Value()
    ensures b.wds <= s.wds && s.Value() > 0
  {
    var n := s.wds - 1;
    var top: int := s.x[n];
    ValTop(s.x[..n + 1]);
    UpMonotone(0, top, n);
    UpZero(n);
    if b.wds > s.wds {
      TopNonzero(b.x[..b.wds]);
      UpGrows(1, s.wds, b.wds - 1);
      UpTimes(10, top + 1, n);
      UpMonotone(10 * (top + 1), BASE, n);
      UpNext(1, n);
    }
  }
}
