/** Reading a hexadecimal significand: packing its digits and rounding them to 53 bits. */
module HexRound {
  import opened Arith
  import opened Words
  import opened WordLoops
  import opened WordShifts
  import opened Bigints
  import opened BigintOps
  import opened BigintDiv

  const NBITS: nat := 53

  /** Whole words above do not show in the low bits. */
  lemma {:induction false} ModWord(w: Word, rest: nat, k: nat)
    requires k <= 32
    ensures (w + BASE * rest) % Exp2(k) == w % Exp2(k)
  {
    var m, h := Exp2(k), Exp2(32 - k);
    HalfWords(k);
    MulAssoc(m, h, rest);
    var q: int := w / m;
    assert w == q * m + w % m;
    assert m * (h * rest) == (h * rest) * m;
    assert (q + h * rest) * m == q * m + (h * rest) * m;
    MulNonnegative(h, rest);
    DivModUnique(w + BASE * rest, m, q + h * rest, w % m);
  }

  /** The low bits of a number, read off its words. */
  lemma {:induction false} LowBits(s: seq<Word>, n: nat, k: nat)
    requires n < |s| && k <= 32
    ensures Val(s) % Exp2(32 * n + k) == Val(s[..n]) + Up(s[n] % Exp2(k), n)
  {
    var hi, rest := s[n..], s[n + 1..];
    ValSplit(s, n);
    ValSplit(hi, 1);
    ValSingle(hi);
    assert hi[1..] == rest;
    ModWord(s[n], Val(rest), k);
    ValBound(s[..n]);
    UpIsShift(1, n);
    UpIsShift(Val(hi), n);
    UpIsShift(s[n] % Exp2(k), n);
    Exp2Add(32 * n, k);
    DivDiv(Val(s), Exp2(32 * n), Exp2(k), Val(hi), Val(s[..n]));
  }

  /** Whether any of the lowest k bits of b is set. */
  method AnyOn(b: Bigint, k: nat) returns (on: bool)
    requires b.Ok()
    ensures on <==> b.Value() % Exp2(k) != 0
  {
    var n, j := k / 32, k % 32;
    ghost var s := b.x[..b.wds];
    if n >= b.wds {
      on := AnyLowBits(b.x, b.wds, 0);
      ValBound(s);
      UpIsShift(1, b.wds);
      Exp2Monotone(32 * b.wds, k);
      DivModUnique(Val(s), Exp2(k), 0, Val(s));
    } else {
      on := AnyLowBits(b.x, n, j);
      LowBits(s, n, j);
      assert s[..n] == b.x[..n];
      UpMonotone(0, s[n] % Exp2(j), n);
      UpZero(n);
      assert Exp2(0) == 1;
    }
  }

  /** Bit k of b. */
  method BitAt(b: Bigint, k: nat) returns (bit: nat)
    requires b.Ok() && k / 32 < b.wds
    ensures bit <= 1 && b.Value() % Exp2(k + 1) == bit * Exp2(k) + b.Value() % Exp2(k)
  {
    var n, j := k / 32, k % 32;
    bit := (b.x[n] / Exp2(j)) % 2;
    ghost var s := b.x[..b.wds];
    LowBits(s, n, j);
    LowBits(s, n, j + 1);
    BitOf(s[n], j, bit);
    UpSum(bit * Exp2(j), s[n] % Exp2(j), n);
    UpIsShift(bit * Exp2(j), n);
    Exp2Add(j, 32 * n);
    MulAssoc(bit, Exp2(j), Exp2(32 * n));
  }

  lemma {:induction false} BitOf(w: nat, j: nat, bit: nat)
    requires bit == (w / Exp2(j)) % 2
    ensures w % Exp2(j + 1) == bit * Exp2(j) + w % Exp2(j)
  {
    var m := Exp2(j);
    var q, r := w / m, w % m;
    assert q == 2 * (q / 2) + bit;
    assert w == (q / 2) * (2 * m) + (bit * m + r) by {
      MulAssoc(q / 2, 2, m);
      assert (2 * (q / 2) + bit) * m == (2 * (q / 2)) * m + bit * m;
    }
    DivModUnique(w, 2 * m, q / 2, bit * m + r);
  }

  /** b := b >> k. */
  method Rshift(b: Bigint, k: nat)
    requires b.Ok()
    modifies b`wds, b.x
    ensures b.Ok() && b.Value() == old(b.Value()) / Exp2(k)
    ensures old(b.Norm()) ==> b.Norm()
  {
    var n, j := k / 32, k % 32;
    ghost var v, s := b.Value(), b.x[..b.wds];
    if n >= b.wds {
      ValBound(s);
      UpIsShift(1, b.wds);
      Exp2Monotone(32 * b.wds, k);
      DivModUnique(v, Exp2(k), 0, v);
      b.wds := 0;
    } else {
      assert b.x[n..b.wds] == s[n..];
      WholeWords(s, n, k);
      b.wds := MoveDown(b.x, n, b.wds, j);
    }
    if b.wds == 0 {
      b.x[0] := 0;
    }
  }

  /** Writes x[n..wds] >> j over the low words of x. */
  method MoveDown(x: array<Word>, n: nat, wds: nat, j: nat) returns (m: nat)
    requires n < wds <= x.Length && j < 32
    modifies x
    ensures m <= wds && Val(x[..m]) == old(Val(x[n..wds])) / Exp2(j)
    ensures old(x[wds - 1]) != 0 && m > 0 ==> x[m - 1] != 0
  {
    if j > 0 {
      m := ShiftDownWords(x, n, wds, j);
    } else {
      assert Exp2(0) == 1;
      MoveDownWords(x, n, wds);
      m := wds - n;
    }
  }

  method MoveDownWords(x: array<Word>, n: nat, wds: nat)
    requires n <= wds <= x.Length
    modifies x
    ensures x[..wds - n] == old(x[n..wds])
  {
    var i := 0;
    while n + i < wds
      invariant n + i <= wds
      invariant forall t | 0 <= t < i :: x[t] == old(x[n + t])
      invariant forall t | i <= t < x.Length :: x[t] == old(x[t])
    {
      x[i] := x[n + i];
      i := i + 1;
    }
  }

  lemma {:induction false} WholeWords(s: seq<Word>, n: nat, k: nat)
    requires n == k / 32 && n <= |s|
    ensures Val(s) / Exp2(k) == Val(s[n..]) / Exp2(k % 32)
  {
    ValSplit(s, n);
    ValBound(s[..n]);
    UpIsShift(1, n);
    UpIsShift(Val(s[n..]), n);
    Exp2Add(32 * n, k % 32);
    DivDiv(Val(s), Exp2(32 * n), Exp2(k % 32), Val(s[n..]), Val(s[..n]));
  }

  lemma {:induction false} DivDiv(v: nat, p: nat, m: nat, q: nat, r: nat)
    requires p > 0 && m > 0 && v == r + q * p && r < p
    ensures p * m > 0 && v / (p * m) == q / m && v % (p * m) == (q % m) * p + r
  {
    var a, c := q / m, q % m;
    MulPositive(p, m);
    assert q == a * m + c;
    assert v == a * (p * m) + (c * p + r) by {
      MulAssoc(a, m, p);
      assert (a * m + c) * p == (a * m) * p + c * p;
      assert m * p == p * m;
    }
    MulMonotone(c + 1, m, p);
    assert (c + 1) * p == c * p + p;
    MulNonnegative(c, p);
    DivModUnique(v, p * m, a, c * p + r);
  }

  /** b := b + 1. */
  method Increment(pool: Pool, b: Bigint) returns (r: Bigint)
    requires pool.Valid() && pool.Owned(b) && b.Norm() && b.wds > 0
    modifies pool.spare, b, b.x
    ensures pool.Valid() && pool.powers == old(pool.powers)
    ensures pool.held == old(pool.held) - {b} + {r} && pool.Owned(r)
    ensures r.Norm() && r.wds > 0 && r.Value() == old(b.Value()) + 1
    ensures r == b || r !in old(pool.held)
    ensures fresh({r as object, r.x} - old(pool.spare) - {b, b.x})
    ensures fresh(pool.spare - old(pool.spare) - {b, b.x})
  {
    hide Disjoint, Fives, Lists, Spared, Linked, Val;
    pool.HeldApart(b);
    r := b;
    var overflow := IncrementNumber(b);
    if overflow {
      r := PushWord(pool, b, 1);
    }
  }

  method IncrementNumber(b: Bigint) returns (overflow: bool)
    requires b.Norm() && b.wds > 0
    modifies b.x
    ensures b.Ok() && b.Value() + (if overflow then Up(1, b.wds) else 0) == old(b.Value()) + 1
    ensures !overflow ==> b.Norm()
  {
    ghost var s := b.x[..b.wds];
    overflow := IncrementWords(b.x, b.wds);
    TopNonzero(s);
    TopNonzero(b.x[..b.wds]);
  }

  /** The rounding modes, with the values of FLT_ROUNDS in this order. */
  datatype Rounding = Zero | Near | Upward | Downward

  /** v / m as an integer: exact, toward zero, to the nearest with ties to even, or away from or toward the sign. */
  function Rounded(v: nat, m: nat, mode: Rounding, negative: bool): nat
    requires m > 0
  {
    var q, r := v / m, v % m;
    if r == 0 then q
    else match mode
      case Zero => q
      case Near => if 2 * r > m || (2 * r == m && q % 2 == 1) then q + 1 else q
      case Upward => if negative then q else q + 1
      case Downward => if negative then q + 1 else q
  }

  function Quotient(w: nat, p: nat): nat
    requires p > 0
  {
    w / p
  }

  /** What was cut off: nothing, less than half, half, or more than half of the last place kept. */
  function Lost(v: nat, n: nat): (lost: nat)
    requires n > 0
    ensures lost <= 3
  {
    var r := v % Exp2(n);
    if r == 0 then 0 else if r < Exp2(n - 1) then 1 else if r == Exp2(n - 1) then 2 else 3
  }

  /** The four-way summary of the lowest n bits of b. */
  method LostBits(b: Bigint, n: nat) returns (lost: nat)
    requires b.Ok() && n > 0 && (n - 1) / 32 < b.wds
    ensures lost == Lost(b.Value(), n)
  {
    lost := 0;
    var on := AnyOn(b, n);
    if on {
      lost := 1;
      var k := n - 1;
      var bit := BitAt(b, k);
      assert b.Value() % Exp2(n) == bit * Exp2(k) + b.Value() % Exp2(k);
      if bit == 1 {
        lost := 2;
        var below := AnyOn(b, k);
        if k > 0 && below {
          lost := 3;
        }
        assert Exp2(0) == 1;
      }
    }
  }

  /** The lost bits decide the rounding as the exact remainder does. */
  lemma {:induction false} LostDecides(v: nat, n: nat, mode: Rounding, negative: bool)
    requires n > 0
    ensures var q := Quotient(v, Exp2(n));
            Rounded(v, Exp2(n), mode, negative) == q + if RoundUp(Lost(v, n), q, mode, negative) then 1 else 0
  {
    assert Exp2(n) == 2 * Exp2(n - 1);
  }

  /** The code's choice: lostbits and the last bit kept. */
  predicate RoundUp(lost: nat, kept: nat, mode: Rounding, negative: bool) {
    lost != 0 && match mode
      case Zero => false
      case Near => lost >= 2 && (lost % 2 == 1 || kept % 2 == 1)
      case Upward => !negative
      case Downward => negative
  }

  /** Truncation and rounding move the value by less than one place, and by at most half to nearest. */
  lemma {:induction false} RoundedIsClose(v: nat, m: nat, mode: Rounding, negative: bool)
    requires m > 0
    ensures var r := Rounded(v, m, mode, negative);
            && r * m - v < m && v - r * m < m
            && (mode == Near ==>
                  && 2 * (r * m - v) <= m && 2 * (v - r * m) <= m
                  && (2 * (r * m - v) == m || 2 * (v - r * m) == m ==> r % 2 == 0))
            && (mode == Zero ==> r * m <= v)
            && (mode == Upward ==> if negative then r * m <= v else r * m >= v)
            && (mode == Downward ==> if negative then r * m >= v else r * m <= v)
  {
    var q := v / m;
    assert v == q * m + v % m;
    assert (q + 1) * m == q * m + m;
  }

  /** The number of bits of a natural. */
  ghost function BitLen(v: nat): nat {
    if v == 0 then 0 else 1 + BitLen(v / 2)
  }

  lemma {:induction false} BitLenIs(v: nat, n: nat)
    requires n > 0 && Exp2(n - 1) <= v < Exp2(n)
    ensures BitLen(v) == n
    decreases n
  {
    if n > 1 {
      BitLenIs(v / 2, n - 1);
    } else {
      assert v == 1 && v / 2 == 0;
      assert BitLen(0) == 0;
    }
  }

  /** The exponents of the smallest and the largest unit of a double. */
  const EMIN: int := -1074
  const EMAX: int := 971

  /** The exponent that goes with the 53 highest bits of v * 2^e0. */
  ghost function TopExponent(v: nat, e0: int): int {
    e0 + BitLen(v) - NBITS
  }

  /** v * 2^e0 as an integer number of units 2^u. */
  function RoundedAt(v: nat, e0: int, u: int, mode: Rounding, negative: bool): nat {
    Rounded(v * Exp2(Max(e0 - u, 0)), Exp2(Max(u - e0, 0)), mode, negative)
  }

  /** Significand and exponent of v * 2^e0 rounded to 53 bits, or to the smallest unit where that is coarser. */
  ghost function Best(v: nat, e0: int, mode: Rounding, negative: bool): (nat, int) {
    var u := Max(TopExponent(v, e0), EMIN);
    var r := RoundedAt(v, e0, u, mode, negative);
    if r == Exp2(NBITS) then (Exp2(NBITS - 1), u + 1) else (r, u)
  }

  /** v with zeros below until it has 53 bits, and the bits below the 53 highest. */
  ghost function Widened(v: nat): nat {
    v * Exp2(Max(NBITS - BitLen(v), 0))
  }

  ghost function ExtraBits(v: nat): nat {
    Max(BitLen(v) - NBITS, 0)
  }

  /** The 53 highest bits, and the summary of the others. */
  ghost function TopBits53(v: nat): nat {
    Quotient(Widened(v), Exp2(ExtraBits(v)))
  }

  ghost function LostBelow(w: nat, c: nat): nat {
    if c == 0 then 0 else Lost(w, c)
  }

  /** A number of 53 bits sits in two words, and bit 53 shows in the top one. */
  lemma {:induction false} TwoWords(b: Bigint)
    requires b.Norm() && Exp2(NBITS - 1) <= b.Value() <= Exp2(NBITS)
    ensures b.wds == 2 && b.Value() == b.x[0] + BASE * b.x[1]
    ensures Exp2(NBITS - 1) == 0x10_0000 * BASE && Exp2(NBITS) == 0x20_0000 * BASE
    ensures 0x10_0000 <= b.x[1] <= 0x20_0000
  {
    var s := b.x[..b.wds];
    ValBound(s);
    Fifty();
    UpGrows(1, 2, Max(b.wds, 3) - 1);
    assert Up(1, 1) == BASE && Up(1, 2) == BASE * BASE;
    if b.wds > 2 {
      TopNonzero(s);
    }
    if b.wds == 2 {
      ValPrefix(s, 1);
      ValSingle(s);
      assert s[..2] == s;
    }
  }

  lemma {:induction false} Fifty()
    ensures Exp2(52) == 0x10_0000 * BASE && Exp2(53) == 0x20_0000 * BASE
  {
    SmallShifts();
    Exp2Add(32, 20);
    Exp2Add(16, 4);
    assert Exp2(53) == 2 * Exp2(52);
  }

  lemma {:induction false} CutCases(v: nat)
    ensures var n, w, c := BitLen(v), Widened(v), ExtraBits(v);
            && (n <= NBITS ==> TopBits53(v) == v * Exp2(NBITS - n) && LostBelow(w, c) == 0)
            && (n == NBITS ==> TopBits53(v) == v)
            && (n > NBITS ==> TopBits53(v) == v / Exp2(n - NBITS) && LostBelow(w, c) == Lost(v, n - NBITS))
  {
    ExpZero();
  }

  /** Cuts or widens the nonzero significand b to exactly 53 bits. */
  method CutSignificand(pool: Pool, b0: Bigint, e0: int) returns (b: Bigint, e: int, lost: nat)
    requires pool.Valid() && pool.Owned(b0) && b0.Norm() && b0.Value() > 0
    modifies pool.spare, b0, b0.x
    ensures pool.Valid() && pool.Owned(b) && b.Norm() && Exp2(NBITS - 1) <= b.Value() < Exp2(NBITS)
    ensures b.Value() == TopBits53(old(b0.Value())) && e == TopExponent(old(b0.Value()), e0)
    ensures lost == LostBelow(Widened(old(b0.Value())), ExtraBits(old(b0.Value()))) <= 3
    ensures pool.held == old(pool.held) - {b0} + {b} && pool.powers == old(pool.powers)
    ensures b == b0 || b !in old(pool.held)
    ensures fresh(pool.spare + {b, b.x} - old(pool.spare) - {b0, b0.x})
  {
    hide Disjoint, Fives, Lists, Spared, Linked, Val, Lost, Exp2, BitLen, Widened, ExtraBits, TopBits53, LostBelow;
    b, e, lost := b0, e0, 0;
    ghost var v := b.Value();
    NonzeroHasWords(b);
    TopWordNonzero(b);
    var h := Hi0bits(b.x[b.wds - 1]);
    var n := 32 * b.wds - h;
    WordsToBits(b, h);
    BitLenIs(v, n);
    CutCases(v);
    pool.HeldApart(b);
    if n < NBITS {
      ShiftBits(v, n, NBITS - n);
      b := Lshift(pool, b, NBITS - n);
      e := e - (NBITS - n);
    } else if n > NBITS {
      n := n - NBITS;
      lost := LostBits(b, n);
      CutBits(v, n);
      Rshift(b, n);
      assert pool.Valid() && b.Norm();
      e := e + n;
    }
  }

  lemma {:induction false} TopWordNonzero(b: Bigint)
    requires b.Norm() && b.Value() > 0
    ensures b.wds > 0 && b.x[b.wds - 1] != 0
  {
    var s := b.x[..b.wds];
    ValZeroIff(s);
  }

  lemma {:induction false} WordsToBits(b: Bigint, h: nat)
    requires b.Ok() && b.wds > 0 && h <= 31 && Exp2(31 - h) <= b.x[b.wds - 1] < Exp2(32 - h)
    ensures Exp2(32 * b.wds - h - 1) <= b.Value() < Exp2(32 * b.wds - h)
  {
    BitLength(b.x[..b.wds], h);
  }

  /** Cutting the extra bits leaves exactly 53. */
  lemma {:induction false} CutBits(v: nat, n: nat)
    requires Exp2(NBITS + n - 1) <= v < Exp2(NBITS + n)
    ensures Exp2(NBITS - 1) <= v / Exp2(n) < Exp2(NBITS)
  {
    var m := Exp2(n);
    Exp2Add(NBITS, n);
    Exp2Add(NBITS - 1, n);
    DivBounds(v, m);
    MulCancel(v / m, Exp2(NBITS), m);
    MulCancel(Exp2(NBITS - 1), v / m + 1, m);
  }

  /** q with its exponent, shifted right once if it has 54 bits. */
  ghost predicate Fitted(q: nat, e0: int, r: nat, e: int) {
    if q < Exp2(NBITS) then r == q && e == e0 else q == Exp2(NBITS) && r == q / 2 && e == e0 + 1
  }

  lemma {:induction false} FittedAsIs(q: nat, e: int)
    requires q < Exp2(NBITS)
    ensures Fitted(q, e, q, e)
  {
  }

  /** The increment after truncation, with the renormalising shift when it carries into a 54th bit. */
  method RoundLast(pool: Pool, b0: Bigint, e0: int, lost: nat, mode: Rounding, negative: bool)
    returns (b: Bigint, e: int)
    requires pool.Valid() && pool.Owned(b0) && b0.Norm() && Exp2(NBITS - 1) <= b0.Value() < Exp2(NBITS)
    requires lost <= 3
    modifies pool.spare, b0, b0.x
    ensures pool.Valid() && pool.Owned(b) && b.Norm()
    ensures Exp2(NBITS - 1) <= b.Value() < Exp2(NBITS)
    ensures pool.held == old(pool.held) - {b0} + {b} && pool.powers == old(pool.powers)
    ensures b == b0 || b !in old(pool.held)
    ensures fresh(pool.spare + {b, b.x} - old(pool.spare) - {b0, b0.x})
    ensures Fitted(old(b0.Value()) + (if RoundUp(lost, old(b0.Value()), mode, negative) then 1 else 0), e0,
                   b.Value(), e)
  {
    hide Disjoint, Fives, Lists, Spared, Linked, Val, Exp2, Fitted;
    b, e := b0, e0;
    TwoWords(b);
    FittedAsIs(b.Value(), e);
    if lost != 0 {
      var up := match mode
        case Zero => false
        case Near => (lost == 2 || lost == 3) && (lost % 2 == 1 || b.x[0] % 2 == 1)
        case Upward => !negative
        case Downward => negative;
      if up {
        b, e := AddOne(pool, b, e);
      }
    }
  }

  /** Adds one and shifts right when the sum has a bit too many. */
  method AddOne(pool: Pool, b0: Bigint, e0: int) returns (b: Bigint, e: int)
    requires pool.Valid() && pool.Owned(b0) && b0.Norm() && Exp2(NBITS - 1) <= b0.Value() < Exp2(NBITS)
    modifies pool.spare, b0, b0.x
    ensures pool.Valid() && pool.Owned(b) && b.Norm()
    ensures Exp2(NBITS - 1) <= b.Value() < Exp2(NBITS)
    ensures pool.held == old(pool.held) - {b0} + {b} && pool.powers == old(pool.powers)
    ensures b == b0 || b !in old(pool.held)
    ensures fresh(pool.spare + {b, b.x} - old(pool.spare) - {b0, b0.x})
    ensures Fitted(old(b0.Value()) + 1, e0, b.Value(), e)
  {
    hide Disjoint, Fives, Lists, Spared, Linked, Val, Exp2;
    e := e0;
    TwoWords(b0);
    ghost var q := b0.Value() + 1;
    b := Increment(pool, b0);
    TwoWords(b);
    var h := Hi0bits(b.x[1]);
    TooLong(b.x[1], h);
    if b.wds > 2 || h < 11 {
      pool.HeldApart(b);
      SmallShifts();
      Rshift(b, 1);
      e := e + 1;
    }
  }

  /** Fewer than eleven leading zero bits in the top word mean a 54th bit. */
  lemma {:induction false} TooLong(w: Word, h: nat)
    requires w != 0 && h <= 31 && Exp2(31 - h) <= w < Exp2(32 - h)
    ensures h < 11 <==> w >= 0x20_0000
  {
    assert Exp2(21) == 0x20_0000 by {
      SmallShifts();
      Exp2Add(16, 5);
      assert Exp2(5) == 32 by {
        assert Exp2(3) == 8;
      }
    }
    if h < 11 {
      Exp2Monotone(21, 31 - h);
    } else {
      Exp2Monotone(32 - h, 21);
    }
  }

  // ---- What the steps amount to ----

  /** Rounding a fraction does not depend on a common factor. */
  lemma {:induction false} RoundedScale(v: nat, m: nat, t: nat, mode: Rounding, negative: bool)
    requires m > 0 && t > 0
    ensures m * t > 0 && Rounded(v * t, m * t, mode, negative) == Rounded(v, m, mode, negative)
  {
    var q, r := v / m, v % m;
    MulPositive(m, t);
    assert v == q * m + r;
    assert v * t == q * (m * t) + r * t by {
      MulAssoc(q, m, t);
    }
    MulStrict(r, m, t);
    MulNonnegative(r, t);
    DivModUnique(v * t, m * t, q, r * t);
    if r > 0 {
      MulPositive(r, t);
    }
    assert 2 * (r * t) == (2 * r) * t;
    if 2 * r < m {
      MulStrict(2 * r, m, t);
    } else if 2 * r > m {
      MulStrict(m, 2 * r, t);
    }
  }

  /** Rounding the literal to a unit is rounding the widened one, n bits above its 53 highest. */
  lemma {:induction false} RoundedWidened(v: nat, e0: int, n: nat, mode: Rounding, negative: bool)
    requires v > 0
    ensures RoundedAt(v, e0, TopExponent(v, e0) + n, mode, negative)
         == Rounded(Widened(v), Exp2(ExtraBits(v) + n), mode, negative)
  {
    var s, u := Max(NBITS - BitLen(v), 0), TopExponent(v, e0) + n;
    hide BitLen, Exp2, Rounded;
    assert Exp2(0) == 1 by {
      ExpZero();
    }
    if s > 0 {
      if n >= s {
        Exp2Add(n - s, s);
        RoundedScale(v, Exp2(n - s), Exp2(s), mode, negative);
      } else {
        Exp2Add(s - n, n);
        MulAssoc(v, Exp2(s - n), Exp2(n));
        RoundedScale(v * Exp2(s - n), 1, Exp2(n), mode, negative);
      }
    }
  }

  lemma {:induction false} ExpZero()
    ensures Exp2(0) == 1
  {
  }

  /** Without a denormal shift: the 53 highest bits, rounded by what is lost. */
  lemma {:induction false} RoundsTop(v: nat, e0: int, mode: Rounding, negative: bool, r: nat, e: int)
    requires v > 0 && TopExponent(v, e0) >= EMIN
    requires var q := TopBits53(v);
             Fitted(q + (if RoundUp(LostBelow(Widened(v), ExtraBits(v)), q, mode, negative) then 1 else 0),
                    TopExponent(v, e0), r, e)
    ensures Best(v, e0, mode, negative) == (r, e)
  {
    RoundedWidened(v, e0, 0, mode, negative);
    RoundedByLost(Widened(v), ExtraBits(v), mode, negative);
    assert Exp2(NBITS) == 2 * Exp2(NBITS - 1);
  }

  lemma {:induction false} RoundedByLost(w: nat, c: nat, mode: Rounding, negative: bool)
    ensures var q := Quotient(w, Exp2(c));
            Rounded(w, Exp2(c), mode, negative) == q + if RoundUp(LostBelow(w, c), q, mode, negative) then 1 else 0
  {
    if c == 0 {
      ExpZero();
    } else {
      LostDecides(w, c, mode, negative);
    }
  }

  lemma {:induction false} DivTwice(w: nat, p: nat, m: nat)
    requires p > 0 && m > 0
    ensures p * m > 0 && (w / p) / m == w / (p * m) && w % (p * m) == ((w / p) % m) * p + w % p
  {
    var q, r := w / p, w % p;
    assert w == r + q * p;
    DivDiv(w, p, m, q, r);
  }

  /** Cutting n more bits above c, in one step. */
  lemma {:induction false} CutTwice(w: nat, c: nat, n: nat)
    ensures (w / Exp2(c)) / Exp2(n) == w / Exp2(c + n)
    ensures w % Exp2(c + n) == ((w / Exp2(c)) % Exp2(n)) * Exp2(c) + w % Exp2(c)
  {
    hide Exp2;
    Exp2Add(c, n);
    DivTwice(w, Exp2(c), Exp2(n));
  }

  lemma {:induction false} Carve(bit: nat, m: nat, low: nat, p: nat, r: nat)
    requires low < m && r < p
    ensures (bit * m + low) * p + r == bit * (m * p) + (low * p + r)
    ensures low * p + r < m * p
  {
    MulAssoc(bit, m, p);
    MulMonotone(low + 1, m, p);
  }

  lemma {:induction false} HighAndLow(bit: nat, k: nat, low: nat, c: nat, r: nat)
    requires low < Exp2(k) && r < Exp2(c)
    ensures (bit * Exp2(k) + low) * Exp2(c) + r == bit * Exp2(c + k) + (low * Exp2(c) + r)
    ensures low * Exp2(c) + r < Exp2(c + k)
  {
    hide Exp2;
    Exp2Add(k, c);
    Carve(bit, Exp2(k), low, Exp2(c), r);
  }

  /** The summary after n more bits are cut: the highest of them, and whether anything is below it. */
  lemma {:induction false} LostFurther(w: nat, c: nat, n: nat, bit: nat, low: nat)
    requires n > 0 && bit <= 1 && (w / Exp2(c)) % Exp2(n) == bit * Exp2(n - 1) + low && low < Exp2(n - 1)
    ensures Lost(w, c + n) == 2 * bit + if LostBelow(w, c) != 0 || low != 0 then 1 else 0
  {
    var r := w % Exp2(c);
    CutTwice(w, c, n);
    HighAndLow(bit, n - 1, low, c, r);
    LowNonzero(low, Exp2(c), r);
    LostNothing(w, c);
    hide LostBelow;
    assert Exp2(c + n) == 2 * Exp2(c + n - 1);
    LostCases(w, c + n, bit, low * Exp2(c) + r);
  }

  lemma {:induction false} LostCases(w: nat, n: nat, bit: nat, below: nat)
    requires n > 0 && bit <= 1 && w % Exp2(n) == bit * Exp2(n - 1) + below && below < Exp2(n - 1)
    ensures Lost(w, n) == 2 * bit + if below != 0 then 1 else 0
  {
  }

  lemma {:induction false} LowNonzero(low: nat, p: nat, r: nat)
    requires r < p
    ensures low * p + r == 0 <==> low == 0 && r == 0
  {
    if low > 0 {
      MulPositive(low, p);
    }
  }

  lemma {:induction false} LostNothing(w: nat, c: nat)
    ensures LostBelow(w, c) == 0 <==> w % Exp2(c) == 0
  {
    ExpZero();
  }
}
