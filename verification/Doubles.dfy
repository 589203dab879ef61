/** The two words of an IEEE double, and the big integer that dtoa makes of them. */
module Doubles {
  import opened Arith
  import opened Words
  import opened WordLoops
  import opened WordShifts
  import opened Bigints
  import opened BigintMult
  import opened BigintDiv
  import opened Workspace

  const P: nat := 53
  const BIAS: nat := 1023

  function Biased(word0: Word): nat {
    word0 / 0x10_0000 % 0x800
  }

  predicate Negative(word0: Word) {
    word0 >= 0x8000_0000
  }

  predicate Finite(word0: Word) {
    Biased(word0) < 0x7ff
  }

  /** The fraction bits of the high word, with the hidden bit of a normal number. */
  function TopBits(word0: Word): Word {
    (if Biased(word0) > 0 then 0x10_0000 else 0) + word0 % 0x10_0000
  }

  /** The double is Significand * 2^Unit, up to its sign. */
  function Significand(word0: Word, word1: Word): nat {
    TopBits(word0) * BASE + word1
  }

  function Unit(word0: Word): int {
    Max(Biased(word0), 1) - BIAS - (P - 1)
  }

  /** A power of two whose lower neighbour is half as far away as the upper one. */
  predicate Boundary(word0: Word, word1: Word) {
    word1 == 0 && word0 % 0x10_0000 == 0 && Biased(word0) > 1
  }

  /** The quotient of an exact division by p, which p divides again only if p * p divides x. */
  lemma {:induction false} ExactQuotient(x: nat, p: nat, q: nat)
    requires p > 1 && q == x / p && x % p == 0
    ensures x == q * p && q <= x && (q == 0 <==> x == 0)
    ensures q % p == 0 ==> x % (p * p) == 0
  {
    MulMonotone(1, p, q);
    if q % p == 0 {
      var t := q / p;
      MulAssoc(t, p, p);
      MulPositive(p, p);
      DivModUnique(x, p * p, t, 0);
    }
  }

  /** Drops j low zero bits if there are so many; fewer than j are left. */
  method DropBits(x0: nat, k0: nat, j: nat, p: nat, ghost y: nat) returns (x: nat, k: nat)
    requires p == Exp2(j) > 1 && p * p > 0 && y == x0 * Exp2(k0) && x0 > 0 && x0 % (p * p) != 0
    ensures y == x * Exp2(k) && 0 < x <= x0 && k0 <= k <= k0 + j
    ensures x % p != 0
  {
    hide Exp2;
    x, k := x0, k0;
    if x0 % p == 0 {
      x, k := x0 / p, k0 + j;
      ExactQuotient(x0, p, x);
      Exp2Add(k0, j);
      MulAssoc(x, p, Exp2(k0));
    }
  }

  /** The number of trailing zero bits of a nonzero word, and what is left without them. */
  method Lo0bits(y: Word) returns (k: nat, x: Word)
    requires y != 0
    ensures k <= 31 && x % 2 == 1 && y == x * Exp2(k)
  {
    SmallShifts();
    x := y;
    if x % 8 != 0 {
      if x % 2 != 0 {
        return 0, x;
      }
      if x % 4 != 0 {
        return 1, x / 2;
      }
      return 2, x / 4;
    }
    hide Exp2;
    assert y == y * Exp2(0);
    k := 0;
    x, k := DropBits(x, k, 16, 0x1_0000, y);
    x, k := DropBits(x, k, 8, 0x100, y);
    x, k := DropBits(x, k, 4, 0x10, y);
    x, k := DropBits(x, k, 2, 4, y);
    x, k := DropBits(x, k, 1, 2, y);
  }

  lemma {:induction false} OneWord(x: seq<Word>)
    requires |x| >= 1
    ensures Val(x[..1]) == x[0]
  {
    ValSingle(x);
  }

  lemma {:induction false} TwoWordValue(x: seq<Word>)
    requires |x| >= 2
    ensures Val(x[..2]) == x[1] * BASE + x[0]
  {
    ValSingle(x);
    ValPrefix(x, 1);
  }

  lemma {:induction false} JoinedWords(z: Word, y: Word, w: Word, hi: Word, k: nat, word1: Word)
    requires z * BASE == Prod(w - y + hi * BASE, Exp2(k)) && word1 == y * Exp2(k)
    ensures z * BASE + word1 == (hi * BASE + w) * Exp2(k)
  {
    ProdIsProduct(w - y + hi * BASE, Exp2(k));
  }

  /** Shifts z * BASE + word1 right by the trailing zero bits of word1. */
  method LowWord(z: Word, word1: Word) returns (w: Word, hi: Word, k: nat)
    requires word1 != 0
    ensures k <= 31 && (hi * BASE + w) * Exp2(k) == z * BASE + word1
  {
    var y;
    k, y := Lo0bits(word1);
    if k > 0 {
      LowPart(y, k, word1);
      w, hi := ShiftDownStep(z, k, y);
      JoinedWords(z, y, w, hi, k, word1);
    } else {
      w, hi := y, z;
    }
  }

  /** The words of the significand z * BASE + word1 without its k trailing zero bits. */
  method FillWords(b: Bigint, z0: Word, word1: Word) returns (k: nat)
    requires b.Sized() && b.maxwds >= 2 && z0 * BASE + word1 > 0
    modifies b`wds, b.x
    ensures b.Norm() && 1 <= b.wds <= 2 && b.x[b.wds - 1] != 0 && k < 64
    ensures b.Value() * Exp2(k) == z0 * BASE + word1
  {
    hide Val;
    if word1 != 0 {
      var w, z;
      w, z, k := LowWord(z0, word1);
      hide Exp2;
      b.x[0], b.x[1] := w, z;
      b.wds := if z != 0 then 2 else 1;
      TwoWordValue(b.x[..]);
      OneWord(b.x[..]);
      assert b.x[..][..2] == b.x[..2] && b.x[..][..1] == b.x[..1];
    } else {
      var z;
      k, z := Lo0bits(z0);
      hide Exp2;
      b.x[0], b.wds := z, 1;
      OneWord(b.x[..]);
      assert b.x[..][..1] == b.x[..1];
      WholeWord(z, k);
      k := k + 32;
    }
  }

  lemma {:induction false} WholeWord(z: Word, k: nat)
    ensures z * Exp2(k + 32) == z * Exp2(k) * BASE
  {
    Exp2Add(k, 32);
    assert Exp2(32) == BASE by {
      SmallShifts();
    }
    MulAssoc(z, Exp2(k), BASE);
  }

  lemma {:induction false} LowPart(y: Word, k: nat, word1: Word)
    requires 1 <= k <= 31 && word1 == y * Exp2(k)
    ensures y < Exp2(32 - k)
  {
    HalfWords(k);
    if y >= Exp2(32 - k) {
      MulMonotone(Exp2(32 - k), y, Exp2(k));
    }
  }

  /** The length in bits of a number, from its top word. */
  lemma {:induction false} LengthInBits(v: nat, len: nat, k: nat, m: nat, p: nat)
    requires p > 0 && v * Exp2(k) == m && Exp2(p - 1) <= m < Exp2(p)
    requires len > 0 && Exp2(len - 1) <= v < Exp2(len)
    ensures len + k == p
  {
    ShiftBits(v, len, k);
    if len + k < p {
      Exp2Monotone(len + k, p - 1);
    }
    if len + k > p {
      Exp2Monotone(p, len + k - 1);
    }
  }

  /** The significand of a normal number has P bits. */
  lemma {:induction false} NormalBits(word0: Word, word1: Word)
    requires Biased(word0) > 0
    ensures Exp2(P - 1) <= Significand(word0, word1) < Exp2(P)
  {
    SmallShifts();
    hide Exp2;
    Exp2Add(16, 4);
    Exp2Add(20, 32);
    Exp2Add(52, 1);
  }

  /** A new block with the significand, without its k trailing zero bits. */
  method NewSignificand(pool: Pool, word0: Word, word1: Word, ghost base: set<Bigint>) returns (b: Bigint, k: nat)
    requires Working(pool, base, {}) && Significand(word0, word1) > 0
    modifies Space(pool, {})
    ensures Working(pool, base, {b}) && pool.powers == old(pool.powers)
    ensures forall o | o in Space(pool, {b}) :: o in old(Space(pool, {})) || fresh(o)
    ensures b.Norm() && 1 <= b.wds <= 2 && b.x[b.wds - 1] != 0 && k < 64
    ensures Num(b) * Exp2(k) == Significand(word0, word1)
  {
    hide Disjoint, Fives, Lists, Spared, Linked, Val, Accounts, Objects, TopBits;
    AllApart(pool, base, {});
    b := pool.Balloc(1);
    pool.HeldApart(b);
    assert b.maxwds >= 2;
    hide Exp2;
    k := FillWords(b, TopBits(word0), word1);
    Add(old(pool.held), pool.powers, base, {}, b);
    assert {} + {b} == {b};
  }

  /** The exponent of b and its length in bits. */
  method Measure(b: Bigint, word0: Word, word1: Word, k: nat) returns (e: int, bits: int)
    requires b.Norm() && 1 <= b.wds <= 2 && b.x[b.wds - 1] != 0
    requires b.Value() * Exp2(k) == Significand(word0, word1)
    ensures e == Unit(word0) + k
    ensures bits > 0 && Exp2(bits - 1) <= b.Value() < Exp2(bits)
    ensures Biased(word0) > 0 ==> bits + k == P
  {
    hide Val, Exp2, Significand, Biased;
    var h := Hi0bits(b.x[b.wds - 1]);
    BitLength(b.x[..b.wds], h);
    if Biased(word0) > 0 {
      e := Biased(word0) - BIAS - (P - 1) + k;
      bits := P - k;
      NormalBits(word0, word1);
      LengthInBits(b.Value(), 32 * b.wds - h, k, Significand(word0, word1), P);
    } else {
      e := 0 - BIAS - (P - 1) + 1 + k;
      bits := 32 * b.wds - h;
    }
  }

  /** A nonzero double as a big integer and an exponent: b * 2^e == |d|, and b has the given number of bits. */
  method D2b(pool: Pool, word0: Word, word1: Word, ghost base: set<Bigint>) returns (b: Bigint, e: int, bits: int)
    requires Working(pool, base, {}) && Significand(word0, word1) > 0
    modifies Space(pool, {})
    ensures Working(pool, base, {b}) && pool.powers == old(pool.powers)
    ensures forall o | o in Space(pool, {b}) :: o in old(Space(pool, {})) || fresh(o)
    ensures e >= Unit(word0) && Num(b) > 0 && Num(b) * Exp2(e - Unit(word0)) == Significand(word0, word1)
    ensures bits > 0 && Exp2(bits - 1) <= Num(b) < Exp2(bits)
    ensures Biased(word0) > 0 ==> bits + (e - Unit(word0)) == P
  {
    hide Working, Space, Val, Exp2, Significand, Unit;
    var k;
    b, k := NewSignificand(pool, word0, word1, base);
    e, bits := Measure(b, word0, word1, k);
  }
}
