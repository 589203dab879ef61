/**
 * The big integers that one conversion works with. Every operation leaves the others alone,
 * and what it allocates is accounted for: a held block is one the caller had, one of these, or a cached power.
 */
module Workspace {
  import opened Arith
  import opened Words
  import opened Bigints
  import opened BigintOps
  import opened BigintMult
  import opened BigintDiv

  ghost function Objects(bs: set<Bigint>): set<object> {
    (set b | b in bs :: b as object) + (set b | b in bs :: b.x as object)
  }

  /** What the operations may overwrite. */
  ghost function Space(pool: Pool, mine: set<Bigint>): set<object>
    reads pool
  {
    pool.spare + Nodes(pool.powers) + Objects(mine)
  }

  /** The held blocks are those of the caller, the ones worked with, and cached powers of five. */
  ghost predicate Kept(pool: Pool, base: set<Bigint>, mine: set<Bigint>)
    reads pool
  {
    Accounts(pool.held, pool.powers, base, mine)
  }

  ghost predicate Accounts(held: set<Bigint>, powers: seq<Bigint>, base: set<Bigint>, mine: set<Bigint>) {
    && base + mine <= held && base !! mine
    && (forall h | h in held :: h in base || h in mine || h in powers)
    && (forall b | b in mine :: b !in powers)
  }

  lemma {:induction false} Member(mine: set<Bigint>, b: Bigint)
    requires b in mine
    ensures {b as object, b.x} <= Objects(mine)
  {
  }

  /** b takes the place of the block b0. */
  lemma {:induction false} Swap(held: set<Bigint>, powers: seq<Bigint>, base: set<Bigint>, rest: set<Bigint>,
                                b0: Bigint, b: Bigint)
    requires Accounts(held, powers, base, rest + {b0}) && b0 !in rest && (b == b0 || b !in held) && b !in powers
    ensures Accounts(held - {b0} + {b}, powers, base, rest + {b}) && b !in rest
    ensures Objects(rest + {b}) <= Objects(rest + {b0}) + {b, b.x}
  {
  }

  lemma {:induction false} Add(held: set<Bigint>, powers: seq<Bigint>, base: set<Bigint>, mine: set<Bigint>, b: Bigint)
    requires Accounts(held, powers, base, mine) && b !in held && b !in powers
    ensures Accounts(held + {b}, powers, base, mine + {b}) && b !in mine
    ensures Objects(mine + {b}) <= Objects(mine) + {b, b.x}
  {
  }

  lemma {:induction false} Drop(held: set<Bigint>, powers: seq<Bigint>, base: set<Bigint>, rest: set<Bigint>, b: Bigint)
    requires Accounts(held, powers, base, rest + {b}) && b !in rest
    ensures Accounts(held - {b}, powers, base, rest)
    ensures Objects(rest) + {b, b.x} <= Objects(rest + {b})
  {
  }

  ghost predicate Normal(mine: set<Bigint>)
    reads mine`wds, set b | b in mine :: b.x
  {
    forall b | b in mine :: b.Norm()
  }

  /** The number that b stores. */
  ghost function Num(b: Bigint): nat
    reads b`wds, b.x
  {
    if b.Ok() then b.Value() else 0
  }

  ghost predicate Working(pool: Pool, base: set<Bigint>, mine: set<Bigint>)
    reads pool, pool.freelist, pool.free`next, pool.powers`next, pool.powers`wds, set b | b in pool.powers :: b.x
    reads mine`wds, set b | b in mine :: b.x
  {
    pool.Valid() && Kept(pool, base, mine) && Normal(mine)
  }

  lemma {:induction false} AllApart(pool: Pool, base: set<Bigint>, mine: set<Bigint>)
    requires pool.Valid() && Kept(pool, base, mine)
    ensures forall b | b in mine :: b in pool.held && b !in pool.powers
    ensures forall b | b in mine :: b.Sized() && b !in pool.spare && b.x !in pool.spare
    ensures forall b, c | b in mine && c in mine && b != c :: b.x != c.x
  {
    hide Disjoint, Fives, Lists, Spared, Linked;
    forall b | b in mine
      ensures b.Sized() && b !in pool.spare && b.x !in pool.spare
      ensures forall c | c in mine && c != b :: c.x != b.x
    {
      pool.HeldApart(b);
    }
  }

  /** A new number with the value of one word. */
  method NewNumber(pool: Pool, i: Word, ghost base: set<Bigint>, ghost rest: set<Bigint>) returns (b: Bigint)
    requires Working(pool, base, rest)
    modifies Space(pool, rest)
    ensures Working(pool, base, rest + {b}) && b !in rest && pool.powers == old(pool.powers)
    ensures forall o | o in Space(pool, rest + {b}) :: o in old(Space(pool, rest)) || fresh(o)
    ensures Num(b) == i && forall c | c in rest :: Num(c) == old(Num(c))
  {
    hide Disjoint, Fives, Lists, Spared, Linked, Val, Accounts, Objects;
    AllApart(pool, base, rest);
    b := I2b(pool, i);
    Add(old(pool.held), pool.powers, base, rest, b);
  }

  /** Replaces a number by its product with 2^k. */
  method ShiftLeft(pool: Pool, b0: Bigint, k: nat, ghost base: set<Bigint>, ghost rest: set<Bigint>)
    returns (b: Bigint)
    requires Working(pool, base, rest + {b0}) && b0 !in rest && Num(b0) > 0
    modifies Space(pool, rest + {b0})
    ensures Working(pool, base, rest + {b}) && b !in rest && pool.powers == old(pool.powers)
    ensures forall o | o in Space(pool, rest + {b}) :: o in old(Space(pool, rest + {b0})) || fresh(o)
    ensures Num(b) == old(Num(b0)) * Exp2(k)
    ensures forall c | c in rest :: Num(c) == old(Num(c))
  {
    hide Disjoint, Fives, Lists, Spared, Linked, Val, Accounts, Objects;
    AllApart(pool, base, rest + {b0});
    NonzeroHasWords(b0);
    Member(rest + {b0}, b0);
    b := Lshift(pool, b0, k);
    Swap(old(pool.held), pool.powers, base, rest, b0, b);
  }

  /** Replaces a number by ten times itself. */
  method TimesTen(pool: Pool, b0: Bigint, ghost base: set<Bigint>, ghost rest: set<Bigint>) returns (b: Bigint)
    requires Working(pool, base, rest + {b0}) && b0 !in rest
    modifies Space(pool, rest + {b0})
    ensures Working(pool, base, rest + {b}) && b !in rest && pool.powers == old(pool.powers)
    ensures forall o | o in Space(pool, rest + {b}) :: o in old(Space(pool, rest + {b0})) || fresh(o)
    ensures Num(b) == 10 * old(Num(b0))
    ensures forall c | c in rest :: Num(c) == old(Num(c))
  {
    hide Disjoint, Fives, Lists, Spared, Linked, Val, Accounts, Objects;
    AllApart(pool, base, rest + {b0});
    Member(rest + {b0}, b0);
    b := Multadd(pool, b0, 10, 0);
    Swap(old(pool.held), pool.powers, base, rest, b0, b);
  }

  /** Replaces a number by its product with 5^k, extending the cache of powers as needed. */
  method TimesFives(pool: Pool, b0: Bigint, k: nat, ghost base: set<Bigint>, ghost rest: set<Bigint>)
    returns (b: Bigint)
    requires Working(pool, base, rest + {b0}) && b0 !in rest
    modifies Space(pool, rest + {b0})
    ensures Working(pool, base, rest + {b}) && b !in rest && old(pool.powers) <= pool.powers
    ensures forall o | o in Space(pool, rest + {b}) :: o in old(Space(pool, rest + {b0})) || fresh(o)
    ensures Num(b) == old(Num(b0)) * Pow(5, k)
    ensures forall c | c in rest :: Num(c) == old(Num(c))
  {
    hide Disjoint, Fives, Lists, Spared, Linked, Val;
    AllApart(pool, base, rest + {b0});
    b := Pow5mult(pool, b0, k);
  }

  /** Replaces a number by its product with another one, which stays. */
  method TimesNumber(pool: Pool, p: Bigint, b0: Bigint, ghost base: set<Bigint>, ghost rest: set<Bigint>)
    returns (b: Bigint)
    requires Working(pool, base, rest + {b0}) && b0 !in rest && p in rest && p != b0 && Num(p) > 0
    modifies Space(pool, rest + {b0})
    ensures Working(pool, base, rest + {b}) && b !in rest && pool.powers == old(pool.powers)
    ensures forall o | o in Space(pool, rest + {b}) :: o in old(Space(pool, rest + {b0})) || fresh(o)
    ensures Num(b) == old(Num(p)) * old(Num(b0))
    ensures forall c | c in rest :: Num(c) == old(Num(c))
  {
    hide Disjoint, Fives, Lists, Spared, Linked, Val, Accounts, Objects;
    AllApart(pool, base, rest + {b0});
    NonzeroHasWords(p);
    Member(rest + {b0}, b0);
    b := Times(pool, b0, p);
    Swap(old(pool.held), pool.powers, base, rest, b0, b);
  }

  /** A copy of p in a new block of the same class. */
  method Copy(pool: Pool, p: Bigint, ghost base: set<Bigint>, ghost rest: set<Bigint>) returns (b: Bigint)
    requires Working(pool, base, rest) && p in rest && Num(p) > 0
    modifies Space(pool, rest)
    ensures Working(pool, base, rest + {b}) && b !in rest && pool.powers == old(pool.powers)
    ensures forall o | o in Space(pool, rest + {b}) :: o in old(Space(pool, rest)) || fresh(o)
    ensures Num(b) == old(Num(p)) && forall c | c in rest :: Num(c) == old(Num(c))
  {
    hide Disjoint, Fives, Lists, Spared, Linked, Val, Accounts, Objects;
    AllApart(pool, base, rest);
    NonzeroHasWords(p);
    b := pool.Balloc(p.k);
    pool.HeldApart(b);
    Bcopy(b, p);
    Add(old(pool.held), pool.powers, base, rest, b);
  }

  /** Gives the block of b back; the others stay. */
  method Release(pool: Pool, b: Bigint, ghost base: set<Bigint>, ghost rest: set<Bigint>)
    requires Working(pool, base, rest + {b}) && b !in rest
    modifies Space(pool, rest + {b})
    ensures Working(pool, base, rest) && pool.powers == old(pool.powers)
    ensures forall o | o in Space(pool, rest) :: o in old(Space(pool, rest + {b})) || fresh(o)
    ensures forall c | c in rest :: Num(c) == old(Num(c))
  {
    hide Disjoint, Fives, Lists, Spared, Linked, Val, Accounts, Objects;
    AllApart(pool, base, rest + {b});
    Member(rest + {b}, b);
    pool.Bfree(b);
    Drop(old(pool.held), pool.powers, base, rest, b);
  }

  // ---- One step of a digit loop ----

  ghost predicate Divides(x: int, q: nat, r: nat, S: nat) {
    x == q * S + r && r < S
  }

  /** The sign of comparing a with b, which is not zero. */
  method Compare(pool: Pool, a: Bigint, b: Bigint, ghost base: set<Bigint>, ghost rest: set<Bigint>) returns (j: int)
    requires Working(pool, base, rest) && {a, b} <= rest && Num(b) > 0
    ensures (j < 0 <==> Num(a) < Num(b)) && (j > 0 <==> Num(a) > Num(b))
  {
    hide Disjoint, Fives, Lists, Spared, Linked, Val, Kept;
    NonzeroHasWords(b);
    j := Cmp(a, b);
  }

  /** The code's test for a number that is used up; it does not depend on the form of the zero. */
  method IsZero(pool: Pool, b: Bigint, ghost base: set<Bigint>, ghost rest: set<Bigint>) returns (zero: bool)
    requires Working(pool, base, rest) && b in rest
    ensures zero <==> Num(b) == 0
  {
    hide Disjoint, Fives, Lists, Spared, Linked, Kept;
    zero := b.x[0] == 0 && b.wds <= 1;
    ValZeroIff(b.x[..b.wds]);
    if b.wds > 1 {
      assert b.x[..b.wds][b.wds - 1] != 0;
    } else if b.wds == 1 {
      ValSingle(b.x[..1]);
    }
  }

  /** The top word of a divisor with four leading zero bits. */
  lemma {:induction false} DivisorTop(S: Bigint)
    requires S.Norm() && FourZeroTop(S.Value())
    ensures S.wds > 0 && 0x800_0000 <= S.x[S.wds - 1] < 0x1000_0000 && S.Value() > 0
  {
    hide Val;
    var t: nat :| FourZeroAt(S.Value(), t);
    if S.wds == 0 {
      assert Val(S.x[..0]) == 0 by {
        ValZeros(S.x[..0]);
      }
    }
    FourZeroBits(S.x[..S.wds], t);
  }

  /** How much further to shift S, beyond s2, for its top word to get four leading zero bits. */
  method ShiftFor(pool: Pool, S: Bigint, s2: nat, ghost base: set<Bigint>, ghost rest: set<Bigint>) returns (i: nat)
    requires Working(pool, base, rest) && S in rest && Num(S) > 0
    ensures FourZeroTop(Num(S) * Exp2(s2 + i))
  {
    hide Disjoint, Fives, Lists, Spared, Linked, Kept, FourZeroTop;
    NonzeroHasWords(S);
    ValZeroIff(S.x[..S.wds]);
    if S.wds == 1 {
      ValSingle(S.x[..1]);
    }
    i := Dshift(S, s2);
  }

  /** Divides b by S: the digit comes out, the remainder stays in b, and zero says that nothing remains. */
  method Draw(pool: Pool, b: Bigint, S: Bigint, ghost base: set<Bigint>, ghost rest: set<Bigint>)
    returns (dig: nat, zero: bool)
    requires Working(pool, base, rest + {b}) && b !in rest && S in rest
    requires FourZeroTop(Num(S)) && Num(b) < 10 * Num(S)
    modifies Space(pool, rest + {b})
    ensures Working(pool, base, rest + {b}) && pool.powers == old(pool.powers)
    ensures Space(pool, rest + {b}) == old(Space(pool, rest + {b}))
    ensures forall c | c in rest :: Num(c) == old(Num(c))
    ensures Divides(old(Num(b)), dig, Num(b), old(Num(S)))
    ensures zero <==> Num(b) == 0
  {
    hide Disjoint, Fives, Lists, Spared, Linked, Val, FourZeroTop;
    AllApart(pool, base, rest + {b});
    pool.HeldApart(b);
    DivisorTop(S);
    ghost var v, w := b.Value(), S.Value();
    dig := Quorem(b, S);
    DivModUnique(v, w, dig, b.Value());
    zero := IsZero(pool, b, base, rest + {b});
  }

  /** Doubles b and compares it with S. */
  method CompareDouble(pool: Pool, b0: Bigint, S: Bigint, ghost base: set<Bigint>, ghost rest: set<Bigint>)
    returns (b: Bigint, j: int)
    requires Working(pool, base, rest + {b0}) && b0 !in rest && S in rest && Num(b0) > 0 && Num(S) > 0
    modifies Space(pool, rest + {b0})
    ensures Working(pool, base, rest + {b}) && b !in rest && pool.powers == old(pool.powers)
    ensures forall o | o in Space(pool, rest + {b}) :: o in old(Space(pool, rest + {b0})) || fresh(o)
    ensures forall c | c in rest :: Num(c) == old(Num(c))
    ensures (j < 0 <==> 2 * old(Num(b0)) < Num(S)) && (j > 0 <==> 2 * old(Num(b0)) > Num(S))
  {
    hide Working, Space, Num;
    b := ShiftLeft(pool, b0, 1, base, rest);
    j := Compare(pool, b, S, base, rest + {b});
  }

  lemma {:induction false} ZeroHasOneWord(b: Bigint)
    requires b.Norm()
    ensures b.Value() == 0 ==> b.wds <= 1
  {
    ValZeroIff(b.x[..b.wds]);
    if b.wds > 1 {
      assert b.x[..b.wds][b.wds - 1] != 0;
    }
  }

  /** The absolute difference in a new block, with its sign. */
  method Difference(pool: Pool, a: Bigint, b: Bigint, ghost base: set<Bigint>, ghost rest: set<Bigint>)
    returns (c: Bigint)
    requires Working(pool, base, rest) && {a, b} <= rest && Num(b) > 0
    modifies Space(pool, rest)
    ensures Working(pool, base, rest + {c}) && c !in rest && pool.powers == old(pool.powers)
    ensures forall o | o in Space(pool, rest + {c}) :: o in old(Space(pool, rest)) || fresh(o)
    ensures forall d | d in rest :: Num(d) == old(Num(d))
    ensures c.Norm() && c.wds > 0 && (c.sign <==> old(Num(a)) < old(Num(b)))
    ensures !c.sign ==> Num(c) == old(Num(a)) - old(Num(b))
  {
    hide Disjoint, Fives, Lists, Spared, Linked, Val, Accounts, Objects;
    AllApart(pool, base, rest);
    c := Diff(pool, a, b);
    Add(old(pool.held), pool.powers, base, rest, c);
  }

  /** Compares b with S - mhi, through a difference that is freed again; zeros in two forms compare as below. */
  method CompareDelta(pool: Pool, b: Bigint, S: Bigint, mhi: Bigint, ghost base: set<Bigint>, ghost rest: set<Bigint>)
    returns (j1: int)
    requires Working(pool, base, rest) && {b, S, mhi} <= rest && Num(mhi) > 0
    modifies Space(pool, rest)
    ensures Working(pool, base, rest) && pool.powers == old(pool.powers)
    ensures forall o | o in Space(pool, rest) :: o in old(Space(pool, rest)) || fresh(o)
    ensures forall c | c in rest :: Num(c) == old(Num(c))
    ensures j1 > 0 <==> Num(b) + Num(mhi) > Num(S)
    ensures j1 == 0 ==> Num(b) + Num(mhi) == Num(S)
    ensures j1 < 0 ==> Num(b) + Num(mhi) < Num(S) || (Num(b) == 0 && Num(mhi) == Num(S))
  {
    hide Disjoint, Fives, Lists, Spared, Linked, Val, Kept, Space;
    var delta := Difference(pool, S, mhi, base, rest);
    if delta.sign {
      j1 := 1;
    } else {
      j1 := Cmp(b, delta);
      ZeroHasOneWord(b);
    }
    Release(pool, delta, base, rest);
  }
}
