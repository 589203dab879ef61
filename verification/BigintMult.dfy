/** Products of big integers, and multiplication by powers of five through the cache. */
module BigintMult {
  import opened Arith
  import opened Words
  import opened WordLoops
  import opened Bigints
  import opened BigintOps

  /** Adding y * a at word i of a number that has no words from i + n up. */
  lemma {:induction false} RowAdds(c0: seq<Word>, c1: seq<Word>, i: nat, n: nat, m: nat, s: seq<Word>)
    requires |c0| == i + n && |c1| == i + n + 1 && c0[..i] == c1[..i] && i < |s|
    requires Val(c1[i..]) == Val(c0[i..]) + s[i] * m
    requires Val(c0) == Multiple(m, s[..i])
    ensures Val(c1) == Multiple(m, s[..i + 1])
  {
    ValSplit(c0, i);
    ValSplit(c1, i);
    ProdIsProduct(m, s[i]);
    UpSum(Val(c0[i..]), Prod(m, s[i]), i);
    MultiplePrefix(m, s, i);
  }

  lemma {:induction false} PushZero(s: seq<Word>)
    ensures Val(s + [0]) == Val(s)
  {
    ValPush(s, 0);
    UpZero(|s|);
  }

  /** AddRow, skipped for a zero word. */
  method RowOrSkip(c: array<Word>, off: nat, a: array<Word>, n: nat, y: Word)
    requires n <= a.Length && off + n < c.Length && a != c && c[off + n] == 0
    modifies c
    ensures Val(c[off..off + n + 1]) == Val(old(c[off..off + n])) + y * Val(a[..n])
    ensures forall j | 0 <= j < c.Length && !(off <= j <= off + n) :: c[j] == old(c[j])
  {
    if y != 0 {
      AddRow(c, off, a, n, y);
    } else {
      PushZero(c[off..off + n]);
      assert c[off..off + n + 1] == c[off..off + n] + [0];
    }
  }

  /** c[..wa + wb] := a[..wa] * b[..wb], row by row. */
  method MultWords(c: array<Word>, a: array<Word>, wa: nat, b: array<Word>, wb: nat)
    requires wa <= a.Length && wb <= b.Length && wa + wb <= c.Length && c != a && c != b
    requires forall j | 0 <= j < wa + wb :: c[j] == 0
    modifies c
    ensures Val(c[..wa + wb]) == Val(a[..wa]) * Val(b[..wb])
    ensures forall j | wa + wb <= j < c.Length :: c[j] == old(c[j])
  {
    ghost var s, m := b[..wb], Val(a[..wa]);
    var i := 0;
    ValZeros(c[..wa]);
    while i < wb
      invariant i <= wb
      invariant Val(c[..i + wa]) == Multiple(m, s[..i])
      invariant forall j | i + wa <= j < wa + wb :: c[j] == 0
      invariant forall j | wa + wb <= j < c.Length :: c[j] == old(c[j])
    {
      ghost var c0 := c[..i + wa];
      assert c0[i..] == c[i..i + wa];
      RowOrSkip(c, i, a, wa, b[i]);
      ghost var c1 := c[..i + wa + 1];
      assert c1[i..] == c[i..i + wa + 1];
      RowAdds(c0, c1, i, wa, m, s);
      i := i + 1;
    }
    assert s[..wb] == s;
    MultipleIsProduct(m, s);
  }

  /** The exact product, in a block no larger than it needs. */
  method Mult(pool: Pool, a0: Bigint, b0: Bigint) returns (c: Bigint)
    requires pool.Valid() && a0 in pool.held && b0 in pool.held && a0.Ok() && b0.Ok()
    requires a0.wds + b0.wds > 0
    modifies pool.spare
    ensures pool.Valid() && pool.powers == old(pool.powers) && pool.p5s == old(pool.p5s)
    ensures c !in old(pool.held) && pool.held == old(pool.held) + {c}
    ensures c.Norm() && c.Value() == old(a0.Value()) * old(b0.Value())
    ensures fresh({c as object, c.x} - old(pool.spare))
    ensures fresh(pool.spare - old(pool.spare))
  {
    hide Disjoint, Fives, Lists, Spared, Linked, Val;
    var a, b := a0, b0;
    if a.wds < b.wds {
      a, b := b0, a0;
    }
    pool.HeldApart(a);
    pool.HeldApart(b);
    ghost var va, vb := a.Value(), b.Value();
    assert va * vb == old(a0.Value()) * old(b0.Value());
    var k, wc := a.k, a.wds + b.wds;
    if wc > a.maxwds {
      k := k + 1;
    }
    c := pool.Balloc(k);
    pool.HeldApart(c);
    assert a.Value() == va && b.Value() == vb;
    MultInto(c, a, b);
    assert pool.Valid();
  }

  /** Fills an unused block with the product. */
  method MultInto(c: Bigint, a: Bigint, b: Bigint)
    requires a.Ok() && b.Ok() && c.Sized() && 0 < a.wds + b.wds <= c.maxwds
    requires c != a && c != b && c.x != a.x && c.x != b.x
    modifies c`wds, c.x
    ensures c.Norm() && c.Value() == a.Value() * b.Value()
  {
    var wc := a.wds + b.wds;
    forall i | 0 <= i < wc {
      c.x[i] := 0;
    }
    ghost var v := a.Value() * b.Value();
    MultWords(c.x, a.x, a.wds, b.x, b.wds);
    assert Val(c.x[..wc]) == v;
    ValZeroIff(c.x[..wc]);
    hide Val;
    c.wds := DropLeadingZeros(c.x, wc, 0);
  }

  lemma {:induction false} PowHalve(x: nat, k: nat)
    requires k > 0
    ensures Pow(x, k) == (if k % 2 == 1 then x else 1) * Pow(x * x, k / 2)
  {
    PowSquare(x, k / 2);
    assert k == 2 * (k / 2) + k % 2;
  }

  /** One round of square-and-multiply keeps the product still to be reached. */
  lemma {:induction false} Round(v: nat, x: nat, k: nat, target: nat)
    requires k > 0 && v * Pow(x, k) == target
    ensures (if k % 2 == 1 then v * x else v) * Pow(x * x, k / 2) == target
  {
    PowHalve(x, k);
    MulAssoc(v, x, Pow(x * x, k / 2));
  }

  lemma {:induction false} FiveSteps(v: nat, k: nat)
    ensures v * Pow(5, k % 4) * Pow(Pow(5, 4), k / 4) == v * Pow(5, k)
  {
    var q, i := k / 4, k % 4;
    assert k == i + 4 * q;
    PowAdd(5, i, 4 * q);
    FourthPower(q);
    MulAssoc(v, Pow(5, i), Pow(5, 4 * q));
  }

  lemma {:induction false} FourthPower(q: nat)
    ensures Pow(Pow(5, 4), q) == Pow(5, 4 * q)
  {
    if q == 0 {
    } else {
      FourthPower(q - 1);
      PowAdd(5, 4, 4 * (q - 1));
    }
  }

  lemma {:induction false} LinkedPush(head: Bigint?, c: seq<Bigint>, q: Bigint)
    requires |c| > 0 && head == c[0] && c[|c| - 1].next == q && q.next == null
    requires forall i | 0 <= i < |c| - 1 :: c[i].next == At(c, i + 1)
    ensures Linked(head, c + [q])
  {
  }

  lemma {:induction false} LinkedHead(head: Bigint?, c: seq<Bigint>)
    requires Linked(head, c)
    ensures head == At(c, 0)
  {
  }

  lemma {:induction false} LinkedOne(b: Bigint)
    requires b.next == null
    ensures Linked(b, [b])
  {
  }

  lemma {:induction false} LinkedAt(head: Bigint?, c: seq<Bigint>, i: nat)
    requires Linked(head, c) && i < |c|
    ensures c[i].next == At(c, i + 1) && head == c[0]
  {
  }

  lemma {:induction false} FivesPush(powers: seq<Bigint>, q: Bigint)
    requires Fives(powers) && q !in powers && q.Norm() && q.Value() == Pow(5, 4 * Exp2(|powers|))
    ensures Fives(powers + [q])
  {
  }

  lemma {:induction false} FivesAt(powers: seq<Bigint>, i: nat)
    requires Fives(powers) && i < |powers|
    ensures powers[i].Norm() && powers[i].wds > 0 && powers[i].Value() == Pow(5, 4 * Exp2(i))
    ensures forall j | 0 <= j < |powers| && j != i :: powers[j] != powers[i]
  {
  }

  method I2b(pool: Pool, i: Word) returns (b: Bigint)
    requires pool.Valid()
    modifies pool.spare
    ensures pool.Valid() && pool.powers == old(pool.powers) && pool.p5s == old(pool.p5s)
    ensures b !in old(pool.held) && pool.held == old(pool.held) + {b}
    ensures b.Norm() && b.Value() == i && b.wds == 1
    ensures fresh({b as object, b.x} - old(pool.spare))
    ensures fresh(pool.spare - old(pool.spare))
  {
    hide Disjoint, Fives, Lists, Spared, Linked;
    b := pool.Balloc(1);
    pool.HeldApart(b);
    b.x[0] := i;
    b.wds := 1;
    ValSingle(b.x[..]);
    assert b.x[..][..1] == b.x[..1];
  }

  /** The first cached power, made when there is none yet. */
  method FirstPower(pool: Pool) returns (p5: Bigint)
    requires pool.Valid()
    modifies pool.spare
    ensures pool.Valid() && |pool.powers| > 0 && p5 == pool.powers[0]
    ensures old(pool.powers) != [] ==> pool.powers == old(pool.powers) && pool.held == old(pool.held)
    ensures old(pool.powers) == [] ==>
      pool.powers == [p5] && pool.held == old(pool.held) + {p5} && p5 !in old(pool.held)
    ensures fresh(pool.spare - old(pool.spare))
    ensures p5 !in old(pool.held) ==> fresh({p5 as object, p5.x} - old(pool.spare))
  {
    hide Disjoint, Fives, Lists, Spared, Linked;
    if pool.p5s == null {
      LinkedHead(pool.p5s, pool.powers);
      p5 := I2b(pool, 625);
      pool.HeldApart(p5);
      StartCache(pool, p5);
    } else {
      p5 := pool.p5s;
      assert pool.powers != [] && p5 == pool.powers[0] by {
        LinkedHead(pool.p5s, pool.powers);
      }
    }
  }

  method StartCache(pool: Pool, p5: Bigint)
    requires pool.Valid() && pool.powers == [] && p5 in pool.held && p5.Norm() && p5.Value() == 625
    modifies pool`powers, pool`p5s, p5`next
    ensures pool.Valid() && pool.powers == [p5] && pool.p5s == p5
  {
    hide Disjoint, Fives, Lists, Spared, Linked, Val;
    assert Exp2(0) == 1 && Pow(5, 4) == 625;
    p5.next := null;
    pool.p5s := p5;
    NoFives();
    FivesPush([], p5);
    assert [] + [p5] == [p5];
    pool.powers := [p5];
    LinkedOne(p5);
  }

  lemma {:induction false} NextFive(n: nat)
    requires n > 0
    ensures Pow(5, 4 * Exp2(n - 1)) * Pow(5, 4 * Exp2(n - 1)) == Pow(5, 4 * Exp2(n))
  {
    PowAdd(5, 4 * Exp2(n - 1), 4 * Exp2(n - 1));
  }

  lemma {:induction false} NoFives()
    ensures Fives([])
  {
  }

  /** The successor of the i-th cached power, made by squaring when it is the last. */
  method NextPower(pool: Pool, p5: Bigint, ghost i: nat) returns (p51: Bigint)
    requires pool.Valid() && i < |pool.powers| && p5 == pool.powers[i]
    modifies pool.spare, p5
    ensures pool.Valid() && i + 1 < |pool.powers| && p51 == pool.powers[i + 1]
    ensures i + 1 < |old(pool.powers)| ==> pool.powers == old(pool.powers) && pool.held == old(pool.held)
    ensures i + 1 == |old(pool.powers)| ==>
              pool.powers == old(pool.powers) + [p51] && pool.held == old(pool.held) + {p51} && p51 !in old(pool.held)
    ensures fresh(pool.spare - old(pool.spare))
    ensures p51 !in old(pool.held) ==> fresh({p51 as object, p51.x} - old(pool.spare))
  {
    hide Disjoint, Fives, Lists, Spared, Linked;
    assert p5.next == At(pool.powers, i + 1) by {
      LinkedAt(pool.p5s, pool.powers, i);
    }
    if p5.next == null {
      Append(pool, p5);
    }
    p51 := p5.next;
  }

  /** Squares the last cached power and links the result behind it. */
  method Append(pool: Pool, p5: Bigint)
    requires pool.Valid() && pool.powers != [] && p5 == pool.powers[|pool.powers| - 1]
    modifies pool.spare, p5
    ensures pool.Valid() && |pool.powers| == |old(pool.powers)| + 1
    ensures p5.next != null && pool.powers == old(pool.powers) + [p5.next] && p5.next !in old(pool.held)
    ensures pool.held == old(pool.held) + {p5.next}
    ensures fresh(pool.spare - old(pool.spare))
    ensures fresh({p5.next as object, p5.next.x} - old(pool.spare))
  {
    hide Disjoint, Fives, Lists, Spared, Pow, Exp2;
    ghost var n, c := |pool.powers|, pool.powers;
    FivesAt(c, n - 1);
    var p51 := Mult(pool, p5, p5);
    pool.HeldApart(p51);
    NextFive(n);
    assert p51.Value() == Pow(5, 4 * Exp2(n));
    LinkNew(pool, p5, p51);
  }

  lemma {:induction false} LinkedAll(head: Bigint?, c: seq<Bigint>)
    requires Linked(head, c) && c != []
    ensures head == c[0] && forall i | 0 <= i < |c| :: c[i].next == At(c, i + 1)
  {
  }

  /** The tail of Append: p51 already holds the next power. */
  method LinkNew(pool: Pool, p5: Bigint, p51: Bigint)
    requires pool.Valid() && pool.powers != [] && p5 == pool.powers[|pool.powers| - 1]
    requires p51 in pool.held && p51 !in pool.powers && p51.Norm() && p51.Value() == Pow(5, 4 * Exp2(|pool.powers|))
    modifies pool`powers, p5`next, p51`next
    ensures pool.Valid() && p5.next == p51 && pool.powers == old(pool.powers) + [p51]
  {
    hide Disjoint, Fives, Lists, Spared, Pow, Exp2, Val, Linked;
    ghost var n, c := |pool.powers|, pool.powers;
    FivesAt(c, n - 1);
    LinkedAll(pool.p5s, c);
    FivesPush(c, p51);
    p51.next := null;
    p5.next := p51;
    LinkedPush(pool.p5s, c, p51);
    pool.powers := c + [p51];
  }

  /** b := b * p, giving back the block of b. */
  method Times(pool: Pool, b: Bigint, p: Bigint) returns (b1: Bigint)
    requires pool.Valid() && pool.Owned(b) && p in pool.held && p != b && b.Ok() && p.Ok() && p.wds > 0
    modifies pool.spare, b
    ensures pool.Valid() && pool.powers == old(pool.powers)
    ensures pool.held == old(pool.held) - {b} + {b1} && b1 !in old(pool.held)
    ensures b1.Norm() && b1.Value() == old(b.Value()) * old(p.Value())
    ensures fresh({b1 as object, b1.x} - old(pool.spare))
    ensures fresh(pool.spare - old(pool.spare) - {b, b.x})
  {
    hide Disjoint, Fives, Lists, Spared, Linked, Val;
    b1 := Mult(pool, b, p);
    pool.Bfree(b);
  }

  ghost function Nodes(c: seq<Bigint>): set<object> {
    set p | p in c
  }

  /** What square-and-multiply still has to reach: v * x^k. */
  ghost function Remaining(v: nat, x: nat, k: nat): nat {
    v * Pow(x, k)
  }

  lemma {:induction false} RemainingRound(v: nat, x: nat, k: nat)
    requires k > 0
    ensures Remaining(if k % 2 == 1 then v * x else v, x * x, k / 2) == Remaining(v, x, k)
    ensures k / 2 == 0 ==> Remaining(if k % 2 == 1 then v * x else v, x, 0) == Remaining(v, x, k)
  {
    Round(v, x, k, v * Pow(x, k));
    assert Pow(x, 0) == 1 == Pow(x * x, 0);
  }

  lemma {:induction false} RemainingNone(v: nat, x: nat)
    ensures Remaining(v, x, 0) == v
  {
    assert Pow(x, 0) == 1;
  }

  lemma {:induction false} RemainingFives(v: nat, k: nat)
    ensures Remaining(v * Pow(5, k % 4), Pow(5, 4), k / 4) == v * Pow(5, k)
  {
    FiveSteps(v, k);
  }

  /** One bit of k: multiplies when it is set, and steps to the next cached power while bits remain. */
  method Pow5Round(pool: Pool, b: Bigint, p5: Bigint, k: nat, ghost j: nat) returns (b1: Bigint, p51: Bigint)
    requires pool.Valid() && pool.Owned(b) && b.Ok() && k > 0 && j < |pool.powers| && p5 == pool.powers[j]
    requires p5.Ok()
    modifies pool.spare, p5, b, b.x
    ensures pool.Valid() && pool.Owned(b1) && b1.Ok() && (old(b.Norm()) ==> b1.Norm())
    ensures old(pool.powers) <= pool.powers
    ensures Accounted(pool.held, old(pool.held) - {b}, b1, pool.powers)
    ensures p51.Ok() && Remaining(b1.Value(), p51.Value(), k / 2) == old(Remaining(b.Value(), p5.Value(), k))
    ensures k / 2 > 0 ==> j + 1 < |pool.powers| && p51 == pool.powers[j + 1]
    ensures fresh(pool.spare + {b1, b1.x} - old(pool.spare) - {b, b.x})
    ensures fresh(Nodes(pool.powers) - old(pool.spare) - {b, b.x} - Nodes(old(pool.powers)))
  {
    hide Disjoint, Fives, Lists, Spared, Linked, Val, Pow, Remaining;
    ghost var v, x := b.Value(), p5.Value();
    b1, p51 := b, p5;
    FivesAt(pool.powers, j);
    RemainingRound(v, x, k);
    pool.HeldApart(p5);
    if k % 2 == 1 {
      b1 := Times(pool, b, p5);
    }
    assert p5.Value() == x;
    ghost var v1 := b1.Value();
    assert v1 == if k % 2 == 1 then v * x else v;
    pool.HeldApart(b1);
    if k / 2 > 0 {
      p51 := NextPower(pool, p5, j);
      FivesAt(pool.powers, j + 1);
      Squared(j);
      assert p51.Value() == x * x;
    }
    assert b1.Value() == v1;
  }

  /** Beside the blocks of base, only the result b and cached powers are held. */
  ghost predicate Accounted(held: set<Bigint>, base: set<Bigint>, b: Bigint, powers: seq<Bigint>) {
    base <= held && b !in base && forall h | h in held :: h in base || h == b || h in powers
  }

  lemma {:induction false} AccountedOn(held: set<Bigint>, base: set<Bigint>, b: Bigint, powers: seq<Bigint>,
                                       held': set<Bigint>, b': Bigint, powers': seq<Bigint>)
    requires Accounted(held, base, b, powers) && Accounted(held', held - {b}, b', powers') && powers <= powers'
    ensures Accounted(held', base, b', powers')
  {
  }

  lemma {:induction false} AccountedFirst(held: set<Bigint>, b: Bigint, held': set<Bigint>, powers: seq<Bigint>)
    requires b in held && held <= held' && forall h | h in held' :: h in held || h in powers
    ensures Accounted(held', held - {b}, b, powers)
  {
  }

  lemma {:induction false} FirstFive()
    ensures Pow(5, 4 * Exp2(0)) == Pow(5, 4)
  {
  }

  /** The loop of pow5mult: b * 5^(4 * k). */
  method Pow5Loop(pool: Pool, b0: Bigint, k0: nat) returns (b: Bigint)
    requires pool.Valid() && pool.Owned(b0) && b0.Ok() && k0 > 0
    modifies pool.spare, pool.powers, b0, b0.x
    ensures pool.Valid() && old(pool.powers) <= pool.powers
    ensures pool.Owned(b) && Accounted(pool.held, old(pool.held) - {b0}, b, pool.powers)
    ensures b.Ok() && b.Value() == Remaining(old(b0.Value()), Pow(5, 4), k0)
    ensures old(b0.Norm()) ==> b.Norm()
    ensures fresh(pool.spare + {b, b.x} - old(pool.spare) - {b0, b0.x})
    ensures fresh(Nodes(pool.powers) - old(pool.spare) - {b0, b0.x} - Nodes(old(pool.powers)))
  {
    hide Disjoint, Fives, Lists, Spared, Linked, Val, Pow, Remaining, Accounted;
    FirstFive();
    ghost var v := b0.Value();
    b := b0;
    var k: nat := k0;
    pool.HeldApart(b);
    var p5 := FirstPower(pool);
    ghost var j := 0;
    FivesAt(pool.powers, 0);
    AccountedFirst(old(pool.held), b, pool.held, pool.powers);
    while k > 0
      invariant p5.Ok() && (k > 0 ==> j < |pool.powers| && p5 == pool.powers[j])
      invariant pool.Valid() && old(pool.powers) <= pool.powers
      invariant pool.Owned(b) && Accounted(pool.held, old(pool.held) - {b0}, b, pool.powers)
      invariant b.Ok() && (old(b0.Norm()) ==> b.Norm())
      invariant Remaining(b.Value(), p5.Value(), k) == Remaining(v, Pow(5, 4), k0)
      invariant fresh(pool.spare + {b, b.x} - old(pool.spare) - {b0, b0.x})
      invariant fresh(Nodes(pool.powers) - old(pool.spare) - {b0, b0.x} - Nodes(old(pool.powers)))
    {
      ghost var held, powers, was := pool.held, pool.powers, b;
      b, p5 := Pow5Round(pool, b, p5, k, j);
      AccountedOn(held, old(pool.held) - {b0}, was, powers, pool.held, b, pool.powers);
      k, j := k / 2, j + 1;
    }
    RemainingNone(b.Value(), p5.Value());
  }

  /** b * 5^k, extending the cache as far as the bits of k ask for. */
  method Pow5mult(pool: Pool, b0: Bigint, k0: nat) returns (b: Bigint)
    requires pool.Valid() && pool.Owned(b0) && b0.Ok()
    modifies pool.spare, pool.powers, b0, b0.x
    ensures pool.Valid() && old(pool.powers) <= pool.powers
    ensures pool.Owned(b) && Accounted(pool.held, old(pool.held) - {b0}, b, pool.powers)
    ensures b.Ok() && b.Value() == old(b0.Value()) * Pow(5, k0)
    ensures old(b0.Norm()) ==> b.Norm()
    ensures fresh(pool.spare + {b, b.x} - old(pool.spare) - {b0, b0.x})
    ensures fresh(Nodes(pool.powers) - old(pool.spare) - {b0, b0.x} - Nodes(old(pool.powers)))
  {
    hide Disjoint, Fives, Lists, Spared, Linked, Val, Pow, Remaining;
    ghost var v := b0.Value();
    b := b0;
    var i, k := k0 % 4, k0 / 4;
    SmallFives();
    if i > 0 {
      b := Multadd(pool, b, if i == 1 then 5 else if i == 2 then 25 else 125, 0);
    }
    assert b.Value() == v * Pow(5, i);
    RemainingFives(v, k0);
    if k == 0 {
      RemainingNone(v * Pow(5, i), Pow(5, 4));
    } else {
      b := Pow5Loop(pool, b, k);
    }
  }

  lemma {:induction false} Squared(j: nat)
    ensures Pow(5, 4 * Exp2(j)) * Pow(5, 4 * Exp2(j)) == Pow(5, 4 * Exp2(j + 1))
  {
    NextFive(j + 1);
  }

  lemma {:induction false} SmallFives()
    ensures Pow(5, 0) == 1 && Pow(5, 1) == 5 && Pow(5, 2) == 25 && Pow(5, 3) == 125
  {
  }
}
