/** The big-integer operations on blocks that come from the pool. */
module BigintOps {
  import opened Arith
  import opened Words
  import opened WordLoops
  import opened WordShifts
  import opened Bigints

  /** The same number in a block of the next class. */
  method Enlarge(pool: Pool, b: Bigint) returns (b1: Bigint)
    requires pool.Valid() && pool.Owned(b) && b.Ok() && b.wds > 0
    modifies pool.spare, b
    ensures pool.Valid() && pool.powers == old(pool.powers)
    ensures pool.held == old(pool.held) - {b} + {b1} && pool.Owned(b1) && b1 !in old(pool.held)
    ensures b1.Ok() && b1.wds == old(b.wds) < b1.maxwds && b1.Value() == old(b.Value())
    ensures fresh({b1 as object, b1.x} - old(pool.spare))
    ensures fresh(pool.spare - old(pool.spare) - {b, b.x})
  {
    hide Disjoint, Fives, Lists, Spared, Linked;
    pool.HeldApart(b);
    b1 := pool.Balloc(b.k + 1);
    pool.HeldApart(b1);
    Bcopy(b1, b);
    pool.Bfree(b);
  }

  /** Appends a nonzero top word, in a larger block when this one is full. */
  method PushWord(pool: Pool, b: Bigint, w: Word) returns (r: Bigint)
    requires pool.Valid() && pool.Owned(b) && b.Ok() && b.wds > 0 && w > 0
    modifies pool.spare, b, b.x
    ensures pool.Valid() && pool.powers == old(pool.powers)
    ensures pool.held == old(pool.held) - {b} + {r} && pool.Owned(r)
    ensures r.Norm() && r.wds == old(b.wds) + 1 && r.Value() == old(b.Value()) + Up(w, old(b.wds))
    ensures r == b || r !in old(pool.held)
    ensures fresh({r as object, r.x} - old(pool.spare) - {b, b.x})
    ensures fresh(pool.spare - old(pool.spare) - {b, b.x})
  {
    hide Disjoint, Fives, Lists, Spared, Linked, Val, Up;
    pool.HeldApart(b);
    r := b;
    if b.wds >= b.maxwds {
      r := Enlarge(pool, b);
    }
    pool.HeldApart(r);
    var n := r.wds;
    ghost var lo := r.x[..n];
    r.x[n] := w;
    r.wds := n + 1;
    ValPush(lo, w);
    assert r.x[..n + 1] == lo + [w];
  }

  /** b := b * m + a, moved to a block of the next class when it no longer fits. */
  method Multadd(pool: Pool, b: Bigint, m: int, a: int) returns (r: Bigint)
    requires pool.Valid() && pool.Owned(b) && b.Ok() && (b.wds == 0 ==> a == 0)
    requires 0 <= m < 0x8000_0000 && 0 <= a < 0x8000_0000
    modifies pool.spare, b, b.x
    ensures pool.Valid() && pool.powers == old(pool.powers)
    ensures pool.held == old(pool.held) - {b} + {r} && pool.Owned(r)
    ensures r.Ok() && r.Value() == old(b.Value()) * m + a
    ensures old(b.Norm()) && m > 0 ==> r.Norm()
    ensures r == b || r !in old(pool.held)
    ensures fresh({r as object, r.x} - old(pool.spare) - {b, b.x})
    ensures fresh(pool.spare - old(pool.spare) - {b, b.x})
  {
    hide Disjoint, Fives, Lists, Spared, Linked;
    pool.HeldApart(b);
    ghost var v := b.Value();
    var carry := MultaddWords(b, m, a);
    assert pool.Valid();
    UpZero(b.wds);
    r := b;
    if carry != 0 {
      r := PushWord(pool, b, carry);
    }
  }

  /** The carry loop of multadd, which always visits at least one word. */
  method MultaddWords(b: Bigint, m: int, a: int) returns (carry: Word)
    requires b.Ok() && (b.wds == 0 ==> a == 0) && 0 <= m < 0x8000_0000 && 0 <= a < 0x8000_0000
    modifies b.x
    ensures b.Ok() && b.Value() + Up(carry, b.wds) == old(b.Value()) * m + a
    ensures b.wds == 0 ==> carry == 0
    ensures old(b.Norm()) && m > 0 && carry == 0 ==> b.Norm()
  {
    var n := if b.wds == 0 then 1 else b.wds;
    ValSingle(b.x[..]);
    assert b.x[..][..1] == b.x[..1];
    ghost var s := b.x[..n];
    carry := MulAddWords(b.x, n, m, a);
    ghost var t := b.x[..n];
    if b.wds == 0 {
      assert Val(t) == t[0] && Up(carry, 1) == BASE * carry by {
        ValSingle(t);
        assert t[..1] == t;
      }
    } else if carry == 0 && m > 0 {
      UpZero(n);
      TopNonzero(s);
      TopNonzero(t);
      MulMonotone(1, m, Val(s));
    }
  }
}
