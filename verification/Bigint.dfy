/** Big integers in recycled blocks: the allocator with its free lists, and the cached powers of five. */
module Bigints {
  import opened Arith
  import opened Words

  const KMAX: nat := 7

  /** Size of the private pool, and of a block header with its first word (64-bit addresses), in bytes. */
  const PRIVATE_MEM: nat := 2304
  const HEADER: nat := 32

  function PoolDoubles(): nat {
    (PRIVATE_MEM + 7) / 8
  }

  /** Length of a block of class k in units of a double. */
  function Doubles(k: nat): nat {
    (HEADER + (Exp2(k) - 1) * 4 + 7) / 8
  }

  class Bigint {
    var next: Bigint?
    const k: nat
    const maxwds: nat
    const place: int
    var sign: bool
    var wds: nat
    const x: array<Word>

    /** A new block; place is its offset in the private pool, or -1 for memory from elsewhere. */
    constructor (k: nat, place: int)
      ensures this.k == k && this.place == place && Sized()
      ensures fresh(x) && wds == 0 && !sign && next == null
    {
      this.k, this.maxwds, this.place := k, Exp2(k), place;
      next, sign, wds := null, false, 0;
      x := new Word[Exp2(k)];
    }

    ghost predicate Sized() {
      x.Length == maxwds == Exp2(k)
    }

    /** A stored number: zero has no words or one zero word. */
    ghost predicate Ok()
      reads this`wds, x
    {
      Sized() && wds <= maxwds && (wds == 0 ==> x[0] == 0)
    }

    ghost function Value(): nat
      requires Ok()
      reads this`wds, x
    {
      Val(x[..wds])
    }

    /** No leading zero word. */
    ghost predicate Norm()
      reads this`wds, x
    {
      Ok() && (wds > 1 ==> x[wds - 1] != 0)
    }

    /** The bytes of the private pool that this block occupies lie below limit. */
    ghost predicate Within(limit: nat) {
      place >= 0 ==> place + Doubles(k) <= limit
    }
  }

  /** Distinct blocks share neither their words nor any part of the private pool. */
  ghost predicate Apart(b: Bigint, c: Bigint) {
    && b.x != c.x
    && (b.place >= 0 && c.place >= 0 ==> b.place + Doubles(b.k) <= c.place || c.place + Doubles(c.k) <= b.place)
  }

  ghost function At(c: seq<Bigint>, i: nat): Bigint? {
    if i < |c| then c[i] else null
  }

  /** The links from head run through the blocks of c in order and end there. */
  ghost predicate Linked(head: Bigint?, c: seq<Bigint>)
    reads c`next
  {
    head == At(c, 0) && forall i | 0 <= i < |c| :: c[i].next == At(c, i + 1)
  }

  /** The chains hold exactly the free blocks, each once and each on the list of its class. */
  ghost predicate Listed(chains: seq<seq<Bigint>>, free: set<Bigint>) {
    && |chains| == KMAX + 1
    && (forall i, j | 0 <= i <= KMAX && 0 <= j < |chains[i]| :: chains[i][j] in free && chains[i][j].k == i)
    && (forall i, j, j' | 0 <= i <= KMAX && 0 <= j < j' < |chains[i]| :: chains[i][j] != chains[i][j'])
    && (forall b | b in free :: b.k <= KMAX && b in chains[b.k])
  }

  /** The objects of the free blocks are spare, and those of the held blocks are not. */
  ghost predicate Spared(spare: set<object>, free: set<Bigint>, held: set<Bigint>) {
    && (forall b | b in free :: b in spare && b.x in spare)
    && (forall b | b in held :: b !in spare && b.x !in spare)
  }

  lemma {:induction false} SparedTake(spare: set<object>, free: set<Bigint>, held: set<Bigint>, b: Bigint)
    requires Spared(spare, free, held) && b in free && forall c | c in free && c != b :: c.x != b.x
    ensures b in spare && b.x in spare
    ensures Spared(spare - {b, b.x}, free - {b}, held + {b})
  {
  }

  lemma {:induction false} SparedGive(spare: set<object>, free: set<Bigint>, held: set<Bigint>, b: Bigint)
    requires Spared(spare, free, held) && b in held && forall c | c in held && c != b :: c.x != b.x
    ensures Spared(spare + {b, b.x}, free + {b}, held - {b})
    ensures Spared(spare, free, held - {b})
  {
  }

  lemma {:induction false} SparedNew(spare: set<object>, free: set<Bigint>, held: set<Bigint>, b: Bigint)
    requires Spared(spare, free, held) && b !in spare && b.x !in spare
    ensures Spared(spare, free, held + {b})
  {
  }

  lemma {:induction false} SparedNot(spare: set<object>, free: set<Bigint>, held: set<Bigint>, b: Bigint)
    requires Spared(spare, free, held) && b in held
    ensures b !in spare && b.x !in spare
  {
  }

  /** The free lists, given by their heads, run through the chains. */
  ghost predicate Lists(heads: seq<Bigint?>, chains: seq<seq<Bigint>>, free: set<Bigint>)
    reads free`next
  {
    && |heads| == KMAX + 1
    && Listed(chains, free)
    && (forall i | 0 <= i <= KMAX :: Linked(heads[i], chains[i]))
  }

  /** Every block has the words its class promises, and the blocks overlap nowhere. */
  ghost predicate Disjoint(blocks: set<Bigint>, limit: nat) {
    && (forall b | b in blocks :: b.Sized() && b.Within(limit))
    && (forall b, c | b in blocks && c in blocks && b != c :: Apart(b, c))
  }

  lemma {:induction false} DisjointAdd(blocks: set<Bigint>, limit: nat, b: Bigint, limit': nat)
    requires Disjoint(blocks, limit) && b !in blocks && b.Sized()
    requires forall c | c in blocks :: c.x != b.x
    requires limit <= limit' && b.Within(limit') && (b.place >= 0 ==> b.place == limit)
    ensures Disjoint(blocks + {b}, limit')
  {
  }

  lemma {:induction false} DisjointFrom(blocks: set<Bigint>, limit: nat, b: Bigint)
    requires Disjoint(blocks, limit) && b in blocks
    ensures b.Sized() && forall c | c in blocks && c != b :: c.x != b.x
  {
  }

  lemma {:induction false} DisjointSubset(blocks: set<Bigint>, some: set<Bigint>, limit: nat)
    requires Disjoint(blocks, limit) && some <= blocks
    ensures Disjoint(some, limit)
  {
  }

  lemma {:induction false} LinkedTail(c: seq<Bigint>)
    requires |c| > 0 && Linked(c[0], c)
    ensures Linked(c[0].next, c[1..])
  {
    forall i | 0 <= i < |c[1..]|
      ensures c[1..][i].next == At(c[1..], i + 1)
    {
      assert c[i + 1].next == At(c, i + 2);
    }
  }

  lemma {:induction false} ListsPop(heads: seq<Bigint?>, chains: seq<seq<Bigint>>, free: set<Bigint>, k: nat)
    requires Lists(heads, chains, free) && k <= KMAX && heads[k] != null
    ensures |chains| == KMAX + 1 && chains[k] != []
    ensures var rv := chains[k][0];
            && heads[k] == rv && rv in free && rv.k == k
            && Lists(heads[k := rv.next], chains[k := chains[k][1..]], free - {rv})
  {
    var rv := chains[k][0];
    var chains' := chains[k := chains[k][1..]];
    LinkedTail(chains[k]);
    forall b | b in free - {rv}
      ensures b in chains'[b.k]
    {
      assert b in chains[b.k];
    }
  }

  lemma {:induction false} ListsEmpty(heads: seq<Bigint?>, chains: seq<seq<Bigint>>, free: set<Bigint>, k: nat)
    requires Lists(heads, chains, free) && k <= KMAX
    ensures |chains| == KMAX + 1 == |heads|
    ensures heads[k] == null <==> chains[k] == []
  {
    assert Linked(heads[k], chains[k]);
  }

  lemma {:induction false} ListsPush(heads: seq<Bigint?>, chains: seq<seq<Bigint>>, free: set<Bigint>, v: Bigint)
    requires Lists(heads, chains, free) && v.k <= KMAX && v !in free && v.next == heads[v.k]
    ensures |chains| == KMAX + 1
    ensures Lists(heads[v.k := v], chains[v.k := [v] + chains[v.k]], free + {v})
  {
    var c := [v] + chains[v.k];
    var chains' := chains[v.k := c];
    forall i | 0 <= i < |c|
      ensures c[i].next == At(c, i + 1)
    {
      if i > 0 {
        assert chains[v.k][i - 1].next == At(chains[v.k], i);
      }
    }
    forall b | b in free + {v}
      ensures b in chains'[b.k]
    {
      if b != v {
        assert b in chains[b.k];
      } else {
        assert chains'[v.k][0] == v;
      }
    }
  }

  /** Node i of the cache holds 5^(4 * 2^i). */
  ghost predicate Fives(powers: seq<Bigint>)
    reads powers`wds, set b | b in powers :: b.x
  {
    && (forall i | 0 <= i < |powers| :: powers[i].Norm() && powers[i].Value() == Pow(5, 4 * Exp2(i)))
    && (forall i, j | 0 <= i < j < |powers| :: powers[i] != powers[j])
  }

  method Bcopy(dst: Bigint, src: Bigint)
    requires src.Ok() && dst.Sized() && src.wds <= dst.maxwds && dst != src && dst.x != src.x
    requires src.wds > 0
    modifies dst, dst.x
    ensures dst.Ok() && dst.wds == src.wds && dst.sign == src.sign && dst.next == old(dst.next)
    ensures dst.Value() == src.Value() && dst.x[..dst.wds] == src.x[..src.wds]
  {
    dst.sign, dst.wds := src.sign, src.wds;
    forall i | 0 <= i < src.wds {
      dst.x[i] := src.x[i];
    }
    assert dst.x[..dst.wds] == src.x[..src.wds];
  }

  class Pool {
    const freelist: array<Bigint?>
    var pmemNext: nat
    var p5s: Bigint?
    /** The blocks on each free list, those on any of them, and those handed out and not yet freed. */
    ghost var chains: seq<seq<Bigint>>
    ghost var free: set<Bigint>
    ghost var held: set<Bigint>
    /** The cached powers of five, in the order of their links. */
    ghost var powers: seq<Bigint>
    /** What a call may overwrite without being asked: the allocator's own state and its free blocks. */
    ghost var spare: set<object>

    ghost predicate Valid()
      reads this, freelist, free`next, powers`next, powers`wds, set b | b in powers :: b.x
    {
      && freelist.Length == KMAX + 1
      && this in spare && freelist in spare
      && Spared(spare, free, held)
      && Lists(freelist[..], chains, free)
      && free !! held
      && pmemNext <= PoolDoubles()
      && Disjoint(free + held, pmemNext)
      && (forall b | b in powers :: b in held)
      && Linked(p5s, powers)
      && Fives(powers)
    }

    /** A block that the caller holds and may change or give back. */
    ghost predicate Owned(b: Bigint)
      reads this
    {
      b in held && b !in powers
    }

    constructor ()
      ensures Valid() && held == {} && free == {} && powers == [] && fresh(spare)
    {
      freelist := new Bigint?[KMAX + 1](_ => null);
      pmemNext, p5s := 0, null;
      chains, free, held, powers := seq(KMAX + 1, _ => []), {}, {}, [];
      new;
      spare := {this, freelist};
    }

    /** A block of class k: the first free one, else room in the private pool, else memory from outside. */
    method Balloc(k: nat) returns (rv: Bigint)
      requires Valid()
      modifies spare
      ensures Valid() && powers == old(powers) && p5s == old(p5s)
      ensures rv !in old(held) && held == old(held) + {rv} && free == old(free) - {rv}
      ensures rv.k == k && rv.wds == 0 && !rv.sign && rv.Sized()
      ensures spare == old(spare) - {rv, rv.x}
      ensures Reusable(old(chains), k) ==>
                rv == old(chains)[k][0] && rv in old(free) && rv in old(spare) && rv.x in old(spare)
                && chains == old(chains)[k := old(chains)[k][1..]] && pmemNext == old(pmemNext)
      ensures !Reusable(old(chains), k) ==>
                fresh(rv) && fresh(rv.x) && chains == old(chains) && free == old(free)
                && pmemNext == old(pmemNext) + RoomTaken(k, old(pmemNext))
    {
      hide Disjoint, Fives, Lists, Linked, Spared;
      if k <= KMAX {
        ListsEmpty(freelist[..], chains, free, k);
      }
      if k <= KMAX && freelist[k] != null {
        rv := Pop(k);
      } else {
        rv := Carve(k);
      }
    }

    static ghost predicate Reusable(chains: seq<seq<Bigint>>, k: nat) {
      k <= KMAX && k < |chains| && chains[k] != []
    }

    /** What a new block of class k takes from the private pool when the next free place is at. */
    static function RoomTaken(k: nat, at: nat): nat {
      if k <= KMAX && at + Doubles(k) <= PoolDoubles() then Doubles(k) else 0
    }

    /** A held block can change without touching the allocator's blocks or the cache. */
    lemma {:induction false} HeldApart(b: Bigint)
      requires Valid() && b in held
      ensures b.Sized() && b !in free && b !in spare && b.x !in spare
      ensures forall c | c in held && c != b :: c.x != b.x
    {
      hide Fives, Lists, Linked, Disjoint, Spared;
      DisjointFrom(free + held, pmemNext, b);
      SparedNot(spare, free, held, b);
    }

    /** A block not handed out before, from the private pool while there is room. */
    method Carve(k: nat) returns (rv: Bigint)
      requires Valid()
      modifies this
      ensures Valid() && powers == old(powers) && p5s == old(p5s)
      ensures held == old(held) + {rv} && free == old(free) && chains == old(chains) && spare == old(spare)
      ensures fresh(rv) && fresh(rv.x) && rv.k == k && rv.wds == 0 && !rv.sign && rv.Sized()
      ensures pmemNext == old(pmemNext) + RoomTaken(k, old(pmemNext))
    {
      hide Fives, Lists, Linked, Spared;
      var place: int := -1;
      if RoomTaken(k, pmemNext) > 0 {
        place := pmemNext;
        pmemNext := pmemNext + Doubles(k);
      }
      rv := new Bigint(k, place);
      DisjointAdd(free + held, old(pmemNext), rv, pmemNext);
      SparedNew(spare, free, held, rv);
      held := held + {rv};
      assert free + held == old(free + held) + {rv};
    }

    /** Takes the first block off free list k. */
    method Pop(k: nat) returns (rv: Bigint)
      requires Valid() && k <= KMAX && freelist[k] != null
      modifies spare
      ensures Valid() && powers == old(powers) && p5s == old(p5s)
      ensures Reusable(old(chains), k) && rv == old(chains)[k][0] && rv in old(free)
      ensures spare == old(spare) - {rv, rv.x} && rv in old(spare) && rv.x in old(spare)
      ensures rv.wds == 0 && !rv.sign && rv.k == k && rv.Sized()
      ensures held == old(held) + {rv} && free == old(free) - {rv}
      ensures chains == old(chains)[k := old(chains)[k][1..]] && pmemNext == old(pmemNext)
    {
      hide Disjoint, Fives, Lists, Linked, Spared;
      ListsPop(freelist[..], chains, free, k);
      rv := freelist[k];
      DisjointFrom(free + held, pmemNext, rv);
      SparedTake(spare, free, held, rv);
      spare := spare - {rv, rv.x};
      ghost var heads := freelist[..][k := rv.next];
      freelist[k] := rv.next;
      assert freelist[..] == heads;
      chains := chains[k := chains[k][1..]];
      rv.sign, rv.wds := false, 0;
      free, held := free - {rv}, held + {rv};
      assert free + held == old(free + held);
    }

    /** Returns a block to the list of its class, or releases it when it is too big for the lists. */
    method Bfree(v: Bigint)
      requires Valid() && Owned(v)
      modifies this, freelist, v`next
      ensures Valid() && powers == old(powers) && p5s == old(p5s) && pmemNext == old(pmemNext)
      ensures held == old(held) - {v}
      ensures spare == if v.k <= KMAX then old(spare) + {v, v.x} else old(spare)
      ensures v.k <= KMAX ==>
                v.k < |old(chains)| && free == old(free) + {v}
                && chains == old(chains)[v.k := [v] + old(chains)[v.k]]
      ensures v.k > KMAX ==> free == old(free) && chains == old(chains)
    {
      hide Disjoint, Fives, Lists, Linked, Spared;
      DisjointFrom(free + held, pmemNext, v);
      SparedGive(spare, free, held, v);
      if v.k <= KMAX {
        v.next := freelist[v.k];
        ListsPush(freelist[..], chains, free, v);
        ghost var heads := freelist[..][v.k := v];
        freelist[v.k] := v;
        assert freelist[..] == heads;
        chains := chains[v.k := [v] + chains[v.k]];
        free := free + {v};
        spare := spare + {v, v.x};
      }
      held := held - {v};
      DisjointSubset(old(free + held), free + held, pmemNext);
    }
  }
}
