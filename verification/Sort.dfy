/** table.sort: quicksort with median of three, a sentinel partition, and recursion on the smaller half. */
module Sort {
  import opened Arith

  // ---- Rearrangements of a segment ----

  /** t is s with the elements from l to u rearranged. */
  ghost predicate Rearranged<T>(s: seq<T>, t: seq<T>, l: int, u: int) {
    && |s| == |t| && 0 <= l <= u + 1 <= |s|
    && (forall k | 0 <= k < |s| && (k < l || u < k) :: s[k] == t[k])
    && multiset(s[l..u + 1]) == multiset(t[l..u + 1])
  }

  lemma {:induction false} Split3<T>(s: seq<T>, l: int, i: int, j: int, u: int)
    requires 0 <= l <= i <= j <= u <= |s|
    ensures multiset(s[l..u]) == multiset(s[l..i]) + multiset(s[i..j]) + multiset(s[j..u])
  {
    assert s[l..u] == s[l..i] + s[i..j] + s[j..u];
  }

  lemma {:induction false} Widen<T>(s: seq<T>, t: seq<T>, l: int, u: int, lo: int, hi: int)
    requires Rearranged(s, t, l, u) && 0 <= lo <= l && u <= hi < |s|
    ensures Rearranged(s, t, lo, hi)
  {
    Split3(s, lo, l, u + 1, hi + 1);
    Split3(t, lo, l, u + 1, hi + 1);
    assert s[lo..l] == t[lo..l];
    assert s[u + 1..hi + 1] == t[u + 1..hi + 1];
  }

  lemma {:induction false} Chain<T>(s: seq<T>, t: seq<T>, w: seq<T>, l: int, u: int)
    requires Rearranged(s, t, l, u) && Rearranged(t, w, l, u)
    ensures Rearranged(s, w, l, u)
  {
  }

  lemma {:induction false} Whole<T>(s: seq<T>, t: seq<T>, l: int, u: int)
    requires Rearranged(s, t, l, u)
    ensures multiset(s) == multiset(t)
  {
    if s != [] {
      Widen(s, t, l, u, 0, |s| - 1);
      assert s[0..|s|] == s && t[0..|t|] == t;
    } else {
      assert s == t;
    }
  }

  /** Each element of the segment was somewhere in it before. */
  lemma {:induction false} CameFrom<T>(s: seq<T>, t: seq<T>, l: int, u: int, k: int) returns (j: int)
    requires Rearranged(s, t, l, u) && l <= k <= u
    ensures l <= j <= u && s[j] == t[k]
  {
    assert t[k] == t[l..u + 1][k - l];
    assert t[k] in multiset(s[l..u + 1]);
    var v := s[l..u + 1];
    var c :| 0 <= c < |v| && v[c] == t[k];
    j := l + c;
  }

  lemma {:induction false} Swapped<T>(s: seq<T>, i: int, j: int, l: int, u: int)
    requires 0 <= l <= i <= u < |s| && l <= j <= u
    ensures Rearranged(s, s[i := s[j]][j := s[i]], l, u)
  {
    var t := s[i := s[j]][j := s[i]];
    var v, w := s[l..u + 1], t[l..u + 1];
    assert w == v[i - l := v[j - l]][j - l := v[i - l]];
  }

  // ---- The order function ----

  /** An order function may answer differently at every call. */
  class Order<T> {
    const less: (nat, T, T) -> bool
    var calls: nat

    constructor (less: (nat, T, T) -> bool)
      ensures this.less == less && calls == 0
    {
      this.less := less;
      calls := 0;
    }

    method Less(x: T, y: T) returns (r: bool)
      modifies this
      ensures r == less(old(calls), x, y) && calls == old(calls) + 1
    {
      r := less(calls, x, y);
      calls := calls + 1;
    }
  }

  /** less is one strict weak order at every call. */
  ghost predicate StrictWeak<T(!new)>(less: (nat, T, T) -> bool) {
    && (forall t, x, y :: less(t, x, y) == less(0, x, y))
    && (forall x, y :: less(0, x, y) ==> !less(0, y, x))
    && (forall x, y, z :: !less(0, x, y) && !less(0, y, z) ==> !less(0, x, z))
  }

  ghost predicate AtMost<T>(less: (nat, T, T) -> bool, x: T, y: T) {
    !less(0, y, x)
  }

  lemma {:induction false} AtMostTransitive<T(!new)>(less: (nat, T, T) -> bool, x: T, y: T, z: T)
    requires StrictWeak(less) && AtMost(less, x, y) && AtMost(less, y, z)
    ensures AtMost(less, x, z)
  {
  }

  /** All pairs from lo to hi are in order, but for those inside l..u. */
  ghost predicate OrderedOutside<T>(less: (nat, T, T) -> bool, s: seq<T>, lo: int, hi: int, l: int, u: int)
    requires 0 <= lo && hi < |s|
  {
    forall i, j | lo <= i < j <= hi && (i < l || u < j) :: AtMost(less, s[i], s[j])
  }

  ghost predicate Sorted<T>(less: (nat, T, T) -> bool, s: seq<T>, lo: int, hi: int)
    requires 0 <= lo && hi < |s|
  {
    forall i, j | lo <= i < j <= hi :: AtMost(less, s[i], s[j])
  }

  lemma {:induction false} OutsideKept<T>(less: (nat, T, T) -> bool, s: seq<T>, t: seq<T>, lo: int, hi: int, l: int,
      u: int)
    requires 0 <= lo <= l <= u + 1 && u <= hi < |s| && Rearranged(s, t, l, u) && OrderedOutside(less, s, lo, hi, l, u)
    ensures OrderedOutside(less, t, lo, hi, l, u)
  {
    forall i, j | lo <= i < j <= hi && (i < l || u < j)
      ensures AtMost(less, t[i], t[j])
    {
      var i', j' := i, j;
      if l <= i <= u {
        i' := CameFrom(s, t, l, u, i);
      }
      if l <= j <= u {
        j' := CameFrom(s, t, l, u, j);
      }
      assert AtMost(less, s[i'], s[j']);
    }
  }

  /** The pivot stands at m, nothing greater before it and nothing less behind it. */
  ghost predicate Parted<T>(less: (nat, T, T) -> bool, s: seq<T>, l: int, m: int, u: int)
    requires 0 <= l <= m <= u < |s|
  {
    && (forall k | l <= k <= m :: AtMost(less, s[k], s[m]))
    && (forall k | m <= k <= u :: AtMost(less, s[m], s[k]))
  }

  // ---- The methods ----

  method Set2<T>(a: array<T>, i: int, j: int, ghost l: int, ghost u: int)
    requires 0 <= l <= i <= u < a.Length && l <= j <= u
    modifies a
    ensures Rearranged(old(a[..]), a[..], l, u)
    ensures a[i] == old(a[j]) && a[j] == old(a[i])
    ensures forall k | 0 <= k < a.Length && k != i && k != j :: a[k] == old(a[k])
  {
    Swapped(a[..], i, j, l, u);
    ghost var t := a[..][i := a[j]][j := a[i]];
    a[i], a[j] := a[j], a[i];
    assert a[..] == t;
  }

  /** Puts a[i] and a[j] in order when the comparison says that they are not. */
  method SortTwo<T(!new)>(a: array<T>, o: Order<T>, i: int, j: int, ghost l: int, ghost u: int) returns (r: bool)
    requires 0 <= l <= i < j <= u < a.Length
    modifies a, o
    ensures Rearranged(old(a[..]), a[..], l, u)
    ensures forall k | 0 <= k < a.Length && k != i && k != j :: a[k] == old(a[k])
    ensures if r then a[i] == old(a[j]) && a[j] == old(a[i]) else a[i] == old(a[i]) && a[j] == old(a[j])
    ensures StrictWeak(o.less) ==> AtMost(o.less, a[i], a[j]) && (r ==> o.less(0, a[i], a[j]))
  {
    Itself(a[..], l, u);
    r := o.Less(a[j], a[i]);
    if r {
      Set2(a, i, j, l, u);
    }
  }

  lemma {:induction false} Itself<T>(s: seq<T>, l: int, u: int)
    requires 0 <= l <= u + 1 <= |s|
    ensures Rearranged(s, s, l, u)
  {
  }

  /** Orders a[l], a[(l + u) / 2] and a[u]. */
  method MedianOfThree<T(!new)>(a: array<T>, o: Order<T>, l: int, u: int) returns (i: int)
    requires 0 <= l < u < a.Length
    modifies a, o
    ensures Rearranged(old(a[..]), a[..], l, u) && i == (l + u) / 2
    ensures StrictWeak(o.less) ==> AtMost(o.less, a[l], a[u])
    ensures StrictWeak(o.less) && u - l >= 2 ==> AtMost(o.less, a[l], a[i]) && AtMost(o.less, a[i], a[u])
  {
    hide Rearranged, StrictWeak;
    var r := SortTwo(a, o, l, u, l, u);
    i := (l + u) / 2;
    if u - l == 1 {
      return;
    }
    ghost var s, low, high := a[..], a[l], a[u];
    r := SortTwo(a, o, l, i, l, u);
    Chain(old(a[..]), s, a[..], l, u);
    if r {
      if StrictWeak(o.less) {
        LessThenAtMost(o.less, a[l], a[i], a[u]);
      }
    } else {
      s := a[..];
      ghost var mid := a[i];
      r := SortTwo(a, o, i, u, l, u);
      Chain(old(a[..]), s, a[..], l, u);
      if StrictWeak(o.less) {
        LowestOfThree(o.less, a[l], mid, high, a[i], a[u]);
      }
    }
  }

  /** x before y, and y (once first) at most z: x is at most z. */
  lemma {:induction false} LessThenAtMost<T(!new)>(less: (nat, T, T) -> bool, x: T, y: T, z: T)
    requires StrictWeak(less) && less(0, x, y) && AtMost(less, y, z)
    ensures AtMost(less, x, z)
  {
  }

  lemma {:induction false} LowestOfThree<T(!new)>(less: (nat, T, T) -> bool, low: T, mid: T, high: T, x: T, y: T)
    requires StrictWeak(less) && AtMost(less, low, mid) && AtMost(less, low, high)
    requires (x == mid && y == high) || (x == high && y == mid)
    ensures AtMost(less, low, x) && AtMost(less, low, y)
  {
  }

  /** Moves i up past the elements less than the pivot; false is the error "invalid order function". */
  method ScanUp<T(!new)>(a: array<T>, o: Order<T>, p: T, i0: int, u: int) returns (ok: bool, i: int)
    requires 0 <= i0 < u < a.Length
    modifies o
    ensures ok ==> i0 < i <= u
    ensures ok && StrictWeak(o.less) ==>
              !o.less(0, a[i], p) && forall k | i0 < k < i :: o.less(0, a[k], p)
    ensures !ok && StrictWeak(o.less) ==> o.less(0, a[u], p)
  {
    i := i0 + 1;
    var r := o.Less(a[i], p);
    while r
      invariant i0 < i <= u
      invariant StrictWeak(o.less) ==> r == o.less(0, a[i], p) && forall k | i0 < k < i :: o.less(0, a[k], p)
      decreases u - i, r
    {
      if i >= u {
        return false, i;
      }
      i := i + 1;
      r := o.Less(a[i], p);
    }
    ok := true;
  }

  method ScanDown<T(!new)>(a: array<T>, o: Order<T>, p: T, l: int, j0: int) returns (ok: bool, j: int)
    requires 0 <= l < j0 <= a.Length
    modifies o
    ensures ok ==> l <= j < j0
    ensures ok && StrictWeak(o.less) ==>
              !o.less(0, p, a[j]) && forall k | j < k < j0 :: o.less(0, p, a[k])
    ensures !ok && StrictWeak(o.less) ==> o.less(0, p, a[l])
  {
    j := j0 - 1;
    var r := o.Less(p, a[j]);
    while r
      invariant l <= j < j0
      invariant StrictWeak(o.less) ==> r == o.less(0, p, a[j]) && forall k | j < k < j0 :: o.less(0, p, a[k])
      decreases j - l, r
    {
      if j <= l {
        return false, j;
      }
      j := j - 1;
      r := o.Less(p, a[j]);
    }
    ok := true;
  }

  /** Everything up to i is at most p, and everything from j on is at least p. */
  ghost predicate Sides<T>(less: (nat, T, T) -> bool, s: seq<T>, p: T, l: int, i: int, j: int, u: int)
    requires 0 <= l && i < |s| && 0 <= j && u < |s|
  {
    && (forall k | l <= k <= i :: AtMost(less, s[k], p))
    && (forall k | j <= k <= u :: AtMost(less, p, s[k]))
  }

  /** Once the scans have crossed, swapping the pivot to i parts the segment. */
  lemma {:induction false} Crossed<T(!new)>(less: (nat, T, T) -> bool, s: seq<T>, p: T, l: int, i0: int, i: int,
                                            j: int, j0: int, u: int)
    requires 0 <= l <= i0 < i <= u < |s| && l <= j < j0 <= u - 1 && j < i && i0 < u - 1 && s[u - 1] == p
    requires StrictWeak(less) && Sides(less, s, p, l, i0, j0, u)
    requires !less(0, s[i], p) && forall k | i0 < k < i :: less(0, s[k], p)
    requires forall k | j < k < j0 :: less(0, p, s[k])
    ensures Parted(less, s[u - 1 := s[i]][i := p], l, i, u)
  {
    var t := s[u - 1 := s[i]][i := p];
    assert !less(0, s[u - 1], p);
    assert i < u;
    forall k | l <= k <= i
      ensures AtMost(less, t[k], t[i])
    {
    }
    forall k | i <= k <= u
      ensures AtMost(less, t[i], t[k])
    {
      assert AtMost(less, p, s[k]);
    }
  }

  /** Swapping where both scans stopped extends the sides. */
  lemma {:induction false} Exchanged<T(!new)>(less: (nat, T, T) -> bool, s: seq<T>, p: T, l: int, i0: int, i: int,
                                              j: int, j0: int, u: int)
    requires 0 <= l <= i0 < i <= j < j0 <= u < |s|
    requires StrictWeak(less) && Sides(less, s, p, l, i0, j0, u)
    requires !less(0, s[i], p) && forall k | i0 < k < i :: less(0, s[k], p)
    requires !less(0, p, s[j]) && forall k | j < k < j0 :: less(0, p, s[k])
    ensures Sides(less, s[i := s[j]][j := s[i]], p, l, i, j, u)
  {
  }

  /** No scan runs off the end of a segment that has the sides. */
  lemma {:induction false} Stops<T>(less: (nat, T, T) -> bool, s: seq<T>, p: T, l: int, i: int, j: int, u: int)
    requires 0 <= l <= i <= j <= u < |s| && Sides(less, s, p, l, i, j, u)
    ensures !less(0, s[u], p) && !less(0, p, s[l])
  {
    assert AtMost(less, p, s[u]) && AtMost(less, s[l], p);
  }

  lemma {:induction false} FirstSides<T>(less: (nat, T, T) -> bool, s: seq<T>, p: T, l: int, u: int)
    requires 0 <= l < u - 1 && u < |s| && p == s[u - 1] && AtMost(less, s[l], p) && AtMost(less, p, s[u])
      && !less(0, p, p)
    ensures Sides(less, s, p, l, l, u - 1, u)
  {
  }

  lemma {:induction false} Irreflexive<T(!new)>(less: (nat, T, T) -> bool, p: T)
    requires StrictWeak(less)
    ensures !less(0, p, p)
  {
  }

  /** Splits a[l..u] at the pivot a[u - 1], which ends at i. */
  method Partition<T(!new)>(a: array<T>, o: Order<T>, l: int, u: int) returns (ok: bool, i: int)
    requires 0 <= l && l + 3 <= u < a.Length
    requires StrictWeak(o.less) ==> AtMost(o.less, a[l], a[u - 1]) && AtMost(o.less, a[u - 1], a[u])
    modifies a, o
    ensures Rearranged(old(a[..]), a[..], l, u)
    ensures ok ==> l < i <= u
    ensures StrictWeak(o.less) ==> ok && Parted(o.less, a[..], l, i, u)
  {
    hide Parted, Sides, StrictWeak, Rearranged;
    var p := a[u - 1];
    i := l;
    var j := u - 1;
    if StrictWeak(o.less) {
      Irreflexive(o.less, p);
      FirstSides(o.less, a[..], p, l, u);
    }
    Itself(a[..], l, u);
    while true
      invariant l <= i <= j < u && i < u - 1 && l < j && a[u - 1] == p
      invariant Rearranged(old(a[..]), a[..], l, u)
      invariant StrictWeak(o.less) ==> Sides(o.less, a[..], p, l, i, j, u)
      decreases j - i
    {
      ghost var i0, j0 := i, j;
      if StrictWeak(o.less) {
        Stops(o.less, a[..], p, l, i, j, u);
      }
      ok, i := ScanUp(a, o, p, i, u);
      if !ok {
        return;
      }
      ok, j := ScanDown(a, o, p, l, j);
      if !ok {
        return;
      }
      if j < i {
        if StrictWeak(o.less) {
          Crossed(o.less, a[..], p, l, i0, i, j, j0, u);
        }
        break;
      }
      ghost var s := a[..];
      if StrictWeak(o.less) {
        Exchanged(o.less, s, p, l, i0, i, j, j0, u);
      }
      Set2(a, i, j, l, u);
      assert a[..] == s[i := s[j]][j := s[i]];
      Chain(old(a[..]), s, a[..], l, u);
    }
    ghost var s := a[..];
    Set2(a, u - 1, i, l, u);
    assert a[..] == s[u - 1 := s[i]][i := p];
    Chain(old(a[..]), s, a[..], l, u);
  }

  /** The bounds of the rest keep their order through a rearrangement on one side of the pivot. */
  lemma {:induction false} PartedKept<T(!new)>(less: (nat, T, T) -> bool, s: seq<T>, t: seq<T>, l: int, m: int, u: int,
                                               x: int, y: int)
    requires 0 <= l <= m <= u < |s| && l <= x <= y + 1 && y <= u && (y < m || m < x)
    requires Parted(less, s, l, m, u) && Rearranged(s, t, x, y)
    ensures Parted(less, t, l, m, u)
  {
    forall k | l <= k <= u
      ensures k <= m ==> AtMost(less, t[k], t[m])
      ensures m <= k ==> AtMost(less, t[m], t[k])
    {
      if x <= k <= y {
        var j := CameFrom(s, t, x, y, k);
      }
    }
  }

  /** Parting l..u and sorting one part leaves only the other part out of order. */
  lemma {:induction false} OnePartLeft<T(!new)>(less: (nat, T, T) -> bool, s: seq<T>, lo: int, l: int, m: int,
      u: int, hi: int)
    requires 0 <= lo <= l <= m <= u <= hi < |s| && StrictWeak(less)
    requires OrderedOutside(less, s, lo, hi, l, u) && Parted(less, s, l, m, u)
    ensures Sorted(less, s, l, m - 1) ==> OrderedOutside(less, s, lo, hi, m + 1, u)
    ensures Sorted(less, s, m + 1, u) ==> OrderedOutside(less, s, lo, hi, l, m - 1)
  {
    forall i, j | lo <= i < j <= hi && !(i < l || u < j) && (i <= m <= j)
      ensures AtMost(less, s[i], s[j])
    {
      AtMostTransitive(less, s[i], s[m], s[j]);
    }
  }

  /** One turn on a[l..u]: done when at most three elements make it up, otherwise parted at m. */
  method SplitAt<T(!new)>(a: array<T>, o: Order<T>, l: int, u: int) returns (ok: bool, done: bool, m: int)
    requires 0 <= l < u < a.Length
    modifies a, o
    ensures Rearranged(old(a[..]), a[..], l, u) && (done ==> ok)
    ensures ok && !done ==> l < m <= u && u - l >= 3
    ensures StrictWeak(o.less) ==> ok && if done then Sorted(o.less, a[..], l, u) else Parted(o.less, a[..], l, m, u)
  {
    hide Rearranged, StrictWeak, Parted;
    m := MedianOfThree(a, o, l, u);
    ok, done := true, true;
    if u - l == 1 {
      return;
    }
    if u - l == 2 {
      assert m == l + 1;
      return;
    }
    done := false;
    ghost var s := a[..];
    Set2(a, m, u - 1, l, u);
    Chain(old(a[..]), s, a[..], l, u);
    s := a[..];
    ok, m := Partition(a, o, l, u);
    Chain(old(a[..]), s, a[..], l, u);
  }

  lemma {:induction false} NothingOutside<T>(less: (nat, T, T) -> bool, s: seq<T>, l: int, u: int)
    requires 0 <= l && u < |s|
    ensures OrderedOutside(less, s, l, u, l, u)
  {
  }

  lemma {:induction false} Advance<T(!new)>(less: (nat, T, T) -> bool, s: seq<T>, t: seq<T>, w: seq<T>,
                                            l: int, u: int, lo: int, hi: int)
    requires Rearranged(s, t, lo, hi) && Rearranged(t, w, l, u) && lo <= l && u <= hi
    ensures Rearranged(s, w, lo, hi) && |s| == |t| == |w| && 0 <= lo && hi < |s|
    ensures OrderedOutside(less, t, lo, hi, l, u) ==> OrderedOutside(less, w, lo, hi, l, u)
  {
    Widen(t, w, l, u, lo, hi);
    Chain(s, t, w, lo, hi);
    if OrderedOutside(less, t, lo, hi, l, u) {
      OutsideKept(less, t, w, lo, hi, l, u);
    }
  }

  lemma {:induction false} AllOrdered<T(!new)>(less: (nat, T, T) -> bool, s: seq<T>, lo: int, hi: int, l: int, u: int)
    requires 0 <= lo && hi < |s| && OrderedOutside(less, s, lo, hi, l, u)
    requires l >= u || (0 <= l && u < |s| && Sorted(less, s, l, u))
    ensures Sorted(less, s, lo, hi)
  {
  }

  /** After one part x..y is sorted, only the other part l'..u' is out of order. */
  lemma {:induction false} AfterPart<T(!new)>(less: (nat, T, T) -> bool, s: seq<T>, t: seq<T>, lo: int, hi: int,
                                              l: int, m: int, u: int, x: int, y: int, l': int, u': int)
    requires 0 <= lo <= l <= m <= u <= hi < |s| && StrictWeak(less)
    requires OrderedOutside(less, s, lo, hi, l, u) && Parted(less, s, l, m, u) && Rearranged(s, t, x, y)
    requires (x == l && y == m - 1 && l' == m + 1 && u' == u) || (x == m + 1 && y == u && l' == l && u' == m - 1)
    requires Sorted(less, t, x, y)
    ensures OrderedOutside(less, t, lo, hi, l', u')
  {
    Widen(s, t, x, y, l, u);
    OutsideKept(less, s, t, lo, hi, l, u);
    PartedKept(less, s, t, l, m, u, x, y);
    OnePartLeft(less, t, lo, l, m, u, hi);
  }

  lemma {:induction false} NestStep(n: nat, size: int, whole: int)
    requires Exp2(n) <= Max(1, size) && 2 * size <= whole && 2 <= whole
    ensures Exp2(n + 1) <= whole
  {
  }

  /**
   * Sorts a[l0..u0]. nest is how deep the recursive calls went; ok is false when the error was raised.
   * Only the last clause needs a consistent order.
   */
  method AuxSort<T(!new)>(a: array<T>, o: Order<T>, l0: int, u0: int) returns (ok: bool, ghost nest: nat)
    requires 0 <= l0 <= u0 + 1 <= a.Length
    modifies a, o
    ensures Rearranged(old(a[..]), a[..], l0, u0)
    ensures Exp2(nest) <= Max(1, u0 - l0 + 1)
    ensures StrictWeak(o.less) ==> ok && Sorted(o.less, a[..], l0, u0)
    decreases u0 - l0
  {
    hide Rearranged, OrderedOutside, Sorted, Parted, StrictWeak, Exp2;
    var l, u := l0, u0;
    nest, ok := 0, true;
    assert Exp2(0) == 1 by { NoNest(); }
    Itself(a[..], l, u);
    NothingOutside(o.less, a[..], l, u);
    while l < u
      invariant l0 <= l <= u + 1 && u <= u0
      invariant Rearranged(old(a[..]), a[..], l0, u0)
      invariant Exp2(nest) <= Max(1, u0 - l0 + 1)
      invariant StrictWeak(o.less) ==> OrderedOutside(o.less, a[..], l0, u0, l, u)
      decreases u - l
    {
      ghost var s, l1, u1 := a[..], l, u;
      var done, m;
      ok, done, m := SplitAt(a, o, l, u);
      Advance(o.less, old(a[..]), s, a[..], l, u, l0, u0);
      if !ok {
        return;
      }
      if done {
        if StrictWeak(o.less) {
          AllOrdered(o.less, a[..], l0, u0, l, u);
        }
        return;
      }
      var i, j;
      if m - l < u - m {
        j, i, l := l, m - 1, m + 1;
      } else {
        j, i, u := m + 1, u, m - 1;
      }
      s := a[..];
      ghost var n;
      ok, n := AuxSort(a, o, j, i);
      Advance(o.less, old(a[..]), s, a[..], j, i, l0, u0);
      NestStep(n, i - j + 1, u1 - l1 + 1);
      nest := if n + 1 > nest then n + 1 else nest;
      if !ok {
        return;
      }
      if StrictWeak(o.less) {
        AfterPart(o.less, s, a[..], l0, u0, l1, m, u1, j, i, l, u);
      }
    }
    if StrictWeak(o.less) {
      AllOrdered(o.less, a[..], l0, u0, l, u);
    }
  }

  lemma {:induction false} NoNest()
    ensures Exp2(0) == 1
  {
  }

  /** table.sort on the whole table. */
  method TableSort<T(!new)>(a: array<T>, o: Order<T>) returns (ok: bool, ghost nest: nat)
    modifies a, o
    ensures multiset(a[..]) == multiset(old(a[..]))
    ensures Exp2(nest) <= Max(1, a.Length)
    ensures StrictWeak(o.less) ==> ok && Sorted(o.less, a[..], 0, a.Length - 1)
  {
    hide Rearranged;
    ok, nest := AuxSort(a, o, 0, a.Length - 1);
    Whole(old(a[..]), a[..], 0, a.Length - 1);
  }
}
