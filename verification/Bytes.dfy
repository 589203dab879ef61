/** Bytes, and naturals as strings of bytes with the lowest first. */
module Bytes {
  import opened Arith

  type Byte = b: int | 0 <= b < 256

  /** 2^64 */
  const WIDE: int := 0x1_0000_0000_0000_0000

  function Zeros(n: nat): (s: seq<Byte>)
    ensures |s| == n && forall i | 0 <= i < n :: s[i] == 0
  {
    seq(n, _ => 0)
  }

  function Power256(n: nat): (p: nat)
    ensures p > 0
  {
    if n == 0 then 1 else 256 * Power256(n - 1)
  }

  /** The size low bytes of v, the lowest first. */
  function LowFirst(v: nat, size: nat): (s: seq<Byte>)
    ensures |s| == size
  {
    if size == 0 then [] else [v % 256] + LowFirst(v / 256, size - 1)
  }

  /** The natural whose low-first bytes are s. */
  function Natural(s: seq<Byte>): nat {
    if s == [] then 0 else s[0] + 256 * Natural(s[1..])
  }

  lemma {:induction false} NaturalBound(s: seq<Byte>)
    ensures Natural(s) < Power256(|s|)
  {
    if s == [] {
    } else {
      NaturalBound(s[1..]);
    }
  }

  lemma {:induction false} NaturalOfLowFirst(v: nat, size: nat)
    requires v < Power256(size)
    ensures Natural(LowFirst(v, size)) == v
  {
    if size == 0 {
    } else {
      NaturalOfLowFirst(v / 256, size - 1);
    }
  }

  function Signed(v: nat, size: nat): int {
    if 2 * v >= Power256(size) then v - Power256(size) else v
  }

  lemma {:induction false} Power8()
    ensures Power256(8) == WIDE
  {
    assert Power256(2) == 0x1_0000;
    assert Power256(4) == 0x1_0000_0000;
    assert Power256(6) == 0x1_0000_0000_0000;
  }

  lemma {:induction false} PowerGrows(m: nat, n: nat)
    requires m <= n
    ensures Power256(m) <= Power256(n)
  {
    if m >= n {
    } else {
      PowerGrows(m, n - 1);
    }
  }

  /** v without its i low bytes. */
  function Drop(v: nat, i: nat): nat {
    if i == 0 then v else Drop(v / 256, i - 1)
  }

  lemma {:induction false} DropNext(v: nat, i: nat)
    ensures Drop(v, i + 1) == Drop(v, i) / 256
  {
    if i == 0 {
    } else {
      DropNext(v / 256, i - 1);
    }
  }

  lemma {:induction false} LowFirstAt(v: nat, size: nat, k: nat)
    requires k < size
    ensures LowFirst(v, size)[k] == Drop(v, k) % 256
  {
    if k == 0 {
    } else {
      LowFirstAt(v / 256, size - 1, k - 1);
    }
  }

  lemma {:induction false} LowFirstOfNatural(s: seq<Byte>)
    ensures LowFirst(Natural(s), |s|) == s
  {
    if s == [] {
    } else {
      LowFirstOfNatural(s[1..]);
      assert (s[0] + 256 * Natural(s[1..])) / 256 == Natural(s[1..]);
    }
  }

  lemma {:induction false} NaturalAppend(s: seq<Byte>, t: seq<Byte>)
    ensures Natural(s + t) == Natural(s) + Power256(|s|) * Natural(t)
  {
    if s == [] {
      assert s + t == t;
    } else {
      assert (s + t)[1..] == s[1..] + t;
      NaturalAppend(s[1..], t);
      MulAssoc(256, Power256(|s| - 1), Natural(t));
    }
  }

  lemma {:induction false} PowerSum(m: nat, n: nat)
    ensures Power256(m + n) == Power256(m) * Power256(n)
  {
    if m == 0 {
    } else {
      PowerSum(m - 1, n);
      MulAssoc(256, Power256(m - 1), Power256(n));
    }
  }

  /** Bytes above the size do not show. */
  lemma {:induction false} HighLost(v: nat, m: nat, size: nat)
    ensures LowFirst(v + m * Power256(size), size) == LowFirst(v, size)
  {
    if size == 0 {
    } else {
      MulAssoc(m, 256, Power256(size - 1));
      MulAssoc(256, m, Power256(size - 1));
      var w := m * Power256(size - 1);
      assert v + m * Power256(size) == v + 256 * w;
      assert (v + 256 * w) / 256 == v / 256 + w && (v + 256 * w) % 256 == v % 256;
      HighLost(v / 256, m, size - 1);
    }
  }
}
