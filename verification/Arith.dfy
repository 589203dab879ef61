/** Powers and the few facts about products and quotients that the number modules share. */
module Arith {

  function Pow(b: nat, e: nat): (p: nat)
    ensures b > 0 ==> p > 0
  {
    if e == 0 then 1 else if b == 0 then 0 else MulPositive(b, Pow(b, e - 1)); b * Pow(b, e - 1)
  }

  function Exp2(e: nat): (p: nat)
    ensures p > 0
  {
    if e == 0 then 1 else 2 * Exp2(e - 1)
  }

  lemma {:induction false} Exp2Add(m: nat, n: nat)
    ensures Exp2(m + n) == Exp2(m) * Exp2(n)
  {
    if m == 0 {
    } else {
      Exp2Add(m - 1, n);
      MulAssoc(2, Exp2(m - 1), Exp2(n));
    }
  }

  lemma {:induction false} Exp2IsPow(e: nat)
    ensures Exp2(e) == Pow(2, e)
  {
    if e == 0 {
    } else {
      Exp2IsPow(e - 1);
    }
  }

  lemma {:induction false} Exp2Monotone(m: nat, n: nat)
    requires m <= n
    ensures Exp2(m) <= Exp2(n)
  {
    if m == n {
    } else {
      Exp2Monotone(m, n - 1);
    }
  }

  function Max(a: int, b: int): int {
    if a < b then b else a
  }

  function Min(a: int, b: int): int {
    if a < b then a else b
  }

  lemma {:induction false} PowAdd(b: nat, m: nat, n: nat)
    ensures Pow(b, m + n) == Pow(b, m) * Pow(b, n)
  {
    if m == 0 {
    } else {
      PowAdd(b, m - 1, n);
      MulAssoc(b, Pow(b, m - 1), Pow(b, n));
    }
  }

  lemma {:induction false} PowProduct(a: nat, b: nat, e: nat)
    ensures Pow(a * b, e) == Pow(a, e) * Pow(b, e)
  {
    if e == 0 {
    } else {
      PowProduct(a, b, e - 1);
      var x, y := Pow(a, e - 1), Pow(b, e - 1);
      assert (a * b) * (x * y) == (a * x) * (b * y) by {
        MulAssoc(a, b, x * y);
        MulAssoc(b, x, y);
        MulAssoc(x, b, y);
        MulAssoc(a, x, b * y);
      }
    }
  }

  lemma {:induction false} PowMonotone(b: nat, m: nat, n: nat)
    requires b > 0 && m <= n
    ensures Pow(b, m) <= Pow(b, n)
  {
    PowAdd(b, m, n - m);
    MulMonotone(1, Pow(b, n - m), Pow(b, m));
  }

  lemma {:induction false} PowSquare(b: nat, e: nat)
    ensures Pow(b * b, e) == Pow(b, 2 * e)
  {
    PowProduct(b, b, e);
    PowAdd(b, e, e);
  }

  lemma {:induction false} MulAssoc(a: int, b: int, c: int)
    ensures a * (b * c) == (a * b) * c
  {
  }

  lemma {:induction false} TenFirst(a: int, b: int)
    ensures a * (10 * b) == 10 * (a * b)
  {
  }

  lemma {:induction false} MulEqual(a: int, b: int, c: int)
    requires c > 0 && a * c == b * c
    ensures a == b
  {
    if a < b {
      MulStrict(a, b, c);
    } else if b < a {
      MulStrict(b, a, c);
    }
  }

  lemma {:induction false} MulPositive(a: int, b: int)
    requires a > 0 && b > 0
    ensures a * b > 0
  {
  }

  lemma {:induction false} MulNonnegative(a: int, b: int)
    requires a >= 0 && b >= 0
    ensures a * b >= 0
  {
  }

  lemma {:induction false} MulMonotone(a: int, b: int, c: int)
    requires a <= b && 0 <= c
    ensures a * c <= b * c
  {
  }

  lemma {:induction false} MulStrict(a: int, b: int, c: int)
    requires a < b && 0 < c
    ensures a * c < b * c
  {
  }

  lemma {:induction false} MulCancel(a: int, b: int, c: int)
    requires 0 < c && a * c < b * c
    ensures a < b
  {
    if b <= a {
      MulMonotone(b, a, c);
    }
  }

  /** Quotient and remainder are determined by the division equation. */
  lemma {:induction false} DivModUnique(n: int, d: int, q: int, r: int)
    requires 0 < d && n == q * d + r && 0 <= r < d
    ensures n / d == q && n % d == r
  {
    var q', r' := n / d, n % d;
    assert (q - q') * d == r' - r;
    if q > q' {
      MulMonotone(1, q - q', d);
    } else if q < q' {
      MulMonotone(q - q', -1, d);
    }
  }
}
