/** Division with remainder and rounding up. */
module Arithmetic {
  lemma MulMono(p: nat, a: int, b: int)
    requires a <= b
    ensures p * a <= p * b
  {
  }

  lemma QuotientOrder(p: nat, a: int, s: nat, q: int, r: nat)
    requires p * a + s == p * q + r && s < p
    ensures a >= q
  {
    if a < q {
      assert p * (a + 1) == p * a + p;
      MulMono(p, a + 1, q);
    }
  }

  /** Quotient and remainder are the only pair with p * q + r == n and r < p. */
  lemma DivModUnique(p: nat, q: nat, r: nat)
    requires r < p
    ensures (p * q + r) / p == q && (p * q + r) % p == r
  {
    var n := p * q + r;
    DivModParts(n, p);
    QuotientOrder(p, n / p, n % p, q, r);
    QuotientOrder(p, q, r, n / p, n % p);
  }

  lemma DivModParts(n: nat, p: nat)
    requires p > 0
    ensures n == p * (n / p) + n % p && 0 <= n % p < p && n / p >= 0
  {
    if n / p < 0 { MulMono(p, n / p, -1); }
  }

  /** The macro CEIL_DIV. */
  function CeilDiv(a: nat, b: nat): nat
    requires b > 0
  {
    if a % b == 0 then a / b else a / b + 1
  }

  /** CeilDiv(a, b) is the least n with a <= b * n. */
  lemma CeilDivBounds(a: nat, b: nat)
    requires b > 0
    ensures a <= b * CeilDiv(a, b) < a + b
    ensures a > 0 ==> CeilDiv(a, b) > 0
  {
    DivModParts(a, b);
    assert b * (a / b + 1) == b * (a / b) + b;
  }

  lemma CeilDivLeast(a: nat, b: nat, n: nat)
    requires b > 0 && a <= b * n
    ensures CeilDiv(a, b) <= n
  {
    CeilDivBounds(a, b);
    var q := CeilDiv(a, b);
    if q > n {
      assert b * (n + 1) == b * n + b;
      MulMono(b, n + 1, q);
    }
  }

  lemma DivAtLeast(a: nat, b: nat, n: nat)
    requires b > 0 && b * n <= a
    ensures a / b >= n
  {
    DivModParts(a, b);
    if a / b < n {
      assert b * (a / b + 1) == b * (a / b) + b;
      MulMono(b, a / b + 1, n);
    }
  }

  lemma DivAtMost(a: nat, b: nat, n: nat)
    requires b > 0 && a < b * (n + 1)
    ensures a / b <= n
  {
    DivModParts(a, b);
    if a / b > n { MulMono(b, n + 1, a / b); }
  }

  lemma Regroup(a: int, b: int, c: int)
    ensures a * (b * c) == (a * b) * c
  {
  }

  lemma Distribute(a: int, b: int, c: int)
    ensures a * (b + c) == a * b + a * c
  {
  }
}
