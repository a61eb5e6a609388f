/** Numbers and units that several components share, and products and quotients of variables. */
module Arithmetic {
  const U32_MAX := 0xFFFF_FFFF

  /** One second, in nanoseconds. */
  const SECOND := 1_000_000_000

  function Min(a: nat, b: nat): nat {
    if a < b then a else b
  }

  /** The quotient and remainder of a division are determined by their equation. */
  lemma DivisionUnique(x: nat, q: nat, r: nat, n: nat)
    requires 0 < n && x == q * n + r && r < n
    ensures x / n == q && x % n == r
  {
    var p := x / n;
    assert x == p * n + x % n;
    if p < q {
      MulMonotone(p + 1, q, n);
    } else if q < p {
      MulMonotone(q + 1, p, n);
    }
  }

  lemma MulMonotone(a: nat, b: nat, n: nat)
    requires a <= b
    ensures a * n <= b * n
  {
    assert b * n == a * n + (b - a) * n;
  }

  /** How many times `n` goes into `x`, without a division. */
  function Times(x: nat, n: nat): nat
    requires 0 < n
  {
    if x < n then 0 else 1 + Times(x - n, n)
  }

  lemma {:induction false} TimesIsDivision(x: nat, n: nat)
    requires 0 < n
    ensures Times(x, n) == x / n
  {
    if x < n {
      DivisionUnique(x, 0, x, n);
    } else {
      TimesIsDivision(x - n, n);
      var q := (x - n) / n;
      assert x - n == q * n + (x - n) % n;
      assert (q + 1) * n == q * n + n;
      DivisionUnique(x, q + 1, (x - n) % n, n);
    }
  }

  /** `n` times `x`, without a multiplication. */
  function Multiple(x: nat, n: nat): nat {
    if n == 0 then 0 else Multiple(x, n - 1) + x
  }

  lemma {:induction false} MultipleIsProduct(x: nat, n: nat)
    ensures Multiple(x, n) == n * x
  {
    if n > 0 {
      MultipleIsProduct(x, n - 1);
      assert n * x == (n - 1) * x + x;
    }
  }

  lemma {:induction false} MultipleGrows(x: nat, m: nat, n: nat)
    requires m <= n
    ensures Multiple(x, m) <= Multiple(x, n)
  {
    if m < n {
      MultipleGrows(x, m, n - 1);
    }
  }

  lemma {:induction false} MultipleMonotone(x: nat, y: nat, n: nat)
    requires x <= y
    ensures Multiple(x, n) <= Multiple(y, n)
  {
    if n > 0 {
      MultipleMonotone(x, y, n - 1);
    }
  }

  /** A quotient that is rounded up exceeds `k` exactly when `k` times the divisor is not enough. */
  lemma {:induction false} RoundedUp(x: nat, n: nat, k: nat)
    requires 0 < n
    ensures k < Times(x + n - 1, n) <==> Multiple(n, k) < x
  {
    if k > 0 {
      if x >= n {
        RoundedUp(x - n, n, k - 1);
      } else {
        MultipleGrows(n, 1, k);
      }
    }
  }
}
