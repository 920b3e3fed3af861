/** Facts about Swift's integer `/` and `%` on non-negative operands, where
    they agree with Dafny's. */
module Arith {

  /** Used by the division lemmas below to rule out a wrong quotient. */
  lemma MulNonneg(x: int, y: int)
    requires x >= 0 && y >= 0
    ensures x * y >= 0
  {
  }

  /** Dividing by the same positive number keeps the order. */
  lemma DivMonotone(a: nat, b: nat, n: nat)
    requires n > 0 && a <= b
    ensures a / n <= b / n
  {
    var qa, qb := a / n, b / n;
    assert a == n * qa + a % n;
    assert b == n * qb + b % n;
    if qa > qb {
      MulNonneg(n, qa - qb - 1);
      assert false;
    }
  }

  /** The quotient and remainder are determined by `a == q * n + r`. */
  lemma DivModUnique(a: nat, n: nat, q: nat, r: nat)
    requires n > 0 && r < n && a == q * n + r
    ensures a / n == q && a % n == r
  {
    var q', r' := a / n, a % n;
    assert a == q' * n + r';
    if q' > q {
      MulNonneg(q' - q - 1, n);
      assert false;
    } else if q' < q {
      MulNonneg(q - q' - 1, n);
      assert false;
    }
  }

  /** A number below `q` multiples of `n` has a quotient below `q`. */
  lemma DivBelow(a: nat, n: nat, q: nat)
    requires n > 0 && a < q * n
    ensures a / n < q
  {
    var d := a / n;
    assert a == d * n + a % n;
    if d >= q {
      MulNonneg(d - q, n);
      assert false;
    }
  }

  /** A non-negative number has a non-negative quotient. */
  lemma DivNonneg(a: nat, n: nat)
    requires n > 0
    ensures a / n >= 0
  {
    var d := a / n;
    assert a == d * n + a % n;
    if d < 0 {
      MulNonneg(-d - 1, n);
      assert false;
    }
  }

  /** Used by the run-offset proofs in `Runs` and by
      `WriteService.PercentRoundsDown`. */
  lemma MulSucc(k: int, n: int)
    ensures (k + 1) * n == k * n + n
  {
  }
}
