/** Integer facts about Python's `//` and `%` with a positive divisor, where
    they agree with Dafny's Euclidean division. */
module Arith {

  /** `c` and `j` are the quotient and remainder of `i` by `n`. */
  lemma DivMod(i: int, n: int, c: int, j: int)
    requires n >= 1 && 0 <= j < n && i == c * n + j
    ensures i / n == c && i % n == j
  {
    var q, r := i / n, i % n;
    assert i == q * n + r && 0 <= r < n;
    if q < c {
      MulLe(n, q + 1, c);
      assert false;
    } else if q > c {
      MulLe(n, c + 1, q);
      assert false;
    }
  }

  /** Euclidean division of `i` by `n`. */
  lemma Split(i: nat, n: nat) returns (c: nat, j: nat)
    requires n >= 1
    ensures i == c * n + j && j < n
  {
    c, j := i / n, i % n;
  }

  lemma MulLe(n: int, a: int, b: int)
    requires n >= 0 && a <= b
    ensures a * n <= b * n
  {
    assert b * n - a * n == (b - a) * n;
  }

  // Exact real arithmetic used by the scoring formulas, one step at a time.
  // The formulas are wrapped in predicates so that the solver matches them
  // as wholes instead of re-deriving the products.

  lemma CastMul(a: int, b: int)
    ensures (a * b) as real == a as real * b as real
  {
  }

  lemma MulNonneg(a: real, b: real)
    requires a >= 0.0 && b >= 0.0
    ensures a * b >= 0.0
  {
  }

  function Sq(x: real): (r: real)
    ensures r >= 0.0
  {
    x * x
  }

  lemma MulPositive(a: real, b: real)
    requires a > 0.0 && b > 0.0
    ensures a * b > 0.0
  {
  }

  /** The solver does not derive the sign of a square from the sign of its
      root directly, so the square is split into two distinct factors. */
  lemma SquareOfPositive(a: real)
    requires a > 0.0
    ensures Sq(a) > 0.0
  {
    var half := a / 2.0;
    MulPositive(a, half);
    assert Sq(a) == 2.0 * (a * half);
  }

  lemma SquarePositive(d: real)
    requires d != 0.0
    ensures Sq(d) > 0.0
  {
    if d > 0.0 {
      SquareOfPositive(d);
    } else {
      SquareOfPositive(-d);
      assert Sq(-d) == Sq(d);
    }
  }

  lemma DivSign(a: real, b: real)
    requires a >= 0.0 && b > 0.0
    ensures a / b >= 0.0 && (a / b == 0.0 <==> a == 0.0)
  {
  }

  /** `a` is the sum of squared deviations about `m` of `k` values whose sum
      is `s` and whose sum of squares is `q`, written out. */
  predicate Expanded(a: real, q: real, s: real, k: real, m: real)
  {
    a == q - 2.0 * m * s + k * m * m
  }

  lemma ExpandBase(a: real, q: real, s: real, k: real, m: real)
    requires a == 0.0 && q == 0.0 && s == 0.0 && k == 0.0
    ensures Expanded(a, q, s, k, m)
  {
  }

  /** One more value `x`, adding `(x - m)^2`. */
  lemma ExpandStep(a: real, q: real, s: real, k: real, x: real, m: real, a': real, q': real, s': real, k': real)
    requires Expanded(a, q, s, k, m)
    requires a' == a + Sq(x - m) && q' == q + x * x && s' == s + x && k' == k + 1.0
    ensures Expanded(a', q', s', k', m)
  {
  }

  /** `n * a == n * q - s^2`: the sum of squared deviations `a` about the mean
      of `n` integers, scaled back to integers. */
  predicate CentredForm(n: int, a: real, q: int, s: int)
  {
    n as real * a == (n * q - s * s) as real
  }

  /** The expansion evaluated at the mean `m = s / n`. */
  lemma AtMean(a: real, q: int, s: int, n: int, m: real)
    requires n >= 1 && m == s as real / n as real
    requires Expanded(a, q as real, s as real, n as real, m)
    ensures CentredForm(n, a, q, s)
  {
    var N, S, Q := n as real, s as real, q as real;
    assert N * m == S;
    assert N * (Q - 2.0 * m * S + N * m * m) == N * Q - S * S;
    CastMul(n, q);
    CastMul(s, s);
  }

  /** `n^2 * v == n * q - s^2`: the population variance `v` of `n` integers
      with sum `s` and sum of squares `q`, scaled back to integers. */
  predicate ScaledVariance(n: int, v: real, q: int, s: int)
  {
    (n * n) as real * v == (n * q - s * s) as real
  }

  /** Dividing by `n` once more: `n^2 * (a / n) == n * q - s^2`. */
  lemma CentredVariance(n: int, a: real, q: int, s: int, v: real)
    requires n >= 1 && CentredForm(n, a, q, s) && v == a / n as real
    ensures ScaledVariance(n, v, q, s)
  {
    CastMul(n, n);
    var N := n as real;
    assert N * N * (a / N) == N * a;
  }

  /** With `a >= 0`, the centred form gives `s^2 <= n * q`. */
  lemma CentredBound(n: int, a: real, q: int, s: int)
    requires n >= 1 && CentredForm(n, a, q, s) && a >= 0.0
    ensures s * s <= n * q
  {
    MulNonneg(n as real, a);
  }
}
