/**
 Small facts of integer arithmetic about products, quotients and
 remainders that the solver does not find on its own.
 */
module Arith {

  /** `x * c <= y * c` when `x <= y`. */
  lemma MulRight(x: int, y: int, c: nat)
    requires x <= y
    ensures x * c <= y * c
  {
    assert y * c - x * c == (y - x) * c;
  }

  /** Quotient and remainder of an integer are unique. */
  lemma DivUnique(v: int, n: nat, d: int, r: int)
    requires n > 0 && 0 <= r < n && v == n * d + r
    ensures v / n == d && v % n == r
  {
    var d' := v / n;
    assert v == n * d' + v % n;
    if d' > d {
      MulRight(1, d' - d, n);
    } else if d' < d {
      MulRight(1, d - d', n);
    }
  }

  /** Adding a multiple of `n` does not change the remainder modulo `n`. */
  lemma ModAddMultipleOf(x: int, n: nat, k: int)
    requires n > 0
    ensures (x + n * k) % n == x % n
  {
    var d := x / n;
    var r := x % n;
    assert x + n * k == n * (d + k) + r;
    DivUnique(x + n * k, n, d + k, r);
  }

  /** Two successive divisions are one division by the product. */
  lemma DivDiv(v: nat, a: nat, b: nat)
    requires a > 0 && b > 0
    ensures (v / a) / b == v / (a * b)
  {
    var q1 := v / a;
    var q2 := q1 / b;
    var rest := a * (q1 % b) + v % a;
    assert v == a * q1 + v % a;
    assert q1 == b * q2 + q1 % b;
    assert v == (a * b) * q2 + rest by {
      assert a * q1 == a * (b * q2) + a * (q1 % b);
      assert a * (b * q2) == (a * b) * q2;
    }
    assert 0 <= rest < a * b by {
      MulRight(q1 % b, b - 1, a);
      assert (b - 1) * a == a * b - a;
      assert (q1 % b) * a == a * (q1 % b);
    }
    DivUnique(v, a * b, q2, rest);
  }

  /** Reducing the left factor first does not change a product modulo `n`. */
  lemma ModMulLeft(a: nat, b: nat, n: nat)
    requires n > 0
    ensures ((a % n) * b) % n == (a * b) % n
  {
    var hi := a / n;
    assert a * b == (a % n) * b + n * (hi * b) by {
      assert a == a % n + n * hi;
    }
    ModAddMultipleOf((a % n) * b, n, hi * b);
  }

  /** Reducing the right factor first does not change a product modulo `n`. */
  lemma ModMulRight(a: nat, b: nat, n: nat)
    requires n > 0
    ensures (a * (b % n)) % n == (a * b) % n
  {
    ModMulLeft(b, a, n);
    assert a * (b % n) == (b % n) * a;
  }

  /** Congruent summands give congruent sums modulo `n`. */
  lemma ModAddCongruent(x: int, y: int, y': int, n: nat)
    requires n > 0 && y % n == y' % n
    ensures (x + y) % n == (x + y') % n
  {
    var d := y / n - y' / n;
    assert y - y' == n * d;
    ModAddMultipleOf(x + y', n, d);
  }

  /** A product of two factors below `q` is below `q * q`. */
  lemma MulStrict(a: nat, b: nat, q: nat)
    requires a < q && b < q
    ensures a * b < q * q
  {
    MulRight(a, q, b);
    MulRight(b, q, q);
    assert q * b == b * q;
  }
}
