/** Arithmetic modulo the group order, proved from the definition of a prime number. */
module Modular {

  ghost predicate Divides(d: int, n: int)
    requires d > 0
  {
    n % d == 0
  }

  ghost predicate Prime(n: int) {
    n > 1 && forall d :: 1 < d < n ==> !Divides(d, n)
  }

  /** Division with remainder is unique: stated without `/` and `%`. */
  lemma UniqueQuotient(q: int, r: int, k: int, s: int, n: int)
    requires q * n + r == k * n + s && 0 <= r < n && 0 <= s < n
    ensures r == s
  {
    assert (q - k) * n == s - r;
    AtLeastOneMultiple(q - k, n);
    AtLeastOneMultiple(k - q, n);
  }

  lemma AtLeastOneMultiple(d: int, n: int)
    requires n > 0
    ensures d > 0 ==> d * n >= n
  {
  }

  lemma DivMod(x: int, n: int)
    requires n > 0
    ensures x == x / n * n + x % n && 0 <= x % n < n
  {
  }

  lemma UniqueRemainder(y: int, q: int, r: int, n: int)
    requires n > 0 && y == q * n + r && 0 <= r < n
    ensures y % n == r
  {
    DivMod(y, n);
    UniqueQuotient(y / n, y % n, q, r, n);
  }

  lemma AddMultiple(x: int, k: int, n: int)
    requires n > 0
    ensures (x + k * n) % n == x % n
  {
    assert x + k * n == (x / n + k) * n + x % n by {
      assert x == x / n * n + x % n;
      assert (x / n + k) * n == x / n * n + k * n;
    }
    UniqueRemainder(x + k * n, x / n + k, x % n, n);
  }

  /** Two integers have the same residue exactly when their difference is a multiple of n. */
  lemma SameResidue(x: int, y: int, n: int)
    requires n > 0
    ensures x % n == y % n <==> (x - y) % n == 0
  {
    DivMod(x - y, n);
    if (x - y) % n == 0 {
      AddMultiple(y, (x - y) / n, n);
    }
    if x % n == y % n {
      DivMod(x, n);
      DivMod(y, n);
      assert x - y == (x / n - y / n) * n + 0;
      UniqueRemainder(x - y, x / n - y / n, 0, n);
    }
  }

  lemma ModAdd(x: int, y: int, n: int)
    requires n > 0
    ensures (x % n + y) % n == (x + y) % n
    ensures (x + y % n) % n == (x + y) % n
  {
    DivMod(x, n);
    DivMod(y, n);
    AddMultiple(x % n + y, x / n, n);
    AddMultiple(x + y % n, y / n, n);
  }

  lemma ModMul(x: int, y: int, n: int)
    requires n > 0
    ensures (x % n * y) % n == (x * y) % n
    ensures (x * (y % n)) % n == (x * y) % n
  {
    AddMultiple(x % n * y, x / n * y, n);
    AddMultiple(x * (y % n), y / n * x, n);
    assert x * y == x % n * y + x / n * y * n by {
      assert x == x % n + x / n * n;
      assert x * y == (x % n + x / n * n) * y;
      assert x / n * n * y == x / n * y * n;
    }
    assert x * y == x * (y % n) + y / n * x * n by {
      assert y == y % n + y / n * n;
      assert x * y == x * (y % n + y / n * n);
      assert x * (y / n * n) == y / n * x * n;
    }
  }

  lemma ZeroTimes(x: int, y: int, n: int)
    requires n > 0 && x % n == 0
    ensures (x * y) % n == 0
  {
    ModMul(x, y, n);
  }

  lemma SubResidues(x: int, y: int, x': int, y': int, n: int)
    requires n > 0 && x % n == x' % n && y % n == y' % n
    ensures (x - y) % n == (x' - y') % n
  {
    var k, l := x / n - x' / n, y / n - y' / n;
    DivMod(x, n);
    DivMod(x', n);
    DivMod(y, n);
    DivMod(y', n);
    assert x == x' + k * n && y == y' + l * n;
    assert x - y == (x' - y') + (k - l) * n;
    AddMultiple(x' - y', k - l, n);
  }

  lemma AddResidues(x: int, y: int, x': int, y': int, n: int)
    requires n > 0 && x % n == x' % n && y % n == y' % n
    ensures (x + y) % n == (x' + y') % n
  {
    ModAdd(x, y, n);
    ModAdd(x', y, n);
    ModAdd(x', y', n);
  }

  lemma MulResidues(x: int, y: int, x': int, y': int, n: int)
    requires n > 0 && x % n == x' % n && y % n == y' % n
    ensures (x * y) % n == (x' * y') % n
  {
    ModMul(x, y, n);
    ModMul(x', y, n);
    ModMul(x', y, n);
    ModMul(x', y', n);
  }

  lemma Reduced(x: int, n: int)
    requires n > 0
    ensures x % n % n == x % n
  {
    DivMod(x, n);
    UniqueRemainder(x % n, 0, x % n, n);
  }

  lemma DescentStep(a: int, b: int, q: int, r: int, n: int)
    requires n == q * a + r
    ensures r * b == a * b * -q + b * n
  {
    assert b * n == b * (q * a) + b * r;
    assert b * (q * a) == a * b * q;
  }

  /** Euclid's lemma for a reduced factor, by descent on that factor. */
  lemma {:induction false} EuclidReduced(a: int, b: int, n: int)
    requires Prime(n) && 0 < a < n && (a * b) % n == 0
    ensures b % n == 0
    decreases a
  {
    if a > 1 {
      var q, r := n / a, n % a;
      assert !Divides(a, n);
      DivMod(n, a);
      DescentStep(a, b, q, r, n);
      ZeroTimes(a * b, -q, n);
      AddMultiple(a * b * -q, b, n);
      EuclidReduced(r, b, n);
    }
  }

  /** Z_n has no zero divisors when n is prime. */
  lemma NoZeroDivisors(a: int, b: int, n: int)
    requires Prime(n)
    ensures (a * b) % n == 0 <==> a % n == 0 || b % n == 0
  {
    ModMul(a, b, n);
    if a % n != 0 && (a * b) % n == 0 {
      EuclidReduced(a % n, b, n);
    } else if b % n == 0 {
      ZeroTimes(b, a, n);
    }
  }
}
