/**
 * Swift's integer remainder, and the facts about Dafny's Euclidean `%` that
 * the index arithmetic relies on.
 */
module SwiftInt {

  /**
   * Swift's `%` on `Int` for a positive divisor: the remainder of truncating
   * division, which takes the sign of the dividend (Dafny's own `%` is
   * Euclidean and never negative). The four properties determine it
   * uniquely.
   */
  function SwiftRemainder(a: int, b: int): (r: int)
    requires b > 0
    ensures -b < r < b
    ensures a >= 0 ==> r >= 0
    ensures a <= 0 ==> r <= 0
    ensures (a - r) % b == 0
  {
    if a >= 0 then
      ModUnique(a - a % b, b, a / b, 0);
      a % b
    else
      var q := (-a) / b;
      assert -a == b * q + (-a) % b;
      assert b * -q == -(b * q);
      ModUnique(a + (-a) % b, b, -q, 0);
      -((-a) % b)
  }

  /** On a non-negative dividend Swift's remainder agrees with Dafny's. */
  lemma SwiftRemainderOfNonNegative(a: int, b: int)
    requires a >= 0 && b > 0
    ensures SwiftRemainder(a, b) == a % b
  {
    var r := SwiftRemainder(a, b);
    ModCongruent(a, r, b);
    ModOfResidue(r, b);
  }

  /** On a negative dividend it is zero or negative: `-1 % 3 == -1`, not `2`. */
  lemma SwiftRemainderOfMinusOne(b: int)
    requires b > 1
    ensures SwiftRemainder(-1, b) == -1
  {
  }

  lemma MulAtLeast(n: int, d: int)
    requires n > 0 && d >= 1
    ensures n * d >= n
  {
    if d > 1 {
      MulAtLeast(n, d - 1);
      assert n * d == n * (d - 1) + n;
    }
  }

  /** Any quotient-remainder decomposition with `0 <= r < n` gives Dafny's `%`. */
  lemma ModUnique(x: int, n: int, q: int, r: int)
    requires n > 0 && 0 <= r < n && x == n * q + r
    ensures x % n == r
  {
    var q', r' := x / n, x % n;
    assert x == n * q' + r';
    assert n * (q - q') == n * q - n * q';
    if q > q' {
      MulAtLeast(n, q - q');
    } else if q < q' {
      MulAtLeast(n, q' - q);
    }
  }

  lemma ModOfResidue(r: int, n: int)
    requires 0 <= r < n
    ensures r % n == r
  {
    ModUnique(r, n, 0, r);
  }

  lemma ModShift(x: int, n: int)
    requires n > 0
    ensures (x + n) % n == x % n
  {
    var q := x / n;
    assert n * (q + 1) == n * q + n;
    ModUnique(x + n, n, q + 1, x % n);
  }

  lemma ModCongruent(x: int, y: int, n: int)
    requires n > 0 && (x - y) % n == 0
    ensures x % n == y % n
  {
    var k, q := (x - y) / n, y / n;
    assert x - y == n * k;
    assert n * (k + q) == n * k + n * q;
    ModUnique(x, n, k + q, y % n);
  }

  lemma ModSucc(x: int, n: int)
    requires n > 0
    ensures (x % n + 1) % n == (x + 1) % n
  {
    var q, r := x / n, x % n;
    assert x == n * q + r;
    if r + 1 < n {
      ModUnique(x + 1, n, q, r + 1);
      ModOfResidue(r + 1, n);
    } else {
      assert n * (q + 1) == n * q + n;
      ModUnique(x + 1, n, q + 1, 0);
      ModOfResidue(0, n);
    }
  }
}
