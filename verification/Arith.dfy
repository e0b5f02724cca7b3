/** Products, and division with remainder. */
module Arith {
  function Least(a: int, b: int): int {
    if a < b then a else b
  }

  lemma ModUnique(x: int, n: int, q: int, r: int)
    requires 0 <= r < n && x == q * n + r
    ensures x / n == q && x % n == r
  {
    var d := q - x / n;
    assert d * n == x % n - r by {
      assert x == x / n * n + x % n;
      assert (q - x / n) * n == q * n - x / n * n;
    }
    Multiple(d, n);
  }

  lemma Multiple(d: int, n: int)
    requires n > 0
    ensures (d > 0 ==> d * n >= n) && (d < 0 ==> d * n <= -n)
  {
  }

  lemma DivBound(a: int, b: int, c: int)
    requires b > 0 && 0 <= a <= c * b
    ensures 0 <= a / b <= c
  {
    assert a == a / b * b + a % b;
    var d := a / b - c;
    assert d * b == a / b * b - c * b;
    Multiple(d, b);
    Multiple(a / b, b);
  }

  lemma MulMonotone(a: int, b: int, c: int)
    requires a <= b && c >= 0
    ensures a * c <= b * c && (0 <= a ==> 0 <= a * c) && a * c == c * a && b * c == c * b
  {
  }

  lemma DivMonotone(a: int, b: int, n: int)
    requires n > 0 && a <= b
    ensures a / n <= b / n
  {
    assert a == a / n * n + a % n;
    assert b == b / n * n + b % n;
    var d := a / n - b / n;
    assert d * n == a / n * n - b / n * n;
    Multiple(d, n);
  }

  lemma Distribute(a: int, b: int, d: int)
    ensures (a + b) * d == a * d + b * d
  {
  }

  lemma Associate(a: int, b: int, c: int)
    ensures (a * b) * c == a * (b * c)
  {
  }

  lemma MulCancel(a: int, b: int, d: int)
    requires d > 0 && a * d < b * d
    ensures a < b
  {
    if b <= a {
      MulMonotone(b, a, d);
    }
  }
}
