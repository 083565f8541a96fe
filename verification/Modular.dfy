/** Arithmetic of remainders, stated for one instance at a time. */
module Modular {

  lemma ModUnique(x: int, q: int, r: int, m: int)
    requires m > 0 && x == q * m + r && 0 <= r < m
    ensures x % m == r && x / m == q
  {
    var d := x / m - q;
    assert x == x / m * m + x % m;
    assert d * m == r - x % m by { assert d * m == x / m * m - q * m; }
    if d >= 1 {
      MulAtLeast(d, m);
    } else if d <= -1 {
      MulAtLeast(-d, m);
    }
  }

  lemma MulAtLeast(d: int, m: int)
    requires d >= 1 && m > 0
    ensures d * m >= m
  {
  }

  lemma ModShift(x: int, k: int, m: int)
    requires m > 0
    ensures (x + k * m) % m == x % m
  {
    var q := x / m;
    assert (x + k * m) == (q + k) * m + x % m by { assert (q + k) * m == q * m + k * m; }
    ModUnique(x + k * m, q + k, x % m, m);
  }

  lemma ModSum(a: int, b: int, m: int)
    requires m > 0
    ensures (a % m + b % m) % m == (a + b) % m
    ensures (a + b % m) % m == (a + b) % m
    ensures (a % m + b) % m == (a + b) % m
  {
    ModShift(a % m + b % m, a / m + b / m, m);
    ModShift(a + b % m, b / m, m);
    ModShift(a % m + b, a / m, m);
    assert a == a / m * m + a % m && b == b / m * m + b % m;
    assert (a / m + b / m) * m == a / m * m + b / m * m;
  }
}
