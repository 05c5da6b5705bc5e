/** Arithmetic modulo a positive integer, and integer powers.

    Python's `%` and `//` floor, Dafny's are Euclidean; the two agree whenever
    the divisor is positive, which is the only way the scripts use them, so a
    Python `x % N` with `N >= 1` is written `x % N` here. `pow(x, e, N)` with
    `e >= 0` and `N >= 1` is `Pow(x, e) % N`. */
module ModArith {

  /** x raised to the non-negative power e. */
  function Pow(x: int, e: nat): int
    decreases e
  {
    if e == 0 then 1 else x * Pow(x, e - 1)
  }

  lemma MulAssoc(x: int, y: int, z: int)
    ensures (x * y) * z == x * (y * z)
  {
  }

  lemma MulSquares(x: int, y: int)
    ensures (x * x) * (y * y) == (x * y) * (x * y)
  {
  }

  lemma MulAtLeast(d: int, k: int)
    requires d > 0 && k >= 1
    ensures d * k >= d
  {
    assert d * k == d + d * (k - 1);
  }

  /** Quotient and remainder are unique: any decomposition x == d*q + r with
      0 <= r < d is the one `/` and `%` compute. */
  lemma ModUnique(x: int, d: int, q: int, r: int)
    requires 0 <= r < d
    requires x == d * q + r
    ensures x % d == r && x / d == q
  {
    var q0, r0 := x / d, x % d;
    assert x == d * q0 + r0;
    var k := q - q0;
    assert d * k == r0 - r by {
      assert d * q - d * q0 == d * (q - q0);
    }
    if k >= 1 {
      MulAtLeast(d, k);
    } else if k <= -1 {
      MulAtLeast(d, -k);
    }
  }

  lemma MulAdd(d: int, a: int, b: int)
    ensures d * (a + b) == d * a + d * b
  {
  }

  lemma MulSub(d: int, a: int, b: int)
    ensures d * (a - b) == d * a - d * b
  {
  }

  lemma ModAddMultiple(x: int, k: int, d: int)
    requires d > 0
    ensures (x + d * k) % d == x % d
  {
    var q, r := x / d, x % d;
    assert x == d * q + r;
    MulAdd(d, q, k);
    ModUnique(x + d * k, d, q + k, r);
  }

  lemma ModAdd(x: int, y: int, d: int)
    requires d > 0
    ensures (x + y) % d == (x % d + y % d) % d
  {
    var qx, rx, qy, ry := x / d, x % d, y / d, y % d;
    assert x == d * qx + rx;
    assert y == d * qy + ry;
    MulAdd(d, qx, qy);
    assert x + y == (rx + ry) + d * (qx + qy);
    ModAddMultiple(rx + ry, qx + qy, d);
  }

  lemma ModMul(x: int, y: int, d: int)
    requires d > 0
    ensures (x * y) % d == ((x % d) * (y % d)) % d
  {
    var qx, rx, qy, ry := x / d, x % d, y / d, y % d;
    assert x == d * qx + rx;
    assert y == d * qy + ry;
    calc {
      x * y;
      (d * qx + rx) * y;
      d * qx * y + rx * y;
      d * qx * y + rx * (d * qy + ry);
      rx * ry + d * (qx * y + rx * qy);
    }
    ModAddMultiple(rx * ry, qx * y + rx * qy, d);
  }

  /** Reducing one factor of a product modulo d does not change the product modulo d. */
  lemma ModMulLeft(x: int, y: int, d: int)
    requires d > 0
    ensures ((x % d) * y) % d == (x * y) % d
  {
    var rx, ry := x % d, y % d;
    ModUnique(rx, d, 0, rx);
    ModMul(x, y, d);
    ModMul(rx, y, d);
    assert (rx * y) % d == (rx * ry) % d;
  }

  lemma ModMulRight(x: int, y: int, d: int)
    requires d > 0
    ensures (x * (y % d)) % d == (x * y) % d
  {
    ModMulLeft(y, x, d);
    assert x * (y % d) == (y % d) * x && x * y == y * x;
  }

  /** Congruence is preserved by multiplication on the right. */
  lemma CongMul(x: int, y: int, z: int, d: int)
    requires d > 0
    requires x % d == y % d
    ensures (x * z) % d == (y * z) % d
  {
    ModMulLeft(x, z, d);
    ModMulLeft(y, z, d);
  }

  /** Congruence is preserved by addition. */
  lemma CongAdd(x: int, y: int, u: int, v: int, d: int)
    requires d > 0
    requires x % d == y % d && u % d == v % d
    ensures (x + u) % d == (y + v) % d
  {
    ModAdd(x, u, d);
    ModAdd(y, v, d);
  }

  /** Multiplying by y undoes multiplying by x when x*y == 1 modulo d. */
  lemma CancelInverse(x: int, y: int, m: int, d: int)
    requires d > 0 && (x * y) % d == 1 % d
    ensures ((x * m) * y) % d == m % d
  {
    CongMul(x * y, 1, m, d);
    assert (x * m) * y == (x * y) * m;
  }

  lemma PowAdd(x: int, m: nat, n: nat)
    ensures Pow(x, m + n) == Pow(x, m) * Pow(x, n)
    decreases m
  {
    if m > 0 {
      PowAdd(x, m - 1, n);
      assert Pow(x, m + n) == x * Pow(x, m - 1 + n);
    }
  }

  lemma PowPow(x: int, m: nat, n: nat)
    ensures Pow(Pow(x, m), n) == Pow(x, m * n)
    decreases n
  {
    if n > 0 {
      PowPow(x, m, n - 1);
      assert m * n == m + m * (n - 1);
      PowAdd(x, m, m * (n - 1));
    }
  }

  /** pow(x, e, N) depends only on x modulo N. */
  lemma PowMod(x: int, e: nat, d: int)
    requires d > 0
    ensures Pow(x % d, e) % d == Pow(x, e) % d
    decreases e
  {
    if e > 0 {
      var rx := x % d;
      var p, q := Pow(rx, e - 1), Pow(x, e - 1);
      PowMod(x, e - 1, d);
      assert p % d == q % d;
      calc {
        Pow(rx, e) % d;
        (rx * p) % d;
        { ModMulLeft(x, p, d); }
        (x * p) % d;
        { CongMul(p, q, x, d); assert p * x == x * p && q * x == x * q; }
        (x * q) % d;
        Pow(x, e) % d;
      }
    }
  }

  lemma PowOne(e: nat)
    ensures Pow(1, e) == 1
    decreases e
  {
    if e > 0 {
      PowOne(e - 1);
    }
  }
}
