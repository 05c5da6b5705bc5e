/** Greatest common divisors, as Python's `math.gcd` computes them on
    non-negative integers, and their link with modular inverses. */
module GcdTheory {
  import opened ModArith

  /** Euclid's algorithm; on non-negative arguments this is `math.gcd`
      (in particular Gcd(0, n) == n). */
  function Gcd(x: nat, y: nat): nat
    decreases y
  {
    if y == 0 then x else Gcd(y, x % y)
  }

  /** d divides x. Zero divides only zero. */
  predicate Divides(d: nat, x: int)
  {
    if d == 0 then x == 0 else x % d == 0
  }

  lemma DividesSelf(x: nat)
    ensures Divides(x, x) && Divides(x, 0)
  {
    if x > 0 {
      ModUnique(x, x, 1, 0);
    }
  }

  lemma DividesLinear(d: nat, x: int, y: int, k: int)
    requires Divides(d, x) && Divides(d, y)
    ensures Divides(d, x + k * y)
  {
    if d > 0 {
      var qx, qy := x / d, y / d;
      assert x == d * qx;
      assert y == d * qy;
      assert k * y == d * (k * qy);
      ModUnique(x + k * y, d, qx + k * qy, 0);
    }
  }

  lemma DividesProduct(d: nat, x: int, k: int)
    requires Divides(d, x)
    ensures Divides(d, k * x)
  {
    DividesSelf(d);
    DividesLinear(d, 0, x, k);
  }

  /** A positive multiple of d is at least d. */
  lemma DividesBound(d: nat, x: int)
    requires Divides(d, x) && x > 0
    ensures 1 <= d <= x
  {
    assert x == d * (x / d);
    MulAtLeast(d, x / d);
  }

  /** Gcd(x, y) is a common divisor of x and y ... */
  lemma {:induction false} GcdDivides(x: nat, y: nat)
    ensures Divides(Gcd(x, y), x) && Divides(Gcd(x, y), y)
    decreases y
  {
    if y == 0 {
      DividesSelf(x);
    } else {
      var g := Gcd(y, x % y);
      GcdDivides(y, x % y);
      assert x == x % y + (x / y) * y;
      DividesLinear(g, x % y, y, x / y);
    }
  }

  /** ... and every common divisor of x and y divides it. */
  lemma {:induction false} GcdGreatest(x: nat, y: nat, d: nat)
    requires Divides(d, x) && Divides(d, y)
    ensures Divides(d, Gcd(x, y))
    decreases y
  {
    if y > 0 {
      assert x % y == x + (-(x / y)) * y;
      DividesLinear(d, x, y, -(x / y));
      GcdGreatest(y, x % y, d);
    }
  }

  lemma DividesAntisymmetric(a: nat, b: nat)
    requires Divides(a, b) && Divides(b, a)
    ensures a == b
  {
    if a > 0 && b > 0 {
      DividesBound(a, b);
      DividesBound(b, a);
    }
  }

  lemma GcdSymmetric(x: nat, y: nat)
    ensures Gcd(x, y) == Gcd(y, x)
  {
    GcdDivides(x, y);
    GcdDivides(y, x);
    GcdGreatest(x, y, Gcd(y, x));
    GcdGreatest(y, x, Gcd(x, y));
    DividesAntisymmetric(Gcd(x, y), Gcd(y, x));
  }

  lemma GcdPositive(x: nat, y: nat)
    requires x >= 1 || y >= 1
    ensures Gcd(x, y) >= 1
  {
    GcdDivides(x, y);
  }

  /** Anything with an inverse modulo n is coprime to n. */
  lemma InverseImpliesCoprime(x: nat, y: int, n: nat)
    requires n >= 1
    requires (x * y) % n == 1 % n
    ensures Gcd(x, n) == 1
  {
    var g := Gcd(x, n);
    GcdDivides(x, n);
    if n == 1 {
      assert x % 1 == 0;
      assert Gcd(x, 1) == Gcd(1, 0);
    } else {
      var p := x * y;
      var q := p / n;
      ModUnique(1, n, 0, 1);
      assert p == n * q + 1;
      DividesProduct(g, x, y);
      assert y * x == p;
      DividesLinear(g, p, n, -q);
      NegMul(q, n);
      assert p + (-q) * n == 1;
      DividesBound(g, 1);
    }
  }

  lemma NegMul(q: int, n: int)
    ensures (-q) * n == -(n * q)
  {
  }

  /** Trial division: no d with lo <= d and d*d <= n divides n. */
  predicate NoFactorFrom(n: nat, lo: nat)
    requires lo >= 2
    decreases n - lo
  {
    lo > n || lo * lo > n || (n % lo != 0 && NoFactorFrom(n, lo + 1))
  }

  lemma SquareMonotone(a: nat, b: nat)
    requires a <= b
    ensures a * a <= b * b
  {
    assert b * b - a * a == (b - a) * (b + a);
  }

  lemma {:induction false} NoFactorFromSound(n: nat, lo: nat, d: nat)
    requires lo >= 2 && NoFactorFrom(n, lo)
    requires lo <= d && d * d <= n
    ensures !Divides(d, n)
    decreases n - lo
  {
    SquareMonotone(lo, d);
    assert lo * lo <= n;
    assert lo <= lo * lo by {
      MulAtLeast(lo, lo);
    }
    if lo < d {
      NoFactorFromSound(n, lo + 1, d);
    }
  }

  /** A product with a non-negative left factor is positive only when the
      right factor is. */
  lemma PositiveFactor(a: int, b: int)
    requires a >= 0 && a * b > 0
    ensures b > 0
  {
  }

  /** The cofactor of a divisor above the square root lies below it. */
  lemma CofactorBelowRoot(n: nat, g: nat, e: nat)
    requires n == g * e && g < n && g * g > n
    ensures 2 <= e < g && e * e < n
  {
    MulSub(g, g, e);
    PositiveFactor(g, g - e);
    MulSub(g, e, 1);
    PositiveFactor(g, e - 1);
    MulSub(e, g, e);
    MulAtLeast(e, g - e);
    assert e * g == n;
  }

  /** If trial division up to the square root finds no factor of n, no
      2 <= g < n divides n. */
  lemma NoProperDivisor(n: nat, g: nat)
    requires n >= 2 && NoFactorFrom(n, 2)
    requires 2 <= g < n
    ensures !Divides(g, n)
  {
    if g * g <= n {
      NoFactorFromSound(n, 2, g);
    } else if Divides(g, n) {
      var e := n / g;
      assert n == g * e;
      CofactorBelowRoot(n, g, e);
      ModUnique(n, e, g, 0);
      NoFactorFromSound(n, 2, e);
    }
  }

  /** Hence every 1 <= a < n is coprime to n. */
  lemma CoprimeBelowPrime(n: nat, a: nat)
    requires n >= 2 && NoFactorFrom(n, 2)
    requires 1 <= a < n
    ensures Gcd(a, n) == 1
  {
    var g := Gcd(a, n);
    GcdDivides(a, n);
    DividesBound(g, a);
    if g >= 2 {
      NoProperDivisor(n, g);
    }
  }

  /** Trial division of 10007 by 50 .. 100, a few divisors at a time. */
  lemma NoFactor10007From50()
    ensures NoFactorFrom(10007, 50)
  {
    assert NoFactorFrom(10007, 98); assert NoFactorFrom(10007, 94); assert NoFactorFrom(10007, 90);
    assert NoFactorFrom(10007, 86); assert NoFactorFrom(10007, 82); assert NoFactorFrom(10007, 78);
    assert NoFactorFrom(10007, 74); assert NoFactorFrom(10007, 70); assert NoFactorFrom(10007, 66);
    assert NoFactorFrom(10007, 62); assert NoFactorFrom(10007, 58); assert NoFactorFrom(10007, 54);
  }

  /** 10007, the modulus of server1.py and server2.py, is prime: trial
      division by 2 .. 100. */
  lemma CoprimeTo10007(a: nat)
    requires 1 <= a < 10007
    ensures Gcd(a, 10007) == 1
  {
    NoFactor10007From50();
    assert NoFactorFrom(10007, 46); assert NoFactorFrom(10007, 42); assert NoFactorFrom(10007, 38);
    assert NoFactorFrom(10007, 34); assert NoFactorFrom(10007, 30); assert NoFactorFrom(10007, 26);
    assert NoFactorFrom(10007, 22); assert NoFactorFrom(10007, 18); assert NoFactorFrom(10007, 14);
    assert NoFactorFrom(10007, 10); assert NoFactorFrom(10007, 6); assert NoFactorFrom(10007, 2);
    CoprimeBelowPrime(10007, a);
  }
}
