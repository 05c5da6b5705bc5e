/** The algebra shared by the scripts' signature scheme: the private tuple
    (a, b, r), the public value M == a⁻¹·b + r (mod N), the signature
    K == a⁻²·b·A·(a + a²·b⁻¹·r) (mod N), and the Diffie-Hellman-style
    session key (B^p + a) mod N. */
module Scheme {
  import opened ModArith
  import opened GcdTheory
  import opened Results
  import opened ExtEuclid

  /** The private tuple (a, b, r) of avispa.py:48 and server1.py:27. */
  datatype PrivateKey = PrivateKey(a: nat, b: nat, r: nat)

  /** m is the public value of `key` modulo n: m == a⁻¹·b + r, written
      without the inverse as a·m == b + a·r (mod n), with 0 <= m < n. */
  ghost predicate IsPublicM(n: nat, key: PrivateKey, m: int)
    requires n >= 1
  {
    0 <= m < n && (key.a * m) % n == (key.b + key.a * key.r) % n
  }

  /** a is invertible modulo n exactly when gcd(a, n) == 1. */
  lemma CoprimeIffInvertible(a: nat, n: nat)
    requires n >= 1
    ensures Gcd(a, n) == 1 <==> exists y: int :: (a * y) % n == 1 % n
  {
    if Gcd(a, n) == 1 {
      var y := ModInverse(a, n).value;
      assert (a * y) % n == 1 % n;
    }
    if exists y: int :: (a * y) % n == 1 % n {
      var y: int :| (a * y) % n == 1 % n;
      InverseImpliesCoprime(a, y, n);
    }
  }

  /** a·a is coprime to n exactly when a is: the condition under which
      `mod_inverse(a ** 2, N)` succeeds. */
  lemma CoprimeSquare(a: nat, n: nat)
    requires n >= 1
    ensures Gcd(a * a, n) == 1 <==> Gcd(a, n) == 1
  {
    if Gcd(a * a, n) == 1 {
      SquareCoprimeFactor(a, n);
    }
    if Gcd(a, n) == 1 {
      FactorCoprimeSquare(a, n);
    }
  }

  lemma SquareCoprimeFactor(a: nat, n: nat)
    requires n >= 1 && Gcd(a * a, n) == 1
    ensures Gcd(a, n) == 1
  {
    var y := ModInverse(a * a, n).value;
    MulAssoc(a, a, y);
    InverseImpliesCoprime(a, a * y, n);
  }

  lemma FactorCoprimeSquare(a: nat, n: nat)
    requires n >= 1 && Gcd(a, n) == 1
    ensures Gcd(a * a, n) == 1
  {
    var x := ModInverse(a, n).value;
    var ax := a * x;
    assert ax % n == 1 % n;
    CongMul(ax, 1, ax, n);
    assert 1 * ax == ax;
    MulSquares(a, x);
    assert ((a * a) * (x * x)) % n == 1 % n;
    InverseImpliesCoprime(a * a, x * x, n);
  }

  /** The public value computed from an inverse x of a, as check_safety
      (avispa.py:21-22) and generate_keys (server1.py:20-21) compute it. */
  function PublicValue(n: nat, key: PrivateKey, x: int): (m: nat)
    requires n >= 1 && (key.a * x) % n == 1 % n
    ensures IsPublicM(n, key, m)
  {
    var m := ((x * key.b) % n + key.r) % n;
    PublicValueCorrect(n, key, x);
    m
  }

  lemma PublicValueCorrect(n: nat, key: PrivateKey, x: int)
    requires n >= 1 && (key.a * x) % n == 1 % n
    ensures IsPublicM(n, key, ((x * key.b) % n + key.r) % n)
  {
    var a, b, r := key.a, key.b, key.r;
    var xb := (x * b) % n;
    var m := (xb + r) % n;
    calc {
      (a * m) % n;
      { ModMulRight(a, xb + r, n); }
      (a * (xb + r)) % n;
      { assert a * (xb + r) == a * xb + a * r; }
      (a * xb + a * r) % n;
      { ModMulRight(a, x * b, n);
        CongMul(a * x, 1, b, n);
        assert a * (x * b) == (a * x) * b;
        CongAdd(a * xb, b, a * r, a * r, n); }
      (b + a * r) % n;
    }
  }

  /** An invertible a fixes the public value: at most one m satisfies IsPublicM. */
  lemma PublicMUnique(n: nat, key: PrivateKey, m1: int, m2: int)
    requires n >= 1 && Gcd(key.a, n) == 1
    requires IsPublicM(n, key, m1) && IsPublicM(n, key, m2)
    ensures m1 == m2
  {
    var x := ModInverse(key.a, n).value;
    ModUnique(m1, n, 0, m1);
    ModUnique(m2, n, 0, m2);
    CongMul(key.a * m1, key.a * m2, x, n);
    CancelInverse(key.a, x, m1, n);
    CancelInverse(key.a, x, m2, n);
  }

  /** The signature of avispa.py:50-51 (also server1.py:28-29, key.py:36-37)
      for given inverses ib of b and ia2 of a**2:
      S = A*(a + a**2 * ib * r), K = (ia2 * b * S) % n. */
  function SignatureFormula(n: nat, key: PrivateKey, msg: int, ib: int, ia2: int): nat
    requires n >= 1
  {
    var s := msg * (key.a + key.a * key.a * ib * key.r);
    (ia2 * key.b * s) % n
  }

  lemma SignatureTimesSquare(n: nat, key: PrivateKey, msg: int, ib: int, ia2: int)
    requires n >= 1
    requires (key.b * ib) % n == 1 % n && ((key.a * key.a) * ia2) % n == 1 % n
    ensures ((key.a * key.a) * SignatureFormula(n, key, msg, ib, ia2)) % n
            == (msg * (key.a * key.b + (key.a * key.a) * key.r)) % n
  {
    var a, b, r := key.a, key.b, key.r;
    var a2 := a * a;
    var s := msg * (a + a * a * ib * r);
    var u := msg * a2 * r;
    calc {
      (a2 * SignatureFormula(n, key, msg, ib, ia2)) % n;
      { ModMulRight(a2, ia2 * b * s, n); }
      (a2 * (ia2 * b * s)) % n;
      { assert a2 * (ia2 * b * s) == (a2 * ia2) * (b * s); CongMul(a2 * ia2, 1, b * s, n); }
      (b * s) % n;
      { assert b * s == msg * a * b + (b * ib) * u; CongMul(b * ib, 1, u, n);
        CongAdd(msg * a * b, msg * a * b, (b * ib) * u, u, n); }
      (msg * a * b + u) % n;
      { assert msg * a * b + u == msg * (a * b + a2 * r); }
      (msg * (a * b + a2 * r)) % n;
    }
  }

  lemma PublicTimesSquare(n: nat, key: PrivateKey, msg: int, m: int)
    requires n >= 1 && IsPublicM(n, key, m)
    ensures ((key.a * key.a) * (msg * m)) % n == (msg * (key.a * key.b + (key.a * key.a) * key.r)) % n
  {
    var a, b, r := key.a, key.b, key.r;
    CongMul(a * m, b + a * r, msg * a, n);
    assert (a * a) * (msg * m) == (a * m) * (msg * a);
    assert (b + a * r) * (msg * a) == msg * (a * b + (a * a) * r);
  }

  /** The signature is the message times the public value: K == A·M (mod n),
      whatever inverses of b and a**2 it was computed with. */
  lemma SignatureIsMessageTimesPublic(n: nat, key: PrivateKey, msg: int, ib: int, ia2: int, m: int)
    requires n >= 1
    requires (key.b * ib) % n == 1 % n && ((key.a * key.a) * ia2) % n == 1 % n
    requires IsPublicM(n, key, m)
    ensures SignatureFormula(n, key, msg, ib, ia2) == (msg * m) % n
  {
    var a2 := key.a * key.a;
    var k := SignatureFormula(n, key, msg, ib, ia2);
    SignatureTimesSquare(n, key, msg, ib, ia2);
    PublicTimesSquare(n, key, msg, m);
    CongMul(a2 * k, a2 * (msg * m), ia2, n);
    CancelInverse(a2, ia2, k, n);
    CancelInverse(a2, ia2, msg * m, n);
    ModUnique(k, n, 0, k);
  }

  /** The session key (peer**e + own) % n that every script computes from
      the peer's public value (server2.py:21-23, key.py:72, server.py:48,
      client.py:42). */
  function SessionKey(n: nat, peer: int, e: nat, own: int): (k: nat)
    requires n >= 1
    ensures k < n
  {
    (Pow(peer, e) % n + own) % n
  }

  /** Session keys agree when the two bases are congruent:
      (B^p + a) == (A^q + c) (mod n) for A = a^p mod n, B = c^q mod n and
      a == c (mod n). The proof is direct; automatic induction is switched
      off because the hypothesis it would add only slows the solver. */
  lemma {:induction false} SessionKeysAgree(n: nat, a: int, p: nat, c: int, q: nat)
    requires n >= 1 && a % n == c % n
    ensures SessionKey(n, Pow(c, q) % n, p, a) == SessionKey(n, Pow(a, p) % n, q, c)
  {
    PowMod(Pow(c, q), p, n);
    PowPow(c, q, p);
    PowMod(Pow(a, p), q, n);
    PowPow(a, p, q);
    assert q * p == p * q;
    PowMod(c, p * q, n);
    PowMod(a, p * q, n);
    CongAdd(Pow(Pow(c, q) % n, p) % n, Pow(Pow(a, p) % n, q) % n, a, c, n);
  }
}
