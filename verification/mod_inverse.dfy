/** The extended-Euclid `mod_inverse` of avispa.py:5-16 (copied verbatim as
    key.py:6-18).

    `Loop` is the while loop as a recursive function over the loop state and
    is the definition the rest of the model uses; `ModInverseIter` is the same
    loop written as a Dafny while loop and is proved to compute the same
    result. Both take a >= 0 and N >= 1, which every caller in the scripts
    guarantees, so the remainders stay non-negative and Python's `//` is
    Dafny's `/`. */
module ExtEuclid {
  import opened Results
  import opened ModArith
  import opened GcdTheory

  /** The loop variables of avispa.py:6-7. */
  datatype State = State(t: int, newt: int, r: nat, newr: nat)

  function Abs(x: int): nat
  {
    if x < 0 then -x else x
  }

  function Start(a: nat, n: nat): State
  {
    State(0, 1, n, a)
  }

  /** One iteration of the loop body (avispa.py:9-11). */
  function Step(s: State): State
    requires s.newr != 0
  {
    var q := s.r / s.newr;
    State(s.newt, s.t - q * s.newt, s.newr, s.r - q * s.newr)
  }

  /** What the loop keeps true:
      - Bezout: r == t*a and newr == newt*a modulo n;
      - gcd(r, newr) never changes, so r ends as gcd(n, a);
      - the coefficients alternate in sign and |t|*newr + |newt|*r == n;
      - after the first iteration the remainders strictly decrease;
      - |t|*r stays below n apart from two shapes the first iterations can
        pass through; this is what keeps the returned value below n. */
  ghost predicate Inv(a: nat, n: nat, s: State)
  {
    && n >= 1
    && Divides(n, s.r - s.t * a)
    && Divides(n, s.newr - s.newt * a)
    && Gcd(s.r, s.newr) == Gcd(n, a)
    && s.t * s.newt <= 0
    && Abs(s.t) * s.newr + Abs(s.newt) * s.r == n
    && (s.newr < s.r || (s.t == 0 && s.newt == 1 && s.r == n))
    && (Abs(s.t) * s.r < n || (s.t == 1 && s.r == n) || (s.t == 1 && s.newt == 0 && s.newr == n))
  }

  lemma StartInv(a: nat, n: nat)
    requires n >= 1
    ensures Inv(a, n, Start(a, n))
  {
    DividesSelf(n);
    assert n - 0 * a == n;
  }

  /** The step keeps the remainder of `r // newr` in newr. */
  lemma StepRemainder(s: State)
    requires s.newr != 0
    ensures Step(s).newr == s.r % s.newr && Step(s).newr < s.newr
    ensures Gcd(Step(s).r, Step(s).newr) == Gcd(s.r, s.newr)
  {
  }

  lemma BezoutIdentity(r: int, newr: int, t: int, newt: int, q: int, a: int)
    ensures (r - q * newr) - (t - q * newt) * a == (r - t * a) + (-q) * (newr - newt * a)
  {
  }

  lemma StepBezout(a: nat, n: nat, s: State)
    requires s.newr != 0
    requires Divides(n, s.r - s.t * a) && Divides(n, s.newr - s.newt * a)
    ensures Divides(n, Step(s).newr - Step(s).newt * a)
  {
    var q := s.r / s.newr;
    var next := Step(s);
    assert next.newr == s.r - q * s.newr && next.newt == s.t - q * s.newt;
    BezoutIdentity(s.r, s.newr, s.t, s.newt, q, a);
    DividesLinear(n, s.r - s.t * a, s.newr - s.newt * a, -q);
  }

  /** With t and newt of opposite signs, t - q*newt moves away from zero. */
  lemma AbsAlternating(t: int, newt: int, q: nat)
    requires t * newt <= 0
    ensures Abs(t - q * newt) == Abs(t) + q * Abs(newt)
    ensures newt * (t - q * newt) <= 0
  {
    assert q * (newt * newt) >= 0;
    assert newt * (t - q * newt) == t * newt - q * (newt * newt);
    if newt > 0 {
      assert t <= 0;
    } else if newt < 0 {
      assert t >= 0;
    }
  }

  lemma SizeIdentity(at: int, an: int, r: int, newr: int, q: int)
    ensures an * (r - q * newr) + (at + q * an) * newr == an * r + at * newr
  {
  }

  lemma StepSize(n: nat, s: State)
    requires s.newr != 0
    requires s.t * s.newt <= 0
    requires Abs(s.t) * s.newr + Abs(s.newt) * s.r == n
    ensures Step(s).t * Step(s).newt <= 0
    ensures Abs(Step(s).t) * Step(s).newr + Abs(Step(s).newt) * Step(s).r == n
  {
    var q := s.r / s.newr;
    AbsAlternating(s.t, s.newt, q);
    SizeIdentity(Abs(s.t), Abs(s.newt), s.r, s.newr, q);
  }

  /** From |t|*newr + |newt|*r == n and newr < r: |newt|*newr < n. */
  lemma ProductBelow(at: nat, an: nat, r: nat, newr: nat, n: nat)
    requires at * newr + an * r == n && newr < r && n >= 1
    ensures an * newr < n
  {
    if an > 0 {
      assert an * r - an * newr == an * (r - newr);
      MulAtLeast(an, r - newr);
    }
  }

  lemma StepShape(a: nat, n: nat, s: State)
    requires s.newr != 0 && n >= 1
    requires Abs(s.t) * s.newr + Abs(s.newt) * s.r == n
    requires s.newr < s.r || (s.t == 0 && s.newt == 1 && s.r == n)
    ensures Step(s).newr < Step(s).r
    ensures Abs(Step(s).t) * Step(s).r < n || (Step(s).t == 1 && Step(s).r == n)
            || (Step(s).t == 1 && Step(s).newt == 0 && Step(s).newr == n)
  {
    StepRemainder(s);
    if s.newr < s.r {
      ProductBelow(Abs(s.t), Abs(s.newt), s.r, s.newr, n);
    } else if s.newr == n {
      ModUnique(s.r, s.newr, 1, 0);
    } else {
      ModUnique(s.r, s.newr, 0, s.r);
    }
  }

  lemma StepInv(a: nat, n: nat, s: State)
    requires Inv(a, n, s) && s.newr != 0
    ensures Inv(a, n, Step(s))
    ensures Step(s).newr < s.newr
  {
    StepRemainder(s);
    StepBezout(a, n, s);
    StepSize(n, s);
    StepShape(a, n, s);
  }

  /** The while loop of avispa.py:8-11, run to completion. */
  function Loop(a: nat, n: nat, s: State): (f: State)
    requires Inv(a, n, s)
    ensures Inv(a, n, f) && f.newr == 0
    decreases s.newr
  {
    if s.newr == 0 then s
    else
      StepInv(a, n, s);
      Loop(a, n, Step(s))
  }

  /** n divides 1 - x exactly when x is congruent to 1 modulo n. */
  lemma CongruentOne(x: int, n: nat)
    requires n >= 1 && Divides(n, 1 - x)
    ensures x % n == 1 % n
  {
    var k := (1 - x) / n;
    assert 1 - x == n * k;
    if n == 1 {
      ModUnique(x, 1, x, 0);
    } else {
      ModUnique(x, n, -k, 1);
    }
  }

  lemma FinalGcd(a: nat, n: nat, f: State)
    requires n >= 1 && f.newr == 0 && Gcd(f.r, f.newr) == Gcd(n, a)
    ensures f.r == Gcd(a, n) && f.r >= 1
  {
    GcdSymmetric(n, a);
    GcdPositive(n, a);
  }

  /** Lines 12-16 once the loop has left r == 1: t is an inverse of a, and
      adding n to a negative t lands in range. */
  lemma FinalInverse(a: nat, n: nat, t: int)
    requires n >= 1 && Divides(n, 1 - t * a)
    requires Abs(t) < n || (t == 1 && n == 1)
    ensures var v := if t < 0 then t + n else t;
      0 <= v <= n && (n >= 2 ==> v < n) && (a * v) % n == 1 % n
  {
    CongruentOne(t * a, n);
    assert a * t == t * a;
    if t < 0 {
      ModAddMultiple(a * t, a, n);
      assert a * (t + n) == a * t + n * a;
    }
  }

  /** What the finished loop tells the code after it: r is gcd(a, n), and
      when that is 1 the value returned is an inverse of a in range. */
  lemma FinalState(a: nat, n: nat, f: State)
    requires Inv(a, n, f) && f.newr == 0
    ensures f.r == Gcd(a, n) && f.r >= 1
    ensures f.r == 1 ==>
      var v := if f.t < 0 then f.t + n else f.t;
      0 <= v <= n && (n >= 2 ==> v < n) && (a * v) % n == 1 % n
  {
    FinalGcd(a, n, f);
    if f.r == 1 {
      assert Abs(f.t) * f.r == Abs(f.t);
      FinalInverse(a, n, f.t);
    }
  }

  /** Lines 6-11: the loop from its initial state to the end. */
  function Run(a: nat, n: nat): (f: State)
    requires n >= 1
    ensures f.r == Gcd(a, n) && f.r >= 1
    ensures f.r == 1 ==>
      var v := if f.t < 0 then f.t + n else f.t;
      0 <= v <= n && (n >= 2 ==> v < n) && (a * v) % n == 1 % n
  {
    StartInv(a, n);
    var f := Loop(a, n, Start(a, n));
    FinalState(a, n, f);
    f
  }

  /** avispa.py:5-16: the inverse of a modulo n, or NoInverse (the
      ValueError of line 13) exactly when a and n are not coprime. For
      n >= 2 the result lies in [0, n); for n == 1 it is 0 or 1. */
  function ModInverse(a: nat, n: nat): (res: Result<nat>)
    requires n >= 1
    ensures res.Ok? <==> Gcd(a, n) == 1
    ensures res.Err? ==> res.error == NoInverse
    ensures res.Ok? ==> (a * res.value) % n == 1 % n
    ensures res.Ok? ==> res.value <= n && (n >= 2 ==> res.value < n)
  {
    var f := Run(a, n);
    if f.r > 1 then Err(NoInverse)
    else Ok(if f.t < 0 then f.t + n else f.t)
  }

  /** The same loop as a while statement, line for line. */
  method ModInverseIter(a: nat, n: nat) returns (res: Result<nat>)
    requires n >= 1
    ensures res == ModInverse(a, n)
    ensures res.Ok? <==> Gcd(a, n) == 1
    ensures res.Ok? ==> (a * res.value) % n == 1 % n
  {
    var t, newt := 0, 1;
    var r: nat, newr: nat := n, a;
    StartInv(a, n);
    while newr != 0
      invariant Inv(a, n, State(t, newt, r, newr))
      invariant Loop(a, n, State(t, newt, r, newr)) == Run(a, n)
      decreases newr
    {
      StepInv(a, n, State(t, newt, r, newr));
      var quotient := r / newr;
      t, newt := newt, t - quotient * newt;
      r, newr := newr, r - quotient * newr;
    }
    FinalState(a, n, State(t, newt, r, newr));
    if r > 1 {
      return Err(NoInverse);
    }
    if t < 0 {
      t := t + n;
    }
    return Ok(t);
  }
}
