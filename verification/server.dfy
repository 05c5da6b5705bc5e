/** server.py: a pow-based signature over a random modulus, checked by
    recomputing it. The random draws (b, N, a, p) are parameters and the
    socket traffic is reduced to the strings sent and received. */
module Server {
  import opened Results
  import opened ModArith
  import opened Scheme
  import opened Wire

  /** calculate_signature (lines 5-6): A**b % N, in [0, N). */
  function CalculateSignature(bigA: int, b: nat, n: nat): (s: nat)
    requires n >= 1
    ensures s < n
  {
    Pow(bigA, b) % n
  }

  /** The check of line 44: recompute Bob's signature and compare. */
  predicate Verifies(bigB: int, signature: int, b: nat, n: nat)
    requires n >= 1
  {
    CalculateSignature(bigB, b, n) == signature
  }

  /** Verification accepts exactly the signature B**b % N: an honest
      signature always verifies and any value outside [0, N) never does. */
  lemma VerifiesExactly(bigB: int, signature: int, b: nat, n: nat)
    requires n >= 1
    ensures Verifies(bigB, signature, b, n) <==> signature == Pow(bigB, b) % n
    ensures Verifies(bigB, CalculateSignature(bigB, b, n), b, n)
    ensures (signature < 0 || signature >= n) ==> !Verifies(bigB, signature, b, n)
  {
  }

  /** The signature depends on B only modulo N. */
  lemma SignatureModulo(bigB: int, b: nat, n: nat)
    requires n >= 1
    ensures CalculateSignature(bigB % n, b, n) == CalculateSignature(bigB, b, n)
  {
    PowMod(bigB, b, n);
  }

  /** Alice's secrets and public values (lines 9-18). */
  datatype Alice = Alice(b: nat, n: nat, a: nat, p: nat, bigA: nat, signature: nat)

  /** Lines 13-18 for the drawn b, N, a and p: A = a**p % N and its signature
      A**b % N, both in [0, N). */
  function AliceSetup(b: nat, n: nat, a: nat, p: nat): (alice: Alice)
    requires n >= 2 && 1 <= a <= n - 1 && 1 <= p <= n - 1
    ensures alice.bigA < n && alice.signature < n
    ensures alice.bigA == Pow(a, p) % n
    ensures Verifies(alice.bigA, alice.signature, b, n)
  {
    var bigA := Pow(a, p) % n;
    Alice(b, n, a, p, bigA, CalculateSignature(bigA, b, n))
  }

  /** The message to Bob, "{A},{signature_A},{b},{N}" (line 32). */
  function MessageToBob(alice: Alice): string
  {
    Encode([alice.bigA, alice.signature, alice.b, alice.n])
  }

  /** The message splits back into A, signature_A, b and N in that order,
      the four fields client.py reads at lines 23-24. */
  lemma MessageToBobRoundTrip(alice: Alice)
    ensures Decode(MessageToBob(alice), 4) == Ok([alice.bigA, alice.signature, alice.b, alice.n])
  {
    DecodeEncode([alice.bigA, alice.signature, alice.b, alice.n]);
  }

  /** How the exchange ends for Alice (lines 37-51). */
  datatype Outcome =
    | Unparsable                   // the ValueError of lines 38-40
    | SignatureRejected            // line 51
    | Established(ka: nat)         // line 48

  /** Lines 37-51: parse "B,signature_B", verify, and compute
      KA = (B**p + a) % N. */
  function AliceReceive(alice: Alice, reply: string): (res: Outcome)
    requires alice.n >= 1
    ensures res.Unparsable? <==> Decode(reply, 2).Err?
    ensures res.Established? <==>
      (Decode(reply, 2).Ok? && Verifies(Decode(reply, 2).value[0], Decode(reply, 2).value[1], alice.b, alice.n))
    ensures res.Established? ==> res.ka < alice.n
  {
    match Decode(reply, 2)
    case Err(_) => Unparsable
    case Ok(fields) =>
      if Verifies(fields[0], fields[1], alice.b, alice.n) then
        Established(SessionKey(alice.n, fields[0], alice.p, alice.a))
      else SignatureRejected
  }

  /** A reply "{B},{B**b % N}" is accepted and yields (B**p + a) % N; a
      reply whose signature lies outside [0, N) is rejected. */
  lemma HonestReplyAccepted(alice: Alice, bigB: int, signature: int)
    requires alice.n >= 1
    ensures AliceReceive(alice, Encode([bigB, CalculateSignature(bigB, alice.b, alice.n)]))
            == Established(SessionKey(alice.n, bigB, alice.p, alice.a))
    ensures (signature < 0 || signature >= alice.n) ==>
            AliceReceive(alice, Encode([bigB, signature])) == SignatureRejected
  {
    DecodeEncode([bigB, CalculateSignature(bigB, alice.b, alice.n)]);
    DecodeEncode([bigB, signature]);
  }

  /** With a Bob whose c is congruent to a and who replies B = c**q % N
      with the matching signature, KA equals Bob's (A**q + c) % N for
      A = a**p % N. */
  lemma HonestExchangeAgrees(alice: Alice, c: int, q: nat)
    requires alice.n >= 1 && alice.a % alice.n == c % alice.n
    ensures AliceReceive(alice, Encode([Pow(c, q) % alice.n, CalculateSignature(Pow(c, q) % alice.n, alice.b, alice.n)]))
            == Established(SessionKey(alice.n, Pow(alice.a, alice.p) % alice.n, q, c))
  {
    HonestReplyAccepted(alice, Pow(c, q) % alice.n, 0);
    SessionKeysAgree(alice.n, alice.a, alice.p, c, q);
  }
}
