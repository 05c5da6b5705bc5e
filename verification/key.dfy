/** key.py: Alice's side of the exchange over a fixed modulus N = 2**64 + 37,
    with a = b. The three getrandbits draws (b, p, r) are parameters and the
    socket traffic is reduced to the strings sent and received. */
module Key {
  import opened Results
  import opened ModArith
  import opened GcdTheory
  import opened ExtEuclid
  import opened Scheme
  import opened Wire

  /** 2**64 + 37 (line 25). */
  const N: nat := 0x1_0000_0000_0000_0025

  /** The acknowledgement sent once the session key is computed (line 76). */
  const Ack := "Signature verified, key exchange successful."

  /** is_valid_key (lines 20-22). */
  function IsValidKey(a: nat, n: nat): bool
  {
    Gcd(a, n) == 1
  }

  /** A key is valid exactly when the copied mod_inverse (lines 6-18) does
      not raise for it. */
  lemma ValidKeyIffInverse(a: nat, n: nat)
    requires n >= 1
    ensures IsValidKey(a, n) <==> ModInverse(a, n).Ok?
    ensures !IsValidKey(a, n) <==> ModInverse(a, n) == Err(NoInverse)
  {
  }

  /** Alice's values after the module-level set-up (lines 26-37). */
  datatype Alice = Alice(a: nat, p: nat, bigA: nat, r: nat, m: nat, k: nat)

  lemma PublicValueWhenEqual(b: nat, r: nat, ia: int)
    requires (b * ia) % N == 1 % N
    ensures (ia * b + r) % N == (1 + r) % N
    ensures IsPublicM(N, PrivateKey(b, b, r), (1 + r) % N)
  {
    assert 1 % N == 1;
    CongAdd(ia * b, 1, r, r, N);
    PublicValueCorrect(N, PrivateKey(b, b, r), ia);
    assert (ia * b) % N == 1;
  }

  /** Lines 26-37: a = b, A = a**p % N, M = (inv(a)*b + r) % N, and the
      signature K = (inv(a**2) * b * S) % N with S = A*(a + a**2*inv(b)*r).
      mod_inverse raises exactly when b is not coprime to N; otherwise M is
      (1 + r) % N and K is A*M modulo N. */
  function AliceSetup(b: nat, p: nat, r: nat): (res: Result<Alice>)
    ensures res.Ok? <==> Gcd(b, N) == 1
    ensures res.Err? ==> res.error == NoInverse
    ensures res.Ok? ==> res.value.a == b && res.value.p == p && res.value.r == r
    ensures res.Ok? ==> res.value.bigA < N && res.value.bigA == Pow(b, p) % N
    ensures res.Ok? ==> res.value.m == (1 + r) % N
    ensures res.Ok? ==> res.value.k < N && res.value.k == (res.value.bigA * res.value.m) % N
  {
    CoprimeSquare(b, N);
    match ModInverse(b, N)
    case Err(e) => Err(e)
    case Ok(ia) =>
      var a := b;
      var bigA := Pow(a, p) % N;
      var m := (ia * b + r) % N;
      var ib := ia;
      match ModInverse(a * a, N)
      case Err(e) => Err(e)
      case Ok(ia2) =>
        var key := PrivateKey(a, b, r);
        PublicValueWhenEqual(b, r, ia);
        SignatureIsMessageTimesPublic(N, key, bigA, ib, ia2, m);
        Ok(Alice(a, p, bigA, r, m, SignatureFormula(N, key, bigA, ib, ia2)))
  }

  /** The first message, "{A},{K}" (line 53). */
  function FirstMessage(alice: Alice): string
  {
    Encode([alice.bigA, alice.k])
  }

  /** Splitting the first message on "," and applying int gives back A and K. */
  lemma FirstMessageRoundTrip(alice: Alice)
    ensures Decode(FirstMessage(alice), 2) == Ok([alice.bigA, alice.k])
  {
    DecodeEncode([alice.bigA, alice.k]);
  }

  /** What Alice keeps after a well-formed reply: her session key (line 72)
      and the acknowledgement she sends back to Bob (line 76). */
  datatype Reply = Reply(key: nat, ack: string)

  /** Lines 57-76: reject an empty payload, parse "B,K_b" into exactly two
      integers, compute the session key (B**p + a) % N and acknowledge. */
  function AliceReceive(alice: Alice, data: string): (res: Result<Reply>)
    ensures res.Err? <==> data == [] || Decode(data, 2).Err?
    ensures data == [] ==> res == Err(NoData)
    ensures data != [] && Decode(data, 2).Err? ==> res == Err(Malformed)
    ensures res.Ok? ==> res.value.key < N && res.value.ack == Ack
  {
    if data == [] then Err(NoData)
    else
      match Decode(data, 2)
      case Err(e) => Err(e)
      case Ok(fields) => Ok(Reply(SessionKey(N, fields[0], alice.p, alice.a), Ack))
  }

  /** Bob's reply "{B},{K_b}": the session key depends on B alone and the
      "Signature verified" acknowledgement is sent whatever K_b is; the
      received signature is parsed but never checked. */
  lemma SignatureIgnored(alice: Alice, bigB: int, kb1: int, kb2: int)
    ensures AliceReceive(alice, Encode([bigB, kb1])) == Ok(Reply(SessionKey(N, bigB, alice.p, alice.a), Ack))
    ensures AliceReceive(alice, Encode([bigB, kb1])) == AliceReceive(alice, Encode([bigB, kb2]))
  {
    DecodeEncode([bigB, kb1]);
    DecodeEncode([bigB, kb2]);
  }

  /** A reply with other than two comma-separated fields is rejected. */
  lemma WrongFieldCountRejected(alice: Alice, xs: seq<int>)
    requires |xs| >= 1 && |xs| != 2
    ensures AliceReceive(alice, Encode(xs)) == Err(Malformed)
  {
    DecodeWrongArity(xs, 2);
  }

  /** If Bob uses a secret c congruent to a and replies with B = c**q % N,
      Alice's (B**p + a) % N (line 72) equals Bob's (A**q + c) % N. */
  lemma SessionKeysMatch(alice: Alice, c: int, q: nat)
    requires alice.a % N == c % N
    ensures AliceReceive(alice, Encode([Pow(c, q) % N, 0]))
            == Ok(Reply(SessionKey(N, Pow(alice.a, alice.p) % N, q, c), Ack))
  {
    SignatureIgnored(alice, Pow(c, q) % N, 0, 0);
    SessionKeysAgree(N, alice.a, alice.p, c, q);
  }
}
