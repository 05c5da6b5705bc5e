/** server2.py: unsigned Diffie-Hellman-style exchange modulo the prime
    10007. The randint draws are parameters and the socket traffic is reduced
    to the strings sent and received. */
module Server2 {
  import opened Results
  import opened ModArith
  import opened GcdTheory
  import opened Scheme
  import opened Wire

  /** Line 6. */
  const N: nat := 10007

  /** A draw of generate_key_pair (lines 12-13): two randint(2, N-1). */
  predicate ValidDraw(d: (nat, nat))
  {
    2 <= d.0 <= N - 1 && 2 <= d.1 <= N - 1
  }

  /** generate_key_pair (lines 9-15) over a finite sequence of draws: the
      first (a, p) with gcd(a, N) == 1; None when the draws run out. */
  function GenerateKeyPair(draws: seq<(nat, nat)>): (res: Option<(nat, nat)>)
    requires forall i :: 0 <= i < |draws| ==> ValidDraw(draws[i])
    ensures res.Some? ==> res.value in draws && ValidDraw(res.value) && Gcd(res.value.0, N) == 1
    ensures res.None? <==> forall i :: 0 <= i < |draws| ==> Gcd(draws[i].0, N) != 1
  {
    if draws == [] then None
    else if Gcd(draws[0].0, N) == 1 then Some(draws[0])
    else
      var rest := GenerateKeyPair(draws[1..]);
      assert forall i :: 1 <= i < |draws| ==> draws[i] == draws[1..][i - 1];
      rest
  }

  /** Because 10007 is prime, every draw passes the gcd test: the loop body
      runs once and the first draw is returned. */
  lemma FirstDrawAccepted(draws: seq<(nat, nat)>)
    requires |draws| >= 1 && forall i :: 0 <= i < |draws| ==> ValidDraw(draws[i])
    ensures GenerateKeyPair(draws) == Some(draws[0])
  {
    CoprimeTo10007(draws[0].0);
  }

  /** calculate_value (lines 17-19): a**p % N, which lies in [0, N) and
      depends on a only modulo N. */
  function CalculateValue(a: int, p: nat): (v: nat)
    ensures v < N
  {
    Pow(a, p) % N
  }

  lemma CalculateValueModulo(a: int, p: nat)
    ensures CalculateValue(a % N, p) == CalculateValue(a, p)
  {
    PowMod(a, p, N);
  }

  /** calculate_session_key (lines 21-23): (value**p + a) % N in [0, N).
      Bob's key in client.py (line 42), (A**q + c) % N, is the same formula
      with Bob's values. */
  function CalculateSessionKey(value: int, p: nat, a: int): (k: nat)
    ensures k < N
  {
    SessionKey(N, value, p, a)
  }

  /** The two session keys agree whenever Alice's a and Bob's c are
      congruent modulo N, with A = a**p and B = c**q (client.py line 30). */
  lemma SessionKeysAgreeWhenCongruent(a: int, p: nat, c: int, q: nat)
    requires a % N == c % N
    ensures CalculateSessionKey(CalculateValue(c, q), p, a) == CalculateSessionKey(CalculateValue(a, p), q, c)
  {
    SessionKeysAgree(N, a, p, c, q);
  }

  /** start_server draws a and b independently, so nothing forces a == c:
      with a = 2, p = 2, c = 3, q = 1 Alice gets 11 and Bob gets 7. */
  lemma SessionKeysCanDiffer()
    ensures CalculateSessionKey(CalculateValue(3, 1), 2, 2) == 11
    ensures CalculateSessionKey(CalculateValue(2, 2), 1, 3) == 7
  {
    assert Pow(3, 1) == 3;
    assert Pow(3, 2) == 9;
    assert Pow(2, 2) == 4;
    assert Pow(4, 1) == 4;
  }

  /** The offer "{A},{b}" (line 45). */
  function Offer(bigA: int, shared: int): string
  {
    Encode([bigA, shared])
  }

  lemma OfferRoundTrip(bigA: int, shared: int)
    ensures Decode(Offer(bigA, shared), 2) == Ok([bigA, shared])
  {
    DecodeEncode([bigA, shared]);
  }

  /** Lines 48-52: parse the reply "B,c" into exactly two integers (a
      ValueError otherwise) and compute Alice's session key from B. */
  function AliceSessionKey(p: nat, a: int, reply: string): (res: Result<nat>)
    ensures res.Ok? <==> Decode(reply, 2).Ok?
    ensures res.Err? ==> res.error == Malformed
    ensures res.Ok? ==> res.value < N
  {
    match Decode(reply, 2)
    case Err(e) => Err(e)
    case Ok(fields) => Ok(CalculateSessionKey(fields[0], p, a))
  }

  /** A well-formed reply "{B},{c}" yields the session key of B. */
  lemma ReplyRoundTrip(p: nat, a: int, bigB: int, c: int)
    ensures AliceSessionKey(p, a, Encode([bigB, c])) == Ok(CalculateSessionKey(bigB, p, a))
  {
    DecodeEncode([bigB, c]);
  }

  /** What start_server sends and the session key it ends with. */
  datatype Session = Session(offer: string, key: Result<nat>)

  /** start_server (lines 26-57) for the shared draw b, the key-pair draws
      and the reply received. */
  function StartServer(shared: nat, draws: seq<(nat, nat)>, reply: string): (res: Option<Session>)
    requires forall i :: 0 <= i < |draws| ==> ValidDraw(draws[i])
    ensures res.Some? <==> |draws| >= 1
    ensures res.Some? ==> Decode(res.value.offer, 2) == Ok([CalculateValue(draws[0].0, draws[0].1), shared])
    ensures res.Some? ==> (res.value.key.Ok? <==> Decode(reply, 2).Ok?)
  {
    if draws == [] then None
    else
      FirstDrawAccepted(draws);
      var (a, p) := GenerateKeyPair(draws).value;
      var bigA := CalculateValue(a, p);
      OfferRoundTrip(bigA, shared);
      Some(Session(Offer(bigA, shared), AliceSessionKey(p, a, reply)))
  }

  /** An honest Bob who takes c congruent to Alice's a and replies
      "{c**q % N},{c}" ends with Alice's session key. */
  lemma HonestExchangeAgrees(shared: nat, draws: seq<(nat, nat)>, c: int, q: nat)
    requires |draws| >= 1 && forall i :: 0 <= i < |draws| ==> ValidDraw(draws[i])
    requires draws[0].0 % N == c % N
    ensures StartServer(shared, draws, Encode([CalculateValue(c, q), c])).value.key
            == Ok(CalculateSessionKey(CalculateValue(draws[0].0, draws[0].1), q, c))
  {
    FirstDrawAccepted(draws);
    ReplyRoundTrip(draws[0].1, draws[0].0, CalculateValue(c, q), c);
    SessionKeysAgreeWhenCongruent(draws[0].0, draws[0].1, c, q);
  }
}
