/** avispa.py: safety checking of a key, the four simulated analysis tools,
    signing and verification, and the arithmetic of one simulated message
    exchange. The random draws of the script (N, a, b, r, the message, the
    agreed parameters and the exponents) are parameters. */
module Avispa {
  import opened Results
  import opened ModArith
  import opened GcdTheory
  import opened ExtEuclid
  import opened Scheme

  /** The public key (N, M) of avispa.py: modulus first (lines 42, 59). */
  datatype PublicKey = PublicKey(n: nat, m: nat)

  /** A simulation tool's answer: (result, attack label). */
  datatype Verdict = Verdict(safe: bool, attack: string)

  const FactoringAttack := "Factoring Attack"
  const ReplayAttack := "Replay Attack / Key Reuse"
  const KeyCompromise := "Key Compromise / Man-in-the-Middle Attack"
  const OverflowAttack := "Overflow Vulnerabilities / Timing Attacks"

  /** Lines 21-22: M = (inv(a)*b % N + r) % N, or the ValueError raised by
      mod_inverse when a has no inverse. */
  function PublicM(n: nat, key: PrivateKey): (res: Result<nat>)
    requires n >= 1
    ensures res.Ok? <==> Gcd(key.a, n) == 1
    ensures res.Ok? ==> IsPublicM(n, key, res.value)
  {
    match ModInverse(key.a, n)
    case Err(e) => Err(e)
    case Ok(x) => Ok(PublicValue(n, key, x))
  }

  lemma CheckSafetyMeaning(n: nat, key: PrivateKey, m: nat)
    requires n >= 1 && PublicM(n, key) == Ok(m)
    ensures (Gcd(m, n) == 1 && m % n != 0 && key.r <= n) <==>
            (n >= 2 && key.r <= n && forall m' :: IsPublicM(n, key, m') ==> Gcd(m', n) == 1)
  {
    forall m' | IsPublicM(n, key, m')
      ensures m' == m
    {
      PublicMUnique(n, key, m, m');
    }
    if n == 1 {
      assert m % n == 0;
    } else if m == 0 {
      assert Gcd(m, n) == Gcd(n, 0);
    }
  }

  /** check_safety (lines 19-32): True exactly when a is invertible modulo N,
      N >= 2, r <= N, and the public value M is coprime to N. The test
      `M % N != 0` adds nothing beyond the gcd test once N >= 2 and only
      rejects N == 1; b is never required to be invertible. */
  function CheckSafety(n: nat, key: PrivateKey): (ok: bool)
    requires n >= 1
    ensures ok <==> Gcd(key.a, n) == 1 && n >= 2 && key.r <= n
                    && forall m :: IsPublicM(n, key, m) ==> Gcd(m, n) == 1
  {
    match PublicM(n, key)
    case Err(_) => false
    case Ok(m) =>
      CheckSafetyMeaning(n, key, m);
      var ofmc := Gcd(m, n) == 1;
      var clAtse := m % n != 0;
      var satmc := true;
      var ta4sp := key.r <= n;
      ofmc && clAtse && satmc && ta4sp
  }

  /** generate_safe_values (lines 35-44) for drawn N, a, b, r: the public key
      it returns is (N, (N + 1) % N), which is the constant (N, 1). */
  function GenerateSafeValues(n: nat, key: PrivateKey): (res: Option<(PublicKey, PrivateKey)>)
    requires n >= 3
    requires 2 <= key.a <= n - 1 && 2 <= key.b <= n - 1 && 2 <= key.r <= n - 1
    ensures res.Some? <==> CheckSafety(n, key)
    ensures res.Some? ==> res.value == (PublicKey(n, 1), key)
  {
    if CheckSafety(n, key) then
      ModUnique(n + 1, n, 1, 1);
      Some((PublicKey(n, (n + 1) % n), key))
    else None
  }

  /** signing (lines 47-55): None exactly when b or a**2 has no inverse
      modulo N (the ValueError caught at line 52), that is when b or a is not
      coprime to N; otherwise K in [0, N) with K == A * M (mod N) for the
      public value M of the key. */
  function Signing(msg: int, key: PrivateKey, n: nat): (k: Option<nat>)
    requires n >= 1
    ensures k.None? <==> Gcd(key.b, n) != 1 || Gcd(key.a, n) != 1
    ensures k.Some? ==> k.value < n
    ensures k.Some? ==> forall m :: IsPublicM(n, key, m) ==> k.value == (msg * m) % n
  {
    CoprimeSquare(key.a, n);
    match ModInverse(key.b, n)
    case Err(_) => None
    case Ok(ib) =>
      match ModInverse(key.a * key.a, n)
      case Err(_) => None
      case Ok(ia2) =>
        SigningMeaning(n, key, msg, ib, ia2);
        Some(SignatureFormula(n, key, msg, ib, ia2))
  }

  lemma SigningMeaning(n: nat, key: PrivateKey, msg: int, ib: int, ia2: int)
    requires n >= 1
    requires (key.b * ib) % n == 1 % n && ((key.a * key.a) * ia2) % n == 1 % n
    ensures SignatureFormula(n, key, msg, ib, ia2) < n
    ensures forall m :: IsPublicM(n, key, m) ==> SignatureFormula(n, key, msg, ib, ia2) == (msg * m) % n
  {
    forall m | IsPublicM(n, key, m)
      ensures SignatureFormula(n, key, msg, ib, ia2) == (msg * m) % n
    {
      SignatureIsMessageTimesPublic(n, key, msg, ib, ia2, m);
    }
  }

  /** ofmc_simulation (lines 58-62). */
  function Ofmc(pk: PublicKey): Verdict
  {
    if Gcd(pk.m, pk.n) != 1 then Verdict(false, FactoringAttack) else Verdict(true, "")
  }

  /** cl_atse_simulation (lines 64-68). */
  function ClAtse(pk: PublicKey): Verdict
    requires pk.n >= 1
  {
    if pk.m % pk.n == 0 then Verdict(false, ReplayAttack) else Verdict(true, "")
  }

  /** satmc_simulation (lines 70-77): safe exactly when a is coprime to N. */
  function Satmc(pk: PublicKey, key: PrivateKey): (v: Verdict)
    requires pk.n >= 1
    ensures v.safe <==> Gcd(key.a, pk.n) == 1
    ensures v.attack == if v.safe then "" else KeyCompromise
  {
    match ModInverse(key.a, pk.n)
    case Ok(_) => Verdict(true, "")
    case Err(_) => Verdict(false, KeyCompromise)
  }

  /** ta4sp_simulation (lines 79-84). */
  function Ta4sp(pk: PublicKey, key: PrivateKey): Verdict
  {
    if key.r > pk.n then Verdict(false, OverflowAttack) else Verdict(true, "")
  }

  /** The four verdicts in the order protocol_analysis reports them. */
  function Analysis(pk: PublicKey, key: PrivateKey): seq<Verdict>
    requires pk.n >= 1
  {
    [Ofmc(pk), ClAtse(pk), Satmc(pk, key), Ta4sp(pk, key)]
  }

  predicate AllSafe(vs: seq<Verdict>)
  {
    forall i :: 0 <= i < |vs| ==> vs[i].safe
  }

  /** check_safety is the four simulations run on the key's own public value
      (N, M): the same four conditions. */
  lemma CheckSafetyIsAnalysis(n: nat, key: PrivateKey)
    requires n >= 1
    ensures !Satmc(PublicKey(n, 0), key).safe ==> !CheckSafety(n, key)
    ensures forall m :: IsPublicM(n, key, m) ==>
      (CheckSafety(n, key) <==> AllSafe(Analysis(PublicKey(n, m), key)))
  {
    forall m | IsPublicM(n, key, m)
      ensures CheckSafety(n, key) <==> AllSafe(Analysis(PublicKey(n, m), key))
    {
      if Gcd(key.a, n) == 1 {
        var m0 := PublicM(n, key).value;
        PublicMUnique(n, key, m0, m);
        CheckSafetyMeaning(n, key, m0);
        var vs := Analysis(PublicKey(n, m), key);
        assert AllSafe(vs) <==> vs[0].safe && vs[1].safe && vs[2].safe && vs[3].safe;
      } else {
        assert !Analysis(PublicKey(n, m), key)[2].safe;
      }
    }
  }

  /** The public key (N, 1) that generate_safe_values hands out passes OFMC
      and CL-AtSe for every N >= 2, whatever the private key. */
  lemma DegenerateKeyPasses(n: nat)
    requires n >= 2
    ensures Ofmc(PublicKey(n, 1)).safe && ClAtse(PublicKey(n, 1)).safe
  {
    ModUnique(1, n, 0, 1);
    ModUnique(n, 1, n, 0);
    assert Gcd(1, n) == Gcd(n, 1) == Gcd(1, 0);
  }

  /** TA4SP accepts r == N and rejects r == N + 1, with its label. */
  lemma Ta4spBoundary(n: nat, a: nat, b: nat)
    ensures Ta4sp(PublicKey(n, 1), PrivateKey(a, b, n)).safe
    ensures Ta4sp(PublicKey(n, 1), PrivateKey(a, b, n + 1)) == Verdict(false, OverflowAttack)
  {
  }

  /** protocol_analysis (lines 87-137) for drawn N, a, b, r: the generated
      keys, provided the four simulations on them all pass. */
  function ProtocolAnalysis(n: nat, key: PrivateKey): Option<(PublicKey, PrivateKey)>
    requires n >= 3
    requires 2 <= key.a <= n - 1 && 2 <= key.b <= n - 1 && 2 <= key.r <= n - 1
  {
    match GenerateSafeValues(n, key)
    case None => None
    case Some((pk, sk)) => if AllSafe(Analysis(pk, sk)) then Some((pk, sk)) else None
  }

  /** The simulations never veto: whenever generate_safe_values succeeds, all
      four verdicts on the public key (N, 1) are safe. */
  lemma AnalysisNeverRejects(n: nat, key: PrivateKey)
    requires n >= 3
    requires 2 <= key.a <= n - 1 && 2 <= key.b <= n - 1 && 2 <= key.r <= n - 1
    ensures ProtocolAnalysis(n, key) == GenerateSafeValues(n, key)
  {
    if CheckSafety(n, key) {
      DegenerateKeyPasses(n);
      var vs := Analysis(PublicKey(n, 1), key);
      assert vs[0].safe && vs[1].safe && vs[2].safe && vs[3].safe;
    }
  }

  /** verify_signature (lines 144-145): recompute the signature with the
      verifier's copy of the private key and compare, None included. */
  function VerifySignature(msg: int, signature: Option<nat>, pk: PublicKey, key: PrivateKey): bool
    requires pk.n >= 1
  {
    Signing(msg, key, pk.n) == signature
  }

  /** Verification accepts exactly the recomputed signature, so it accepts
      every signature the same key produced, including a failed one (None). */
  lemma VerifyOwnSignature(msg: int, pk: PublicKey, key: PrivateKey, signature: Option<nat>)
    requires pk.n >= 1
    ensures VerifySignature(msg, Signing(msg, key, pk.n), pk, key)
    ensures VerifySignature(msg, signature, pk, key) <==>
      (signature.None? <==> (Gcd(key.b, pk.n) != 1 || Gcd(key.a, pk.n) != 1))
      && (signature.Some? ==> Signing(msg, key, pk.n) == signature)
  {
  }

  /** A key that check_safety accepts but that cannot sign (b = 2 is not
      invertible modulo 10), whose missing signature still verifies. */
  lemma SafeKeyWithoutSignature()
    ensures GenerateSafeValues(10, PrivateKey(3, 2, 3)) == Some((PublicKey(10, 1), PrivateKey(3, 2, 3)))
    ensures Signing(1234, PrivateKey(3, 2, 3), 10) == None
    ensures VerifySignature(1234, None, PublicKey(10, 1), PrivateKey(3, 2, 3))
  {
    var key := PrivateKey(3, 2, 3);
    assert PublicM(10, key) == Ok(7);
    CheckSafetyMeaning(10, key, 7);
    assert Gcd(2, 10) == 2;
  }

  /** Lines 191 and 195: masking with a*K and unmasking with c*K modulo m. */
  function Encrypt(p: int, a: int, k: int, m: nat): nat
    requires m >= 1
  {
    (p + a * k) % m
  }

  function Decrypt(c: int, secret: int, k: int, m: nat): nat
    requires m >= 1
  {
    (c - secret * k) % m
  }

  /** Decryption with the same secret and key returns the plaintext modulo m,
      so it equals the plaintext exactly when 0 <= P < m. */
  lemma DecryptEncrypt(p: int, a: int, k: int, m: nat)
    requires m >= 1
    ensures Decrypt(Encrypt(p, a, k, m), a, k, m) == p % m
    ensures Decrypt(Encrypt(p, a, k, m), a, k, m) == p <==> 0 <= p < m
  {
    var x := a * k;
    var q := (p + x) / m;
    var e := Encrypt(p, a, k, m);
    assert e == p + x - m * q;
    assert e - x == p + m * (-q);
    ModAddMultiple(p, -q, m);
    if 0 <= p < m {
      ModUnique(p, m, 0, p);
    }
  }

  /** The outcome of message_exchange (lines 149-204). */
  datatype Exchange =
    | SignatureFailed                       // line 204
    | KeysDiffer(ka: nat, kb: nat)          // lines 183-185
    | Delivered(ka: nat, kb: nat, cipher: nat, decrypted: nat, matches: bool)

  /** message_exchange with its random draws as parameters: the message, the
      agreed pair (b, m) of line 153 and the exponents p, q of lines 154-155. */
  function MessageExchange(message: nat, shared: nat, m0: nat, p: nat, q: nat,
                           alicePk: PublicKey, aliceKey: PrivateKey,
                           bobPk: PublicKey, bobKey: PrivateKey): Exchange
    requires m0 >= 1 && alicePk.n >= 1 && bobPk.n >= 1
  {
    var a := shared % m0;
    var c := shared % m0;
    var m := alicePk.n;
    var bigA := Pow(a, p) % m;
    var aliceSig := Signing(bigA, aliceKey, alicePk.n);
    var bigB := Pow(shared, q) % m;
    var bobSig := Signing(bigB, bobKey, bobPk.n);
    if VerifySignature(bigA, aliceSig, alicePk, aliceKey)
       && VerifySignature(bigB, bobSig, bobPk, bobKey) then
      var ka := (Pow(bobPk.m, p) % m) % m;
      var kb := (Pow(alicePk.m, q) % m) % m;
      if ka != kb then KeysDiffer(ka, kb)
      else
        var cipher := Encrypt(message, a, ka, m);
        var decrypted := Decrypt(cipher, c, kb, m);
        Delivered(ka, kb, cipher, decrypted, decrypted == message)
    else SignatureFailed
  }

  /** With the (N, 1) public keys of generate_safe_values on both sides:
      signatures always verify, both session keys are 1, and decryption
      returns the message modulo N, so it matches only when message < N. */
  lemma ExchangeWithGeneratedKeys(n: nat, key: PrivateKey, message: nat, shared: nat, m0: nat, p: nat, q: nat)
    requires n >= 2 && m0 >= 1
    ensures MessageExchange(message, shared, m0, p, q, PublicKey(n, 1), key, PublicKey(n, 1), key)
            == Delivered(1, 1, (message + shared % m0) % n, message % n, message < n)
  {
    PowOne(p);
    PowOne(q);
    ModUnique(1, n, 0, 1);
    DecryptEncrypt(message, shared % m0, 1, n);
  }

  /** Lines 207-213: protocol_analysis, then message_exchange with Bob using
      Alice's keys. Whenever keys are generated the exchange delivers. */
  function AnalyzeAndExchange(n: nat, key: PrivateKey, message: nat, shared: nat, m0: nat, p: nat, q: nat)
    : (res: Option<Exchange>)
    requires n >= 3 && m0 >= 1
    requires 2 <= key.a <= n - 1 && 2 <= key.b <= n - 1 && 2 <= key.r <= n - 1
    ensures res.Some? <==> CheckSafety(n, key)
    ensures res.Some? ==> res.value == Delivered(1, 1, (message + shared % m0) % n, message % n, message < n)
  {
    AnalysisNeverRejects(n, key);
    match ProtocolAnalysis(n, key)
    case None => None
    case Some((pk, sk)) =>
      ExchangeWithGeneratedKeys(n, sk, message, shared, m0, p, q);
      Some(MessageExchange(message, shared, m0, p, q, pk, sk, pk, sk))
  }
}
