/** server1.py: a brute-force modular inverse, rejection-sampled key
    generation, signing, and the "{M},{N},{A},{K}" announcement. The
    randint draws are a finite sequence of candidate private keys. */
module Server1 {
  import opened Results
  import opened ModArith
  import opened GcdTheory
  import opened ExtEuclid
  import opened Scheme
  import opened Wire
  import Avispa

  /** server1.py orders its public key (M, N), the reverse of avispa.py. */
  datatype PublicKey = PublicKey(m: nat, n: nat)

  /** The test of line 9: a*x reduces to exactly 1 modulo n. */
  predicate IsInverse(a: int, x: int, n: nat)
    requires n >= 1
  {
    (a * x) % n == 1
  }

  /** The `for x in range(lo, n)` scan of line 8, from x upwards. */
  function SearchInverse(a: int, n: nat, x: nat): (res: Result<nat>)
    requires n >= 1 && x >= 1
    ensures res.Ok? ==> x <= res.value < n && IsInverse(a, res.value, n)
    ensures res.Ok? ==> forall y :: x <= y < res.value ==> !IsInverse(a, y, n)
    ensures res.Err? <==> forall y :: x <= y < n ==> !IsInverse(a, y, n)
    ensures res.Err? ==> res.error == NoInverse
    decreases n - x
  {
    if x >= n then Err(NoInverse)
    else if (a * x) % n == 1 then
      assert IsInverse(a, x, n);
      Ok(x)
    else SearchInverse(a, n, x + 1)
  }

  lemma ReduceFirst(a: int, n: nat)
    requires n >= 1
    ensures forall y :: IsInverse(a % n, y, n) <==> IsInverse(a, y, n)
  {
    forall y
      ensures IsInverse(a % n, y, n) <==> IsInverse(a, y, n)
    {
      ModMulLeft(a, y, n);
    }
  }

  /** mod_inverse (lines 6-11): the least x in [1, n) with a*x % n == 1,
      or ValueError when there is none. */
  function BruteInverse(a: int, n: nat): (res: Result<nat>)
    requires n >= 1
    ensures res.Ok? ==> 1 <= res.value < n && IsInverse(a, res.value, n)
    ensures res.Ok? ==> forall y :: 1 <= y < res.value ==> !IsInverse(a, y, n)
    ensures res.Err? <==> forall y :: 1 <= y < n ==> !IsInverse(a, y, n)
    ensures res.Err? ==> res.error == NoInverse
  {
    ReduceFirst(a, n);
    SearchInverse(a % n, n, 1)
  }

  /** Two inverses of a in [0, n) coincide. */
  lemma InverseUnique(a: int, v: nat, w: nat, n: nat)
    requires n >= 1 && v < n && w < n
    requires (a * v) % n == 1 % n && (a * w) % n == 1 % n
    ensures v == w
  {
    CancelInverse(a, w, v, n);
    CancelInverse(a, v, w, n);
    MulAssoc(a, v, w);
    MulAssoc(a, w, v);
    ModUnique(v, n, 0, v);
    ModUnique(w, n, 0, w);
  }

  /** For n >= 2 the brute-force search and the extended-Euclid mod_inverse
      of avispa.py agree: both raise, or both return the same value. */
  lemma BruteAgreesWithEuclid(a: nat, n: nat)
    requires n >= 2
    ensures BruteInverse(a, n) == ModInverse(a, n)
  {
    ModUnique(1, n, 0, 1);
    match ModInverse(a, n)
    case Ok(v) =>
      assert IsInverse(a, v, n);
      var w := BruteInverse(a, n).value;
      InverseUnique(a, v, w, n);
    case Err(_) =>
      if BruteInverse(a, n).Ok? {
        InverseImpliesCoprime(a, BruteInverse(a, n).value, n);
      }
  }

  /** For n == 1 they differ: range(1, 1) is empty, so the search raises,
      while the extended-Euclid version returns a value. */
  lemma BruteDiffersAtOne(a: nat)
    ensures BruteInverse(a, 1) == Err(NoInverse)
    ensures ModInverse(a, 1).Ok?
  {
    assert Gcd(a, 1) == Gcd(1, 0);
  }

  /** A draw of generate_keys (lines 16-18): randint(2, N-1) twice and
      randint(1, N). */
  predicate ValidDraw(n: nat, key: PrivateKey)
  {
    2 <= key.a <= n - 1 && 2 <= key.b <= n - 1 && 1 <= key.r <= n
  }

  /** What generate_keys promises of the key it returns: a and b invertible
      modulo N and the public value M coprime to N. */
  ghost predicate Acceptable(n: nat, key: PrivateKey)
    requires n >= 1
  {
    Gcd(key.a, n) == 1 && Gcd(key.b, n) == 1
    && forall m :: IsPublicM(n, key, m) ==> Gcd(m, n) == 1
  }

  /** M of lines 20-21, computed with the brute-force inverse. */
  function PublicM(n: nat, key: PrivateKey): (res: Result<nat>)
    requires n >= 2
    ensures res.Ok? <==> Gcd(key.a, n) == 1
    ensures res.Ok? ==> IsPublicM(n, key, res.value)
  {
    BruteAgreesWithEuclid(key.a, n);
    match BruteInverse(key.a, n)
    case Err(e) => Err(e)
    case Ok(x) =>
      ModUnique(1, n, 0, 1);
      Ok(PublicValue(n, key, x))
  }

  /** The tests of lines 19 and 22 on one draw. */
  function KeyTest(n: nat, key: PrivateKey): (ok: bool)
    requires n >= 2
    ensures ok <==> Acceptable(n, key) && key.r <= n
  {
    if Gcd(key.a, n) == 1 && Gcd(key.b, n) == 1 then
      match PublicM(n, key)
      case Err(_) => false
      case Ok(m) =>
        forall m' | IsPublicM(n, key, m') ensures m' == m {
          PublicMUnique(n, key, m, m');
        }
        Gcd(m, n) == 1 && key.r <= n
    else false
  }

  /** The `r <= N` test of line 22 never rejects a draw: randint(1, N)
      already keeps r within N. */
  lemma RangeTestRedundant(n: nat, key: PrivateKey)
    requires n >= 3 && ValidDraw(n, key)
    ensures KeyTest(n, key) <==> Acceptable(n, key)
  {
  }

  /** generate_keys (lines 14-23) over a finite sequence of draws: the public
      key (M, N) and private key of the first acceptable draw; None when
      every draw is rejected (the loop would go on drawing). */
  function GenerateKeys(n: nat, draws: seq<PrivateKey>): (res: Option<(PublicKey, PrivateKey)>)
    requires n >= 3 && forall i :: 0 <= i < |draws| ==> ValidDraw(n, draws[i])
    ensures res.None? <==> forall i :: 0 <= i < |draws| ==> !Acceptable(n, draws[i])
    ensures res.Some? ==> exists i :: 0 <= i < |draws| && draws[i] == res.value.1
                            && forall j :: 0 <= j < i ==> !Acceptable(n, draws[j])
    ensures res.Some? ==> ValidDraw(n, res.value.1) && Acceptable(n, res.value.1)
    ensures res.Some? ==> res.value.0.n == n && IsPublicM(n, res.value.1, res.value.0.m)
  {
    if draws == [] then None
    else if KeyTest(n, draws[0]) then
      Some((PublicKey(PublicM(n, draws[0]).value, n), draws[0]))
    else
      assert ValidDraw(n, draws[0]);
      assert !Acceptable(n, draws[0]);
      var rest := GenerateKeys(n, draws[1..]);
      if rest.Some? then
        FirstAfterHead(n, draws, rest.value.1);
        rest
      else
        NoneAfterHead(n, draws);
        rest
  }

  lemma NoneAfterHead(n: nat, draws: seq<PrivateKey>)
    requires n >= 1 && |draws| >= 1 && !Acceptable(n, draws[0])
    requires forall i :: 0 <= i < |draws| - 1 ==> !Acceptable(n, draws[1..][i])
    ensures forall i :: 0 <= i < |draws| ==> !Acceptable(n, draws[i])
  {
    forall i | 1 <= i < |draws|
      ensures !Acceptable(n, draws[i])
    {
      assert draws[i] == draws[1..][i - 1];
    }
  }

  /** A first acceptable draw of the tail, behind a rejected head, is the
      first acceptable draw of the whole sequence. */
  lemma FirstAfterHead(n: nat, draws: seq<PrivateKey>, key: PrivateKey)
    requires n >= 1 && |draws| >= 1 && !Acceptable(n, draws[0])
    requires exists i :: 0 <= i < |draws| - 1 && draws[1..][i] == key
               && forall j :: 0 <= j < i ==> !Acceptable(n, draws[1..][j])
    ensures exists i :: 0 <= i < |draws| && draws[i] == key
              && forall j :: 0 <= j < i ==> !Acceptable(n, draws[j])
  {
    var i :| 0 <= i < |draws| - 1 && draws[1..][i] == key
             && forall j :: 0 <= j < i ==> !Acceptable(n, draws[1..][j]);
    forall j | 0 <= j < i + 1
      ensures !Acceptable(n, draws[j])
    {
      if j > 0 {
        assert draws[j] == draws[1..][j - 1];
      }
    }
    assert draws[i + 1] == key;
  }

  /** sign_message (lines 26-30): the avispa signature formula with the
      brute-force inverses; ValueError when b or a**2 has no inverse. */
  function SignMessage(bigA: int, key: PrivateKey, n: nat): (res: Result<nat>)
    requires n >= 2
    ensures res.Ok? <==> Gcd(key.b, n) == 1 && Gcd(key.a, n) == 1
    ensures res.Err? ==> res.error == NoInverse
    ensures res.Ok? ==> res.value < n
    ensures res.Ok? ==> forall m :: IsPublicM(n, key, m) ==> res.value == (bigA * m) % n
  {
    BruteAgreesWithEuclid(key.b, n);
    BruteAgreesWithEuclid(key.a * key.a, n);
    CoprimeSquare(key.a, n);
    match BruteInverse(key.b, n)
    case Err(e) => Err(e)
    case Ok(ib) =>
      match BruteInverse(key.a * key.a, n)
      case Err(e) => Err(e)
      case Ok(ia2) =>
        Avispa.SigningMeaning(n, key, bigA, ib, ia2);
        Ok(SignatureFormula(n, key, bigA, ib, ia2))
  }

  /** For n >= 2, sign_message computes exactly what avispa.py's signing
      does, with a ValueError where signing returns None. */
  lemma SignMessageIsSigning(bigA: int, key: PrivateKey, n: nat)
    requires n >= 2
    ensures SignMessage(bigA, key, n).Ok? <==> Avispa.Signing(bigA, key, n).Some?
    ensures SignMessage(bigA, key, n).Ok? ==> SignMessage(bigA, key, n).value == Avispa.Signing(bigA, key, n).value
  {
    BruteAgreesWithEuclid(key.b, n);
    BruteAgreesWithEuclid(key.a * key.a, n);
  }

  /** Every key generate_keys returns can sign: the signature is A*M modulo
      N for the announced M. */
  lemma GeneratedKeysSign(n: nat, draws: seq<PrivateKey>, bigA: int)
    requires n >= 3 && forall i :: 0 <= i < |draws| ==> ValidDraw(n, draws[i])
    requires GenerateKeys(n, draws).Some?
    ensures SignMessage(bigA, GenerateKeys(n, draws).value.1, n).Ok?
    ensures SignMessage(bigA, GenerateKeys(n, draws).value.1, n).value
            == (bigA * GenerateKeys(n, draws).value.0.m) % n
  {
  }

  /** The announcement "{M},{N},{A},{K}" (line 53). */
  function Announcement(pk: PublicKey, bigA: int, k: int): string
  {
    Encode([pk.m, pk.n, bigA, k])
  }

  /** The announcement splits back into M, N, A and K, in that order. */
  lemma AnnouncementRoundTrip(pk: PublicKey, bigA: int, k: int)
    ensures Decode(Announcement(pk, bigA, k), 4) == Ok([pk.m, pk.n, bigA, k])
  {
    DecodeEncode([pk.m, pk.n, bigA, k]);
  }

  const Modulus: nat := 10007
  const Plaintext: int := 1234

  /** start_server (lines 33-58) without the socket: generate keys modulo
      10007, sign 1234 and build the announcement; None when no draw was
      acceptable. */
  function StartServer(draws: seq<PrivateKey>): (res: Option<string>)
    requires forall i :: 0 <= i < |draws| ==> ValidDraw(Modulus, draws[i])
    ensures res.Some? <==> GenerateKeys(Modulus, draws).Some?
    ensures res.Some? ==> var m := GenerateKeys(Modulus, draws).value.0.m;
      Decode(res.value, 4) == Ok([m, Modulus, Plaintext, (Plaintext * m) % Modulus])
  {
    match GenerateKeys(Modulus, draws)
    case None => None
    case Some((pk, key)) =>
      GeneratedKeysSign(Modulus, draws, Plaintext);
      var k := SignMessage(Plaintext, key, Modulus).value;
      AnnouncementRoundTrip(pk, Plaintext, k);
      Some(Announcement(pk, Plaintext, k))
  }
}
