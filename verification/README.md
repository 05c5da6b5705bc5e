# Security-Analysis-Tool key agreement, modelled in Dafny

The Python scripts of Security-Analysis-Tool implement a toy authenticated key
agreement several times over. A party holds a private key (a, b, r) modulo N
and publishes M = inv(a)·b + r (mod N). A value A is signed as
K = inv(a²)·b·A·(a + a²·inv(b)·r) (mod N), and the session key is
(B^p + a) mod N. `avispa.py` adds four pretend "AVISPA" analysis tools and a
masking cipher. `key.py`, `server.py`, `server1.py` and `server2.py` are
socket servers that exchange comma-separated decimal integers.

This project models the arithmetic of those scripts as pure Dafny functions.
The modules are:

- `Results`: `Option`, `Result`, and the three ways the scripts fail: no inverse, no data, malformed message.
- `ModArith`: powers and congruence lemmas.
- `GcdTheory`: `math.gcd`, divisibility, and the primality of 10007.
- `ExtEuclid`: the extended-Euclid `mod_inverse`, both as a recursive function and as the literal while loop.
- `Wire`: `str`/`int` for decimal integers, `split`/`join` on `","`, and the f-string messages.
- `Scheme`: the private key, the public value M, the signature identity K ≡ A·M, and session-key agreement.
- `Avispa`, `Key`, `Server1`, `Server2`, `Server`: one module per script.

Every random draw (`getrandbits`, `randint`) is a parameter. The scripts'
unbounded rejection loops run over a finite sequence of draws, and `None`
means the draws ran out. Socket traffic is reduced to the strings sent and
received.

Some facts the proofs establish:

- `mod_inverse` fails exactly when gcd(a, N) ≠ 1. Otherwise its result v has a·v ≡ 1 (mod N) and lies in [0, N). For N = 1 it can return N itself: `mod_inverse(1, 1)` is 1, which is still an inverse modulo 1.
- The brute-force `mod_inverse` of `server1.py` agrees with the extended-Euclid one for every N ≥ 2. For N = 1 it raises, while the other returns a value.
- A successful signature always equals A·M mod N. `check_safety` never checks that b is invertible. So a key can pass every check and still be unable to sign, and `verify_signature` then accepts the missing signature (None == None).
- `generate_safe_values` always publishes (N, 1). On that key both session keys of `message_exchange` are 1, and decryption returns the message modulo N.
- Two parties' session keys agree whenever their secrets a and c are congruent modulo N. The scripts draw a and c independently, so the keys can disagree.

## Model

| member | source | states |
|---|---|---|
| ExtEuclid.ModInverse | avispa.py:5-16 | raises (NoInverse) exactly when gcd(a, N) ≠ 1; otherwise the result v satisfies a·v ≡ 1 (mod N), v ≤ N, and v < N once N ≥ 2 |
| ExtEuclid.ModInverseIter | key.py:6-18 | the literal while loop with its Bezout invariants (N divides r − t·a and newr − newt·a) returns the same result as ModInverse, with the same gcd and inverse guarantees |
| ExtEuclid.Loop | avispa.py:8-11 | from any state satisfying the loop invariant, iterating ends with newr == 0 and the invariant still holding, since newr strictly decreases |
| ExtEuclid.StepInv | avispa.py:9-11 | one loop iteration preserves Bezout, the gcd of the remainders, the sign and size relations, and strictly decreases newr |
| ExtEuclid.FinalState | avispa.py:12-16 | when the loop stops, r is gcd(a, N) ≥ 1, and when r == 1 the normalised t is an inverse of a in [0, N] |
| ExtEuclid.Run | avispa.py:6-16 | the loop from its initial state ends with r == gcd(a, N), and for r == 1 the normalised t is an inverse in [0, N], below N once N ≥ 2 |
| GcdTheory.InverseImpliesCoprime | avispa.py:12-13 | any x with an inverse modulo N has gcd(x, N) == 1 |
| GcdTheory.GcdDivides | avispa.py:25 | math.gcd divides both arguments |
| GcdTheory.GcdGreatest | avispa.py:25 | every common divisor divides math.gcd |
| GcdTheory.CoprimeTo10007 | server2.py:6 | every 1 ≤ a < 10007 is coprime to 10007, the "large prime" modulus |
| Scheme.CoprimeIffInvertible | key.py:20-22 | gcd(a, N) == 1 exactly when a has an inverse modulo N |
| Scheme.CoprimeSquare | avispa.py:51 | a² is coprime to N exactly when a is, so mod_inverse(a ** 2, N) fails exactly when mod_inverse(a, N) does |
| Scheme.PublicValue | avispa.py:21-22 | for an inverse x of a, (x·b % N + r) % N lies in [0, N) and satisfies a·M ≡ b + a·r (mod N) |
| Scheme.PublicMUnique | avispa.py:21-22 | for a coprime to N, at most one M in [0, N) satisfies a·M ≡ b + a·r |
| Scheme.SignatureIsMessageTimesPublic | avispa.py:50-51 | with inverses of b and a², the signature formula equals A·M mod N for the key's public value M |
| Scheme.SessionKey | server2.py:21-23 | the session key (B^p + a) mod N, shared by every script, lies in [0, N) |
| Scheme.SessionKeysAgree | server2.py:21-23 | for a ≡ c (mod N), ((c^q mod N)^p + a) mod N equals ((a^p mod N)^q + c) mod N |
| Wire.ParseFormat | server2.py:49 | int(str(x)) == x for every integer x |
| Wire.SplitJoin | key.py:64 | splitting a comma-join of comma-free pieces returns the pieces |
| Wire.JoinSplit | key.py:64 | joining the pieces of a split returns the string |
| Wire.Decode | key.py:63-69 | decoding succeeds exactly when the split has the expected number of fields and each field is an integer; the values are the fields' integers in order; otherwise Malformed |
| Wire.DecodeEncode | key.py:53 | decoding a "{x0},{x1},..." message with its own arity returns the integers |
| Wire.DecodeWrongArity | key.py:63-69 | a message with a different number of fields than expected is rejected as Malformed |
| Wire.FormatInt | key.py:53 | str(x) is non-empty and contains no comma; ParseFormat is its inverse |
| Wire.ParseInt | key.py:64 | no contract of its own: int() on an optional sign and ASCII digits, None otherwise; ParseFormat states that it inverts FormatInt |
| Wire.Split | key.py:64 | str.split(","): at least one piece and no piece contains the separator; JoinSplit and SplitJoin relate it to Join |
| Wire.Join | key.py:53 | no contract of its own: the comma-join of an f-string with several fields; SplitJoin and JoinSplit state that Split inverts it |
| Avispa.PublicM | avispa.py:21-22 | succeeds exactly when gcd(a, N) == 1, and then yields the key's public value M |
| Avispa.CheckSafety | avispa.py:19-32 | true exactly when gcd(a, N) == 1, N ≥ 2, r ≤ N and the public value M is coprime to N; b enters M, but b's invertibility is never checked |
| Avispa.CheckSafetyIsAnalysis | avispa.py:58-84 | check_safety on (N, a, b, r) is true exactly when all four simulations pass on (N, M); a failing SATMC always means check_safety is false |
| Avispa.GenerateSafeValues | avispa.py:35-44 | succeeds exactly when check_safety holds, and then the public key is the constant (N, 1) |
| Avispa.Satmc | avispa.py:70-77 | safe exactly when gcd(a, N) == 1, with the "Key Compromise / Man-in-the-Middle Attack" label otherwise |
| Avispa.Ofmc | avispa.py:58-62 | no contract of its own: CheckSafetyIsAnalysis and DegenerateKeyPasses state when it passes |
| Avispa.ClAtse | avispa.py:64-68 | no contract of its own: CheckSafetyIsAnalysis and DegenerateKeyPasses state when it passes |
| Avispa.Ta4sp | avispa.py:79-84 | no contract of its own: Ta4spBoundary states its boundary and label, CheckSafetyIsAnalysis its part in check_safety |
| Avispa.DegenerateKeyPasses | avispa.py:58-68 | OFMC and CL-AtSe both pass on the public key (N, 1) for every N ≥ 2 |
| Avispa.Ta4spBoundary | avispa.py:79-84 | TA4SP accepts r == N and rejects r == N + 1 with the "Overflow Vulnerabilities / Timing Attacks" label |
| Avispa.AnalysisNeverRejects | avispa.py:87-137 | protocol_analysis returns exactly what generate_safe_values returns: the four simulations never reject the generated key |
| Avispa.ProtocolAnalysis | avispa.py:87-137 | no contract of its own: AnalysisNeverRejects states that it returns exactly what generate_safe_values returns |
| Avispa.Signing | avispa.py:47-55 | None exactly when b or a is not coprime to N; otherwise K < N and K == A·M mod N for the key's public value M |
| Avispa.VerifyOwnSignature | avispa.py:144-145 | verification accepts whatever signing produced, including None, and accepts a signature exactly when it is the recomputed one |
| Avispa.VerifySignature | avispa.py:144-145 | no contract of its own: VerifyOwnSignature states that it accepts exactly the recomputed signing result, None included |
| Avispa.SafeKeyWithoutSignature | avispa.py:41-54 | the key (3, 2, 3) modulo 10 passes check_safety, cannot sign (b = 2 has no inverse), and its missing signature still verifies |
| Avispa.DecryptEncrypt | avispa.py:190-199 | decrypting with the same secret and key gives P mod m, which equals P exactly when 0 ≤ P < m |
| Avispa.Encrypt | avispa.py:191 | no contract of its own: DecryptEncrypt states that Decrypt undoes it modulo m |
| Avispa.Decrypt | avispa.py:195 | no contract of its own: DecryptEncrypt states that it recovers P mod m from Encrypt's cipher |
| Avispa.ExchangeWithGeneratedKeys | avispa.py:149-204 | with the (N, 1) keys on both sides the signatures verify, K_A == K_B == 1, the cipher is (P + a) mod N, and decryption matches exactly when P < N |
| Avispa.MessageExchange | avispa.py:149-204 | no contract of its own: ExchangeWithGeneratedKeys states its outcome on the generated (N, 1) keys, AnalyzeAndExchange when the script runs it |
| Avispa.AnalyzeAndExchange | avispa.py:207-213 | the script's top level runs the exchange exactly when check_safety holds, and the exchange then delivers P mod N |
| Key.ValidKeyIffInverse | key.py:20-22 | is_valid_key holds exactly when mod_inverse succeeds |
| Key.IsValidKey | key.py:20-22 | no contract of its own: ValidKeyIffInverse states that it holds exactly when mod_inverse succeeds |
| Key.AliceSetup | key.py:26-37 | fails exactly when b is not coprime to N; otherwise A == b^p mod N < N, M == (1 + r) mod N because a == b, and K < N with K == A·M mod N |
| Key.FirstMessageRoundTrip | key.py:53 | "{A},{K}" splits back into A and K |
| Key.FirstMessage | key.py:53 | no contract of its own: FirstMessageRoundTrip states that it decodes back to A and K |
| Key.AliceReceive | key.py:57-76 | an empty payload is NoData, a payload that is not two integers is Malformed, and otherwise the session key lies in [0, N) and the "Signature verified" acknowledgement is sent |
| Key.SignatureIgnored | key.py:64-76 | the session key depends only on B and the acknowledgement is sent for every K_b; changing the received signature changes nothing |
| Key.WrongFieldCountRejected | key.py:63-69 | a reply with other than two fields is rejected as Malformed |
| Key.SessionKeysMatch | key.py:72 | with a Bob whose secret c ≡ a (mod N), Alice's (B^p + a) mod N equals Bob's (A^q + c) mod N |
| Server1.SearchInverse | server1.py:8-11 | the scan from x returns the least y in [x, N) with a·y % N == 1, and fails exactly when there is none |
| Server1.BruteInverse | server1.py:6-11 | returns the least x in [1, N) with a·x % N == 1, and raises exactly when no such x exists |
| Server1.BruteAgreesWithEuclid | server1.py:6-11 | for N ≥ 2 the brute-force search equals the extended-Euclid mod_inverse, errors included |
| Server1.BruteDiffersAtOne | server1.py:8 | for N == 1 the search raises while the extended-Euclid version succeeds |
| Server1.PublicM | server1.py:20-21 | succeeds exactly when gcd(a, N) == 1, and then yields the key's public value M |
| Server1.KeyTest | server1.py:19-22 | accepts exactly the keys with a, b and M coprime to N and r ≤ N |
| Server1.RangeTestRedundant | server1.py:18-22 | for any draw of randint(1, N), the r ≤ N test never rejects |
| Server1.GenerateKeys | server1.py:14-23 | returns the first acceptable draw (a, b and M coprime to N), with public key (M, N); None exactly when no draw is acceptable |
| Server1.SignMessage | server1.py:26-30 | raises exactly when b or a is not coprime to N; otherwise K < N and K == A·M mod N |
| Server1.SignMessageIsSigning | server1.py:26-30 | for N ≥ 2 sign_message computes the same value as avispa's signing, raising where signing returns None |
| Server1.GeneratedKeysSign | server1.py:19-29 | every generated key signs without raising, and the signature is A·M mod N for the published M |
| Server1.AnnouncementRoundTrip | server1.py:53 | "{M},{N},{A},{K}" splits back into M, N, A and K in that order |
| Server1.Announcement | server1.py:53 | no contract of its own: AnnouncementRoundTrip states that it decodes back in (M, N, A, K) order |
| Server1.StartServer | server1.py:33-58 | with keys modulo 10007, the announcement decodes to (M, 10007, 1234, 1234·M mod 10007) |
| Server2.GenerateKeyPair | server2.py:9-15 | returns a draw with 2 ≤ a, p ≤ N − 1 and gcd(a, N) == 1; None exactly when no draw has gcd(a, N) == 1 |
| Server2.FirstDrawAccepted | server2.py:11-15 | with N = 10007 the first draw is always returned |
| Server2.CalculateValueModulo | server2.py:17-19 | a^p mod N depends on a only modulo N |
| Server2.CalculateValue | server2.py:17-19 | pow(a, p, N) lies in [0, N); CalculateValueModulo states that it depends on a only modulo N |
| Server2.CalculateSessionKey | server2.py:21-23 | (value^p + a) mod N lies in [0, N); SessionKeysAgreeWhenCongruent states when Alice's and the client's keys agree |
| Server2.SessionKeysAgreeWhenCongruent | server2.py:21-23 | Alice's (B^p + a) mod N equals the client's (A^q + c) mod N whenever a ≡ c (mod N) |
| Server2.SessionKeysCanDiffer | server2.py:28-31 | with a = 2, p = 2, c = 3, q = 1 Alice's key is 11 and Bob's is 7 |
| Server2.OfferRoundTrip | server2.py:45 | "{A},{b}" splits back into A and b |
| Server2.Offer | server2.py:45 | no contract of its own: OfferRoundTrip states that it decodes back to A and b |
| Server2.AliceSessionKey | server2.py:48-52 | fails exactly when the reply is not two integers; otherwise the key lies in [0, N) |
| Server2.ReplyRoundTrip | server2.py:49-52 | a reply "{B},{c}" yields the session key of B |
| Server2.StartServer | server2.py:26-57 | the offer decodes to (a^p mod N, b) for the first draw, and the session key is computed exactly when the reply parses |
| Server2.HonestExchangeAgrees | server2.py:26-57 | when Bob's c ≡ a (mod N) and he replies "{c^q mod N},{c}", Alice's key equals Bob's |
| Server.CalculateSignature | server.py:5-6 | A^b mod N lies in [0, N) |
| Server.VerifiesExactly | server.py:44 | verification accepts exactly B^b mod N; an honest signature verifies and a value outside [0, N) never does |
| Server.Verifies | server.py:44 | no contract of its own: VerifiesExactly states that it accepts exactly B^b mod N |
| Server.SignatureModulo | server.py:5-6 | the signature depends on B only modulo N |
| Server.AliceSetup | server.py:13-18 | A == a^p mod N and its signature both lie in [0, N), and the signature verifies |
| Server.MessageToBobRoundTrip | server.py:32 | "{A},{signature_A},{b},{N}" splits back into its four integers, the fields client.py reads |
| Server.MessageToBob | server.py:32 | no contract of its own: MessageToBobRoundTrip states that it decodes back to its four integers |
| Server.AliceReceive | server.py:36-51 | a reply that is not two integers is unparsable; the session key is computed exactly when the signature verifies, and lies in [0, N) |
| Server.HonestReplyAccepted | server.py:44-48 | an honestly signed reply yields (B^p + a) mod N; a signature outside [0, N) is rejected |
| Server.HonestExchangeAgrees | server.py:44-48 | with a Bob whose c ≡ a (mod N), KA equals Bob's (A^q + c) mod N |

## Left out

- Sockets, websockets, printing and `exit()`: these are I/O. The model keeps only the strings sent and received, and an error result where a script prints and exits.
- Random draws: `getrandbits` and `randint` values are parameters. Their ranges become preconditions (N ≥ 3 in `avispa.py`, N ≥ 2 in `server.py`), because `randint` raises for smaller N.
- Server1.GenerateKeys: the rejection loop runs over a finite sequence of draws and returns None when they run out, where the script would keep drawing forever.
- Server2.GenerateKeyPair: the rejection loop runs over a finite sequence of draws, for the same reason.
- ExtEuclid.ModInverse: requires a ≥ 0 and N ≥ 1, which every caller guarantees. With N = 0 the Python never divides by zero (the first quotient is 0 // a): the loop ends with r == a, so it raises ValueError for a ≥ 2 and returns a for a in {0, 1}.
- Wire.ParseInt: accepts only an optional sign followed by ASCII digits. Python's `int` also accepts surrounding whitespace, underscores between digits and non-ASCII digits.
- `pow(a, -2, N)` (key.py:37) is modelled as an inverse of a² modulo N. Python computes inv(a)² mod N, which is the same residue.
- The primality of 2**64 + 37 (key.py:25) is not claimed. Key.AliceSetup states its result in terms of gcd(b, N) instead.
- client.py is not part of this model. Its SHA-256 "signature" is a foreign call. Only its B and KB formulas appear, in the session-key agreement lemmas.
- dh.py and rsa.py are not part of this model. They are library key generation and wall-clock timing.
- `sign_message` of avispa.py (lines 140-141) is a plain alias of `signing` and is not modelled separately.
