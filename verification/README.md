# btclib_secp256k1: a verified model of what the Python composes

`btclib_secp256k1` is a set of validated bindings over libsecp256k1. This project models the places
where its Python builds something out of the C calls - a MuSig2 session whose cache is tweaked in
place and whose secret nonce is spent under a lock, two self-checks that tell a wrong argument from
a fault, a search over nonces, the two directions of Silent Payments, held objects that stand in for
stateless functions, and the buffers secrets pass through - and proves what those compositions
promise, for every input, every run and every interleaving. `dafny verify dfyconfig.toml` checks all
of it.

## The layer underneath

* **The group** (`group.dfy`). A point is its exponent to the base G, an integer below the prime
  order n, and 0 is infinity. `C` is a constant without a value: any prime n, any field order p with
  n < p < 2n, any x coordinate that two exponents share exactly when they are equal or opposite, any
  parity of y that negation flips. A 13-element-field curve of 7 points shows that these conditions
  can be met. Multiplication is repeated addition (`MulIsProduct` ties it to the integers), and
  inverses come from Euclid's algorithm on the primality of n; none of it is taken for granted.
* **The hashes** (`H`). Arbitrary functions, so nothing below depends on what a hash answers.
  Those the standards require to land in [1, n-1] are typed that way.
* **The C calls**. Each is a function or method holding the equation its standard gives it: BIP340
  "Verification" and "Default Signing", the algorithms of BIP327, sections 4.1.3, 4.1.4 and 4.1.6 of
  SEC 1 version 2, BIP341's key tweak, BIP352's "Creating outputs" and "Scanning". libsecp256k1
  itself is not verified here. Each of these equations is then related to an independent statement:
  signing to verification, verification to recovery, the sender to the scanner, the private tweak to
  the public one.
* **Memory** (`memory.dfy`). An `Arena` lists every scratch buffer that a key, a nonce, a tweak or
  randomness passes through, so that "nothing left behind" (`LeavesOnlyZeros`) is a claim about all of
  them, on every exit. Two calls leave something: `ssa.sign_custom` its copy of the auxiliary
  randomness, and a scan the tweak beside a label it refuses. For both `LeavesBehind` says exactly
  what is left and when nothing is. (Of `keys.prvkey_negate` nothing is claimed where it refuses its
  key.) A scalar argument is a value or an array the caller owns (`ScalarArg`), which `scalar` hands on
  uncopied as the code does; every call that takes a private key promises that such an array still
  holds what it held (`Kept`), or, where the array is also the destination of the result, that it is
  written only on success (`KeptBut`, `Delivered`).

Exceptions are values: `ValueErrorAt(i)` is a ValueError naming the position of what it refused.

## Main results

* **MuSig2.** Whatever the keys, repetitions included, and whatever the run of plain and x-only
  tweaks, the aggregate of partial signatures that pass `partial_sig_verify` verifies as a BIP340
  signature under the x of the tweaked key *if and only if* the effective aggregate nonce is not
  infinity; so an aggregate that fails otherwise contains a partial signature the check rejects, and
  exactly one scalar passes the check. `MusigRound.SigningRound` carries this through the objects,
  from serialized keys to the final signature.
* **SecretNonce under threads.** A step machine with one transition a statement; for every schedule
  of any number of calls the C signing call happens at most once and on the live nonce, memory that
  is not zero has one owner, the outcomes are those of a sequential order that extends real time, some
  thread can always move, and every fair schedule ends with every call returned. The same machine
  without the lock signs twice.
* **ECDSA.** The keys a low-s signature verifies under are exactly the keys recovery answers; an id
  recovers a key exactly when it names the nonce point; both self-checks diagnose exactly; grinding
  answers if and only if a first low-r attempt exists, and answers that one.
* **Silent Payments.** Of a transaction that carries the outputs made for its scan key, the scanner
  answers each of them at the step of its k *if and only if* none is listed behind another output that
  matches at that step, the outputs of lower k aside (`FoundInTurnExactly`, `EveryOutputIsFound`); and
  then every tweak found makes a private key for its output, for addresses published plain or labeled
  (`EveryPaymentIsSpendable`). A scan without labels meets the condition always
  (`WithoutLabelsAllAreFound`). The condition is on the order of the transaction, because the scan takes
  the first match and moves on: `ListedBehindALabelIsLost` is a family of transactions whose payment
  the scan never answers, and answers with the two outputs the other way round, and `AnsweredExactly`
  says of a single output of any payment when it is answered. Where outputs match at several steps,
  `AnsweredIffPicked` says without running the scan which of them are answered at any position: those
  held by `Picks`, a sequence of places each of which matches at its step behind no open match. Only
  the distinctness of the outputs derived for one scan key is assumed; other outputs may repeat.
* **Held objects.** A `PubkeyTweakChain` is the fold of `pubkey_tweak_add`; a `Signer` is the
  stateless functions until it is wiped; both for every run, of the specification and of the objects
  themselves (`Keys.Walk`, `Ssa.Life`). Calls made in turn on one `SecretNonce` object are answered as
  the sequential history of the step machine says (`MusigObjects.UseInTurn`).

## Where the code and its documentation differ

* `_pubkey_sort_` says it answers the caller's own objects. It does unless two *different* pointer
  objects hold one address, in which case only the last of them is ever answered
  (`SortedObjectsAreTheCallers` gives the exact condition, `AliasesAreAnsweredAsOne` an input that
  fails it; `keys.py:893-895`).
* A chain is documented as ended by a refused tweak. A tweak Python refuses before the C call leaves
  it as it was; only one the group refuses ends it (`RefusedTweak`; `keys.py:447-470`).
* `_scan_outputs_` says that what wipes the cached tweaks is in force while they are being made. The
  assignment that fills the cache evaluates its right-hand side first, so a label that is not 33 octets
  is refused after its tweak was copied, into a buffer that reaches no cache and that the `finally` does
  not overwrite (`silentpayments.py:568-577`, `712-715`). Something is left if and only if the first item
  refused has a tweak of 32 octets that are not all zero (`ScanOutputsChecked`), so never where every
  label is of 33 octets (`GoodLabelsStrandNothing`); `ShortLabelStrandsItsTweak` is a failing input.
* `_grind` documents no OverflowError; without a low r below counter 2^32 the conversion of the
  counter to four octets raises one (`dsa.py:250-252`).

## Model

| member | source | states |
|---|---|---|
| `Group.MulIsProduct` | btclib_secp256k1/keys.py:504-533 | the repeated addition every C product is modelled by is the integer product modulo n |
| `Group.MulInv` | btclib_secp256k1/dsa.py:171-204 | a nonzero scalar has an inverse modulo n, which signing and recovery divide by; by Euclid from primality |
| `Group.MulCancel` | btclib_secp256k1/recovery.py:338-369 | multiplying by a nonzero scalar is injective |
| `Group.ReducedExact` | btclib_secp256k1/ssa.py:125-145 | reducing 32 octets modulo n keeps what is below n and takes away a multiple of n |
| `Group.LiftXExact` | btclib_secp256k1/xonly.py:515-560 | lifting an x answers exactly the even-y point with that x, or nothing if there is none |
| `Group.SameX` | btclib_secp256k1/keys.py:805-829 | two points are one exactly when x and parity agree; an x alone leaves them equal or opposite |
| `Bip340.VerifyEquation` | btclib_secp256k1/ssa.py:497-534 | a signature whose s is R + e * even(P) verifies if and only if R is a point with even y and the signed x |
| `Musig.CountedByHash` | btclib_secp256k1/musig.py:313-331 | in any list a key equal to the first one that differs from keys[0] counts once, every other key its hash with the list; with all keys equal, its hash |
| `Musig.AggregateOfTwo` | btclib_secp256k1/musig.py:313-331 | the aggregate of one key and of two different ones, written out in hashes |
| `Musig.AggregatesUntweaked` | btclib_secp256k1/musig.py:313-331 | a list aggregates exactly where it has keys that do not cancel, to their sum, with no tweak in it |
| `Musig.AggregateInvariant` | btclib_secp256k1/musig.py:313-331 | a fresh cache satisfies Q = gacc * Q_0 + tacc * G |
| `Musig.TweakKeepsInvariant` | btclib_secp256k1/musig.py:422-446 | each accepted tweak of either kind keeps Q = gacc * Q_0 + tacc * G and the key list |
| `Musig.RunKeepsInvariant` | btclib_secp256k1/musig.py:358-446 | so does every run of accepted and refused tweaks |
| `Musig.PartialVerifyIsShare` | btclib_secp256k1/musig.py:915-960 | the check on a partial signature accepts exactly one scalar, the signer's share of s |
| `Musig.PartialSignIsShare` | btclib_secp256k1/musig.py:743-753 | what the signing call computes is that share |
| `Musig.OnlyTheHonestPartialPasses` | btclib_secp256k1/musig.py:775-787 | an honest partial signature always passes the check `partial_sign` ends in, and no other scalar does |
| `Musig.ShareSum` | btclib_secp256k1/musig.py:962-1004 | any number of passing partial signatures add up to the signed nonce sum plus e times the signed key sum |
| `Musig.KeyAndTweakPart` | btclib_secp256k1/musig.py:903-913 | the tweak part of the session turns the key sum into the even-y aggregate key |
| `Musig.AllPassVerifies` | btclib_secp256k1/musig.py:915-1004 | if every partial signature passes, the aggregate verifies under the x of the tweaked key if and only if the effective nonce is not infinity |
| `Musig.FailureHasACulprit` | btclib_secp256k1/musig.py:915-960 | an aggregate that does not verify contains a partial signature that is rejected for its own signer |
| `Musig.HonestSessionVerifies` | btclib_secp256k1/musig.py:864-1004 | honest signers, keys repeated or not, any run of tweaks: the aggregate verifies exactly when the nonces do not cancel |
| `MusigObjects.NonceRoundTrip` | btclib_secp256k1/musig.py:100-181 | nonces read back as written, infinities only where the nonce is an aggregate |
| `MusigObjects.ParsedNonceIsWritten` | btclib_secp256k1/musig.py:100-181 | what reads as a nonce is the octets written for it: two 33-octet points, zeros only in an aggregate |
| `MusigObjects.ParseEach` | btclib_secp256k1/musig.py:260-266 | a list of contributions parses whole, or the first one refused is named by its index |
| `MusigObjects.NonceAgg` | btclib_secp256k1/musig.py:249-271 | the aggregate nonce is the two sums; an empty or malformed list raises |
| `MusigObjects.KeyAggCache.constructor` | btclib_secp256k1/musig.py:313-331 | the cache starts valid, and remembers the x of the untweaked key |
| `MusigObjects.KeyAggCache.Create` | btclib_secp256k1/musig.py:313-331 | which lists of keys are aggregated, and which exception the others raise |
| `MusigObjects.KeyAggCache.PubkeyGet` | btclib_secp256k1/musig.py:333-356 | the octets answered parse to the current, tweaked aggregate |
| `MusigObjects.KeyAggCache.TweakAdd` | btclib_secp256k1/musig.py:389-446 | the cache moves to the tweaked aggregate exactly where the tweak is accepted, stays valid, and the answer is the new key |
| `MusigObjects.SortedSignersAggregateAlike` | btclib_secp256k1/musig.py:287-291 | keys sorted first reach one aggregate, before and after any tweaks, independently of the order they arrived in |
| `MusigObjects.Session.Create` | btclib_secp256k1/musig.py:903-913 | the session fixes the nonce, the message and the cache as it stood: which octets are hashed into the coefficient and the challenge, G in place of a nonce at infinity, and the part the tweaks contribute |
| `MusigObjects.Session.PartialSigVerify` | btclib_secp256k1/musig.py:943-960 | the verdict is the partial verification equation over what was parsed |
| `MusigObjects.Session.PartialSigAggregate` | btclib_secp256k1/musig.py:987-1004 | the aggregate over the parsed scalars, or the index of the first one not below n |
| `MusigObjects.SecretNonce.Sign` | btclib_secp256k1/musig.py:736-788 | on every outcome the field, the nonce memory and the keypair are gone and the caller's key array is as it was; the answer is the honest partial signature, the check after it never raises, and the outcome is the one the step machine gives a call that runs alone |
| `MusigObjects.SecretNonce.Abandon` | btclib_secp256k1/musig.py:790-834 | wiping leaves the field None and the memory zero, twice over as well as once |
| `MusigObjects.UseOnce` | btclib_secp256k1/musig.py:736-809 | a call on the object is the step machine's call: same outcome, and nothing left in field or memory |
| `MusigObjects.UseInTurn` | btclib_secp256k1/musig.py:690-861 | any calls made in turn on one object are answered as the sequential history says: one finds the nonce, the rest do not |
| `MusigObjects.NonceInputsApart` | btclib_secp256k1/musig.py:523-539 | key, private key, cache, message and extra input all reach the hash: different arguments are different inputs, a missing one told from any given |
| `MusigObjects.NonceGen` | btclib_secp256k1/musig.py:517-546 | a live secret nonce for the key given, the two hashes of the randomness and the arguments, of which no copy is left; exactly which arguments are refused, lengths included |
| `MusigObjects.NonceGenCounter` | btclib_secp256k1/musig.py:592-622 | the same from a 64-bit counter and a private key; the keypair is wiped on every exit and the caller's key array untouched |
| `MusigRound.AllTweaks` | btclib_secp256k1/musig.py:358-446 | a run of tweaks on the object is the run on its value, refused ones changing nothing |
| `MusigRound.AllNonces` | btclib_secp256k1/musig.py:464-546 | every signer's nonce, none sharing memory; what they hold is all that is left in memory |
| `MusigRound.SharedNonce` | btclib_secp256k1/musig.py:228-271 | serialized public nonces aggregate to octets that every signer's session reads as the sum |
| `MusigRound.AllSignatures` | btclib_secp256k1/musig.py:690-788 | each signer's nonce gives its honest partial signature, none disturbs another's nonce or the cache, and afterwards every nonce is gone from its field and from memory |
| `MusigRound.SigningRound` | btclib_secp256k1/musig.py:313-1004 | from private keys to signature through every object: it verifies under the key the cache answers if and only if the nonces do not cancel, and no nonce, keypair or randomness is left in memory |
| `SecretNonceThreads.StepKeepsInvariant` | btclib_secp256k1/musig.py:736-770 | every statement of every thread keeps the lock, ownership, memory and outcome invariant |
| `SecretNonceThreads.EveryRunKeepsInvariant` | btclib_secp256k1/musig.py:690-861 | so every schedule of any number of calls keeps it |
| `SecretNonceThreads.AtMostOnce` | btclib_secp256k1/musig.py:856-861 | at most one C signing call is made, it finds the live nonce, and no two threads can reach that nonce |
| `SecretNonceThreads.SecretIsOwned` | btclib_secp256k1/musig.py:736-770 | memory that is not zero is held by the field or by a thread between take and wipe |
| `SecretNonceThreads.ExactlyOneTakes` | tests/test_concurrency.py:147-181 | of N calls of `partial_sign` one takes the nonce and the other N - 1 raise ValueError |
| `SecretNonceThreads.OneByOneAt` | btclib_secp256k1/musig.py:856-861 | in calls made one after the other, the first finds the nonce and the rest do not |
| `SecretNonceThreads.HistoryIsSequential` | btclib_secp256k1/musig.py:836-861 | every outcome is the one of the calls made one after the other, in the order of the takes |
| `SecretNonceThreads.OrderGrows` | btclib_secp256k1/musig.py:856-861 | later steps only extend the order of the takes |
| `SecretNonceThreads.FinishedComesFirst` | btclib_secp256k1/musig.py:836-861 | the order extends real time: what had finished before another entered precedes it |
| `SecretNonceThreads.SomeThreadMoves` | btclib_secp256k1/musig.py:856-861 | no deadlock: while a call is unfinished some thread can move |
| `SecretNonceProgress.EveryMoveCounts` | btclib_secp256k1/musig.py:736-770 | a step of a thread that is not blocked leaves the calls less to do; one of a blocked thread changes nothing |
| `SecretNonceProgress.MovesAreBounded` | btclib_secp256k1/musig.py:736-809 | no schedule, with the lock or without, makes more than nine moves a call |
| `SecretNonceProgress.FairSchedulesFinish` | btclib_secp256k1/musig.py:690-861 | termination: nine rounds a call, each coming back to every thread in any order, and every call has returned |
| `SecretNonceProgress.StoppedIsFinished` | btclib_secp256k1/musig.py:856-861 | no thread can move if and only if every call has returned |
| `SecretNonceThreads.WithoutTheLockItSignsTwice` | tests/test_concurrency.py:147-160 | with the read and the clear as two unlocked statements, a schedule hands the live nonce over twice |
| `Ecdsa.NoncePointSolves` | btclib_secp256k1/dsa.py:557-601 | the point verification computes is the one solution of s * R = z + r * Q |
| `Ecdsa.VerifyExact` | btclib_secp256k1/dsa.py:557-601 | verification over the integers: 2s < n, r and s not 0, and a point R with s * R = z + r * Q whose x is r or r + n |
| `Ecdsa.NormalizedVerdict` | btclib_secp256k1/dsa.py:597-601 | normalizing first gives (r, s) and (r, n-s) the verdict of the bare equation; without it exactly the lower form of a valid pair verifies |
| `Ecdsa.NormalizedTwice` | btclib_secp256k1/dsa.py:712-713 | normalization is idempotent, the same for both forms, keeps r, and answers s or n - s, the one below n / 2 |
| `Ecdsa.SignWithExact` | btclib_secp256k1/dsa.py:171-204 | when a nonce signs, and what: r is x modulo n, s the lower of the solutions of s * k = z + r * d up to sign, neither 0 |
| `Ecdsa.SignedNoncePoint` | btclib_secp256k1/dsa.py:171-204 | the nonce point a signature implies is the one signed with, up to the sign low-s gave it, and the id names it |
| `Ecdsa.SignedVerifies` | btclib_secp256k1/dsa.py:320-324 | what is signed verifies under the signer's key, so the fault branch is not reached |
| `Ecdsa.NamedExact` | btclib_secp256k1/recovery.py:464-490 | r and an id name a point exactly when its x is r, or r + n for ids 2 and 3, and its y is odd for ids 1 and 3; n < p < 2n bounds the candidates |
| `Ecdsa.RecoverExact` | btclib_secp256k1/recovery.py:338-369 | an id recovers a key if and only if the equation holds under it and the id names the nonce point |
| `Ecdsa.VerifyingKeysAreTheRecovered` | btclib_secp256k1/recovery.py:54-62 | a low-s signature verifies under a key if and only if one of the four ids recovers that key |
| `Ecdsa.SignedRecovers` | btclib_secp256k1/recovery.py:156-224 | a recoverable signature recovers its signer |
| `Dsa.CheckedDiagnosis` | btclib_secp256k1/dsa.py:311-324 | normal return, ValueError and RuntimeError are exactly the three cases of which key recovers; total, an unreadable key included; a high s is a RuntimeError whatever the key |
| `Dsa.RecoveredDiagnosis` | btclib_secp256k1/recovery.py:136-153 | normal return means (r, s), low or normalized, verifies under the key compared and the id is the right one; the other two outcomes are exact as well |
| `Dsa.SignatureObject.Normalize` | btclib_secp256k1/dsa.py:689-713 | in place: the one of s and n - s below n / 2, same r, unchanged when already low |
| `Dsa.SignatureObject.VerifyWith` | btclib_secp256k1/dsa.py:557-601 | with `normalize` the verdict is the equation's on what came in and the object is left low; without it a high s fails and nothing changes |
| `Dsa.SignExact` | btclib_secp256k1/dsa.py:171-204 | signing succeeds exactly for a key in [1, n-1] and a nonce that signs, over the digest of the message, with the nonce of the message, the key and the entropy given |
| `Dsa.SignIsSound` | btclib_secp256k1/dsa.py:171-204 | whatever the entropy, what the call answers verifies |
| `Dsa.EntropyIsTheCounter` | btclib_secp256k1/dsa.py:246-252 | the counter reads back from the first four octets, least significant first; the other 28 are zero |
| `Dsa.AttemptIs` | btclib_secp256k1/dsa.py:246-253 | the i-th attempt is the signature with that entropy |
| `Dsa.PlainFirst` | btclib_secp256k1/dsa.py:246-253 | and the first of them the one with none |
| `Dsa.EntropyTellsCountersApart` | btclib_secp256k1/dsa.py:246-252 | the 32 octets of a retry differ for different counters |
| `Dsa.OneFirstLow` | btclib_secp256k1/dsa.py:248-253 | there is at most one first low-r attempt |
| `Dsa.GroundIs` | btclib_secp256k1/dsa.py:207-253 | the ground signature is unique, and verifies under the signer's key |
| `Dsa.Grind` | btclib_secp256k1/dsa.py:246-253 | it returns if and only if a first low-r attempt exists below 2^32, holding it; otherwise which exception and why |
| `Dsa.SignChecked` | btclib_secp256k1/dsa.py:327-403 | succeeds exactly where no argument is refused, there is a signature to settle on, ground where asked, and a key given passes; then it verifies under the signer's key and any key given; no fault is ever reported; the caller's key array untouched |
| `Dsa.SignRecoverable` | btclib_secp256k1/recovery.py:156-224 | succeeds exactly when the arguments are accepted and a given key is the signer's; the pair recovers the signer |
| `SignatureOctets.CompactRoundTrip` | btclib_secp256k1/dsa.py:1059-1081 | 64 octets parse to a signature if and only if that signature serializes to them |
| `SignatureOctets.LowRIsTheTopBit` | btclib_secp256k1/dsa.py:821-821 | the octet test is r < 2^255 |
| `SignatureOctets.ContentExact` | btclib_secp256k1/dsa.py:1021-1056 | minimal, non-negative content octets are the ones written for the value they hold |
| `SignatureOctets.MinimalIsShortest` | btclib_secp256k1/dsa.py:939-981 | minimal content is: no leading octet could be dropped without changing the two's complement number |
| `SignatureOctets.ContentReads` | btclib_secp256k1/dsa.py:49-58 | written content is minimal, reads back, and is 33 octets exactly when the top bit is set |
| `SignatureOctets.DerRoundTrip` | btclib_secp256k1/dsa.py:1021-1056 | every signature survives DER; the length is 6 + lenR + lenS, at most 72, and at most 70 where both tops are clear |
| `SignatureOctets.DerCanonical` | tests/test_vectors.py:1183-1232 | parsed octets serialize back to themselves exactly when neither integer has its top bit set or reaches n, which the parser accepts with loss; whatever form their lengths have |
| `SignatureOctets.LengthExact` | btclib_secp256k1/dsa.py:939-981 | a length that is read is the shortest form of its value, one octet or more |
| `SignatureOctets.ContentsExact` | btclib_secp256k1/dsa.py:939-981 | octets that parse are one SEQUENCE of two minimal INTEGERs and nothing else |
| `SignatureOctets.ParsesExactly` | tests/test_vectors.py:1183-1232 | every SEQUENCE of two minimal INTEGERs parses, to the numbers as they stand, a top bit included, and zero for one that is not below n |
| `SignatureOctets.KnownWritten` | btclib_secp256k1/dsa.py:1021-1056 | the octets of one encoding |
| `SignatureOctets.KnownRead` | tests/test_vectors.py:1183-1210 | one of the encodings that parse |
| `SignatureOctets.KnownRefused` | tests/test_vectors.py:1226-1235 | an octet after the signature is refused |
| `SignatureOctets.CompactThroughDer` | btclib_secp256k1/dsa.py:855-889 | `to_compact(to_der(c))` is c for every c that parses |
| `SignatureOctets.SeventyOctetsWithoutLowR` | README.md:892-902 | 70 octets do not imply a low r |
| `Keys.ParseSerialize` | btclib_secp256k1/keys.py:1050-1112 | a point reads back from either serialization |
| `Keys.ParsedIsPoint` | btclib_secp256k1/keys.py:928-963 | what parses is a finite point whose serialization is the octets parsed, or their plain 65-octet form where the prefix was 06 or 07 |
| `Keys.PrvkeyNegate` | btclib_secp256k1/keys.py:109-133 | the negation of a valid key, delivered as a value or in the destination; the caller's own key array is untouched unless it is that destination, and then only on success; the copy is zero wherever a key was accepted |
| `Keys.PubkeyTweakChain.Create` | btclib_secp256k1/keys.py:444-445 | a chain holds the point parsed, which is finite |
| `Keys.PubkeyTweakChain.TweakAdd` | btclib_secp256k1/keys.py:447-470 | the held point and the answer after every kind of tweak, refused ones told apart; a held point stays finite |
| `Keys.PubkeyTweakChain.Pubkey` | btclib_secp256k1/keys.py:472-487 | the octets answered read back as the very point held, in the form asked for; RuntimeError exactly where a tweak has broken the chain |
| `Keys.Walk` | btclib_secp256k1/keys.py:404-501 | a path walked on the object: the answers and the held point of the specification, which `ChainRefinesFold` relates to the stateless fold |
| `Keys.TweakAddExact` | btclib_secp256k1/keys.py:395-401 | a key takes a tweak exactly where the tweak is below n and does not cancel it, and becomes k + t modulo n, in the form asked for |
| `Keys.ChainRefinesFold` | btclib_secp256k1/keys.py:404-501 | after any path, serialized either way at each step, the chain holds (k + sum of tweaks) * G and answers what the stateless fold does, breaking at the same step |
| `Keys.BrokenForGood` | btclib_secp256k1/keys.py:404-443 | a chain broken by a tweak never again answers a key |
| `Keys.RefusedTweak` | btclib_secp256k1/keys.py:447-470 | a refused tweak leaves the point held if and only if Python refused it; -1 does, n does not |
| `Keys.PubkeyTweakMulSum` | btclib_secp256k1/keys.py:784-802 | the sum of the products, None exactly where it is infinity; succeeds exactly on equally long, nonempty, valid terms |
| `Keys.SumIsCombination` | btclib_secp256k1/keys.py:620-633 | that sum is the integer combination modulo n, whatever the partial sums were |
| `Keys.InsertSorts` | btclib_secp256k1/keys.py:853-895 | inserting by compressed form keeps the order |
| `Keys.BeforeIsCompressedOrder` | btclib_secp256k1/keys.py:805-829 | the order is that of the 33 octets: the prefix first, then x |
| `Keys.SortedAscends` | btclib_secp256k1/keys.py:853-895 | sorted means that the compressed forms do not go down |
| `Keys.PubkeySortCall` | btclib_secp256k1/keys.py:883-886 | only the array of addresses is reordered: sorted, and the same addresses |
| `Keys.OwnersHold` | btclib_secp256k1/keys.py:894-894 | the dict holds every address handed in, and only objects handed in |
| `Keys.PubkeySort` | btclib_secp256k1/keys.py:875-895 | the lookup never misses; the answer is in order, over the same addresses, made of objects handed in |
| `Keys.SortedIsUnique` | btclib_secp256k1/keys.py:853-895 | finite points have one order by compressed form |
| `Keys.SortBoth` | btclib_secp256k1/keys.py:853-895 | two orders of the same signers' keys, in whatever objects, sort to one sequence of points |
| `Keys.SortedObjectsAreTheCallers` | btclib_secp256k1/keys.py:888-895 | the answer is a permutation of the very objects handed in if and only if no two different ones share an address |
| `Keys.AliasesAreAnsweredAsOne` | btclib_secp256k1/keys.py:894-895 | two objects at one address are answered as the second of them, twice |
| `XOnlyKeys.EverySerializationIsOneKey` | btclib_secp256k1/xonly.py:515-560 | 32, 33 and 65 octets of either y parse to one even-y key |
| `XOnlyKeys.CheckIsTweakAdd` | btclib_secp256k1/xonly.py:438-450 | the commitment check answers True if and only if `tweak_add` answers that x and parity |
| `XOnlyKeys.CheckExact` | btclib_secp256k1/xonly.py:438-450 | ValueError exactly for an unreadable key, a parity that is no bit or a tweak that does not fit; False for every other mismatch, a tweak of n or more and a sum at infinity among them |
| `XOnlyKeys.KeyPathCommutes` | btclib_secp256k1/xonly.py:395-402 | the private tweak fails exactly when the public one does, and otherwise its point is the tweaked key, parity included |
| `XOnlyKeys.KeypairTweakCall` | btclib_secp256k1/xonly.py:502-503 | the keypair becomes that of the tweaked key, or zeros |
| `XOnlyKeys.PrvkeyTweakAdd` | btclib_secp256k1/xonly.py:498-512 | the tweaked key is delivered exactly where the tweak is accepted; no scratch buffer keeps a secret on any exit, a refused call leaves the destination alone, and a key or tweak array is written only where it is the destination |
| `XOnlyKeys.ToPubkeyIsTheEvenPoint` | btclib_secp256k1/xonly.py:664-677 | both branches answer the even-y point that x-only parsing names |
| `XOnlyKeys.MusigTweakIsTaproot` | btclib_secp256k1/musig.py:389-420 | an x-only tweak of the cache is the BIP341 tweak of its x, fails with it, and passes the commitment check |
| `XOnlyKeys.MusigPlainTweakIsTweakAdd` | btclib_secp256k1/musig.py:358-387 | a plain tweak of the cache is `pubkey_tweak_add` of its key |
| `Ssa.NonceOfTheSigningKey` | btclib_secp256k1/ssa.py:125-131 | the nonce is of the private key, or of n minus it where the point has odd y; so a key and its negation have one nonce and one signature |
| `Ssa.SignCallExact` | btclib_secp256k1/ssa.py:664-674 | signing succeeds exactly where the nonce is not 0 modulo n, and answers the x of R and k + e * d, both signs taken for even y |
| `Ssa.SignedVerifies` | btclib_secp256k1/ssa.py:582-627 | for keys of either parity the signature verifies and its first half is the x of the derived nonce modulo n |
| `Ssa.TweakedKeySigns` | btclib_secp256k1/ssa.py:148-220 | the tweaked private key signs for the tweaked x |
| `Ssa.SignWith` | btclib_secp256k1/ssa.py:664-724 | both signing calls answer alike with and without the check, which never fails, and the signature verifies; the one buffer made is the copy of the auxiliary randomness for a message of any length |
| `Ssa.Sign` | btclib_secp256k1/ssa.py:148-269 | the exact answer for every argument; the keypair is zero on every exit, whatever was refused, and the caller's key array untouched; nothing at all is left of a signed hash, and of a message of any length exactly the copy of its auxiliary randomness |
| `Ssa.NonceBip340` | btclib_secp256k1/ssa.py:125-145 | the 32 octets that, reduced modulo n, are the k of the signature over the same arguments; no buffer is left holding them or the negated key, and the caller's key array is untouched unless it is the destination |
| `Ssa.Signer.Create` | btclib_secp256k1/ssa.py:333-336 | a signer holds one keypair, the only buffer left |
| `Ssa.Signer.SignMessage` | btclib_secp256k1/ssa.py:338-413 | the held answer, verifying under the held key |
| `Ssa.Signer.Pubkey` | btclib_secp256k1/ssa.py:415-435 | x and parity of the held key, or ValueError |
| `Ssa.Signer.WipeHeld` | btclib_secp256k1/ssa.py:437-448 | the keypair memory is zero and nothing is held, however often |
| `Ssa.EveryRunRefines` | btclib_secp256k1/ssa.py:272-494 | before the first wipe of any run every answer is the stateless one and verifies under `pubkey()`; after it all but wipe raise |
| `Ssa.HeldUntilWiped` | btclib_secp256k1/ssa.py:483-494 | a key is held until the first wipe and never again |
| `Ssa.Perform` | btclib_secp256k1/ssa.py:338-448 | one operation on the object is one step of the run, and the buffer it leaves, if any, is auxiliary randomness |
| `Ssa.Life` | btclib_secp256k1/ssa.py:272-494 | any operations on a signer made from a private key: stateless answers until the first wipe, ValueErrors after it, signatures that verify under the key's x, and after a wipe no buffer holding anything but the auxiliary randomness of messages that were not hashes |
| `SilentPayments.EveryInputCounts` | btclib_secp256k1/silentpayments.py:134-137 | each input key is added once, a taproot one as its even-y form |
| `SilentPayments.SidesAgreeOnTheSum` | btclib_secp256k1/silentpayments.py:426-442 | the summary of the x-only and plain inputs is that of the sender's private keys, taproot ones negated alike |
| `SilentPayments.SecretIsProduct` | btclib_secp256k1/silentpayments.py:139-149 | the shared point is hash times sum times scan key, in the integers modulo n |
| `SilentPayments.SharedSecret` | btclib_secp256k1/silentpayments.py:139-149 | sender and scanner reach one shared point |
| `SilentPayments.CountingIsARanking` | btclib_secp256k1/silentpayments.py:125-135 | counting recipients per scan key gives each of them the k's from 0 up without gap or repetition |
| `SilentPayments.CreatesExactly` | btclib_secp256k1/silentpayments.py:138-156 | outputs are created exactly where the inputs do not cancel, no k reaches 2323 and no output is at infinity; and which they are |
| `SilentPayments.LimitIsPerScanKey` | tests/test_vectors.py:731-735 | the k stay below the limit exactly where no scan key is paid more than 2323 times |
| `SilentPayments.FirstMatchExact` | btclib_secp256k1/silentpayments.py:579-593 | the output found is the first that matches |
| `SilentPayments.MatchesExact` | btclib_secp256k1/silentpayments.py:718-736 | a step matches exactly the x of P_k and of P_k plus each cached label |
| `SilentPayments.MatchNamesItsLabel` | btclib_secp256k1/silentpayments.py:718-736 | no label is named exactly where the output is P_k itself; a label named is one of the cache, with its tweak, and takes P_k to the output |
| `SilentPayments.AnswersNameTheirLabels` | btclib_secp256k1/silentpayments.py:739-762 | the triple of the m-th answer: its x, the tweak of its step plus that of the label it names, and that label |
| `SilentPayments.MatchedIsSpendable` | btclib_secp256k1/silentpayments.py:739-762 | a match plus its addend has the x of the output |
| `SilentPayments.ScanLength` | btclib_secp256k1/silentpayments.py:556-562 | no more outputs are found than there are, nor than 2323 |
| `SilentPayments.ScanIsSound` | btclib_secp256k1/silentpayments.py:552-605 | every tweak answered, added to the spend key, is a private key of the output answered with it |
| `SilentPayments.CreatedOutputMatches` | btclib_secp256k1/silentpayments.py:339-345 | an output made for a plain or labeled address matches at its own k |
| `SilentPayments.StepIsExact` | btclib_secp256k1/silentpayments.py:579-593 | the step of k takes the output made for k if and only if no open output listed ahead of it matches |
| `SilentPayments.InTurnFrom` | btclib_secp256k1/silentpayments.py:579-597 | from any k on, over the outputs the lower steps left: each output is the answer of its step if and only if none is obstructed |
| `SilentPayments.FoundInTurnExactly` | btclib_secp256k1/silentpayments.py:552-605 | over a whole transaction: all outputs of a scan key are answered in turn if and only if none is obstructed |
| `SilentPayments.WithoutLabelsAllAreFound` | btclib_secp256k1/silentpayments.py:571-580 | a scan without a label cache answers every output of its scan key in turn, unconditionally |
| `SilentPayments.AnswersMatch` | btclib_secp256k1/silentpayments.py:579-597 | what step k answers matches at step k |
| `SilentPayments.TakenExactlyFrom` | btclib_secp256k1/silentpayments.py:579-597 | where no output of lower k is obstructed, a step takes its output if and only if that one is not |
| `SilentPayments.AnsweredExactly` | btclib_secp256k1/silentpayments.py:552-605 | one output of any payment, matching at no step but its own: it is answered if and only if its step takes it, and, with the lower ones unobstructed, if and only if it is not obstructed |
| `SilentAnswers.PicksAreAnswered` | btclib_secp256k1/silentpayments.py:579-597 | places each matching at its step, behind no open match, are the answers of those steps |
| `SilentAnswers.SomePicksAreAll` | btclib_secp256k1/silentpayments.py:579-597 | there are such places for the whole answer |
| `SilentAnswers.PicksAgree` | btclib_secp256k1/silentpayments.py:579-597 | they are determined: two sequences of picks agree as far as both go |
| `SilentAnswers.AnsweredIffPicked` | btclib_secp256k1/silentpayments.py:552-605 | any set of outputs of any transaction is answered, at whatever positions, if and only if some picks hold them |
| `SilentAnswers.EveryCreatedIsAnswered` | btclib_secp256k1/silentpayments.py:552-605 | so of a payment: all outputs made for a scan key are in the answer if and only if some picks hold them |
| `SilentPayments.ListedBehindALabelIsLost` | btclib_secp256k1/silentpayments.py:579-597 | a payment listed behind its own P_0 plus a cached label is never answered; listed ahead of it, it is |
| `SilentPayments.EveryOutputIsFound` | btclib_secp256k1/silentpayments.py:125-156 | from the sender's private keys to the scanner's answer: every output made for a scan key is found in turn if and only if none is listed behind another that matches at its step |
| `SilentPayments.LabeledSpendExact` | btclib_secp256k1/silentpayments.py:339-345 | the labeled key is the one the label leads to from the spend key; there is none exactly where the two cancel |
| `SilentPayments.LabelCacheHolds` | btclib_secp256k1/silentpayments.py:258-271 | the cache of the labels of a scan key holds the hash of the key with each m and nothing else, each with the tweak it is a multiple of G by |
| `SilentPayments.PublishedPays` | btclib_secp256k1/silentpayments.py:312-345 | a published address, labeled or not, is one the cache recognizes |
| `SilentPayments.EveryPaymentIsSpendable` | btclib_secp256k1/silentpayments.py:503-605 | for published addresses, plain and labeled, found in turn with a tweak that spends it, if and only if none is obstructed |
| `SilentBuffers.BuiltIs` | btclib_secp256k1/silentpayments.py:134-137 | how many buffers exist when the i-th key is the first refused |
| `SilentBuffers.BuildAll` | btclib_secp256k1/silentpayments.py:136-137 | the list holds exactly the copies of the keys before the one refused, whose own buffer is empty; the keys' own memory is untouched |
| `SilentBuffers.BuildBoth` | btclib_secp256k1/silentpayments.py:134-137 | the second list is begun only where the first was accepted whole |
| `SilentBuffers.WipedIsClean` | btclib_secp256k1/silentpayments.py:149-151 | wiping the two lists is wiping everything that holds anything |
| `SilentBuffers.CreateOutputsChecked` | btclib_secp256k1/silentpayments.py:119-156 | exactly which calls succeed, and with the outputs of those keys; on every exit every buffer made is zero, and how many there were; every key array of the caller's, however often it is listed, holds what it held |
| `SilentBuffers.FillLabelCache` | btclib_secp256k1/silentpayments.py:712-715 | one buffer an item before the first refused, each holding a copy of its 32 octets, and where a label is refused beside a tweak of 32 octets one more, which is in no cache |
| `SilentBuffers.FilledExact` | btclib_secp256k1/silentpayments.py:712-715 | the items cached are the well-formed ones before the first that is not |
| `SilentBuffers.GoodLabelsStrandNothing` | btclib_secp256k1/silentpayments.py:712-715 | where every label is of 33 octets no tweak is copied outside the cache |
| `SilentBuffers.WipedBut` | btclib_secp256k1/silentpayments.py:600-605 | wiping the found structs and the cache leaves the stranded tweak and nothing else |
| `SilentBuffers.LookupCache` | btclib_secp256k1/silentpayments.py:718-736 | the callback answers what the mapping says |
| `SilentBuffers.CacheOfExact` | btclib_secp256k1/silentpayments.py:712-736 | each label of the mapping with its own tweak, and no other label |
| `SilentBuffers.ReadFound` | btclib_secp256k1/silentpayments.py:739-762 | the triples read out of the structs are the ones found |
| `SilentBuffers.ScanOutputsChecked` | btclib_secp256k1/silentpayments.py:552-605 | on every exit the found structs and the label cache are zero; nothing is left if and only if no tweak other than zeros was stranded beside a refused label, and such a tweak is the one buffer that holds anything; how many buffers there were; the scan key's array untouched; ValueError for a refused key or item, and otherwise the scan with the mapping's labels, where the tweaks are scalars |
| `SilentBuffers.ShortLabelStrandsItsTweak` | tests/test_modules.py:653-674 | a label of the wrong length beside a tweak: ValueError, and the tweak is still in memory |
| `Memory.Wipe` | btclib_secp256k1/_secret.py:44-88 | the whole buffer is zero |
| `Memory.Take` | btclib_secp256k1/_secret.py:173-226 | the content is delivered to the value or to the caller's memory, the buffer is zero whatever is refused, and refused memory is untouched |
| `Memory.Scalar32` | btclib_secp256k1/_scalar.py:212-294 | what is accepted is handed on as it stands, the caller's own array included; everything else raises |
| `Memory.ScalarBuffer` | btclib_secp256k1/_secret.py:229-272 | a new buffer in every case, holding a copy of the scalar or nothing; the caller's array untouched |
| `Memory.KeptValues` | tests/test_bytes_like.py:516-549 | arrays that hold what they held state the keys they stated, however often they are listed |
| `Memory.Keypair` | btclib_secp256k1/_secret.py:275-301 | one new keypair buffer, empty where the key is not in [1, n-1]; the caller's array untouched |

## Left out

- libsecp256k1 itself: field and curve arithmetic, hash internals, constant-time behaviour and context randomization are C; only the equation of each call is used.
- cffi mechanics, context and error callbacks, `context.check`, `_cdata.py`, packaging: I/O and plumbing. Objects libsecp256k1 cannot read appear only as an unreadable key in the two self-checks.
- `hashes.py`, `ecdh.py`, `ellswift.py`: one call each, easy members.
- Octet layouts of keys and nonces: a key argument is a datatype of its shapes, and an uncompressed key whose y is off the curve is one whose x does not lift. Octets are modelled in full for ECDSA signatures only.
- Type and length refusals: those that decide a branch are ValueErrors here; the rest are types. A cffi array of octets is one of 32 or one `scalar` refuses; the shapes it refuses with a TypeError are one with those of the wrong length.
- Hash outputs outside [1, n-1] for secret nonces, RFC 6979 nonces, input hashes, shared-secret tweaks and labels: the model's hashes do not answer them. RFC 6979's retry for a zero r or s is not modelled; the call then answers None.
- Random number generation: a parameter.
- `keys.prvkey_tweak_add` and `prvkey_tweak_mul`: not modelled; they have no wipe on their failing exits.
- Keys.PrvkeyNegate: claims nothing of its buffer on the exits that raise, where the code has no wipe.
- The thread machine leaves out the keypair buffer, which no other thread can reach, and what `partial_sign` returns after the wipe; MusigObjects.SecretNonce.Sign covers both for one thread.
- Threads sharing a `Signer` being wiped, a chain, or a cache being tweaked: the caller's ordering duty (README.md:1097-1119).
- SilentPayments.ScanIsSound: a caller's cache is taken to map each label to its own tweak, as `label` answers it.
- SilentBuffers.ScanOutputsChecked: the mapping is keyed on bytes, so it names a label once; and nothing is said of the answer where a cached tweak is n or more, which `label` never answers; what the C call then does is not part of this model.
- The order in which the scanner answers by vout, and which inputs and outputs BIP352 deems eligible.
- A derived Silent Payments output at infinity while scanning: the step then matches labels only, where the C call might refuse.
- KeyAggCache, Session and SecretNonce objects that belong to different rounds: the model takes any combination and answers the equations' value; only matching ones are claimed to verify.
