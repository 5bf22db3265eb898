# Verified model of the Aqua authentication library

The library signs and verifies HTTP requests, proves control of decentralised identifiers, keeps
challenges and sessions, and logs passkeys in without stored keys. This project models those parts
in Dafny, one module or a few per source file, and proves what they promise over every input, every
run and every interleaving. `dafny verify dfyconfig.toml` checks it.

## What is modelled

* **Request signatures** (`Authority`, `StructuredFields`, `SignatureBase`, `SignatureInput`,
  `ReplayGuard`, `GuardRace`, `VerifyRequest`, `SignRequest`). The printer and the parser of RFC 8941
  fields (sections 4.1 and 4.2; dates and display strings of RFC 9651, sections 4.2.9 and 4.2.10, are
  read as well), the signature base of RFC 9421 (section 2.5), `@authority` (section 2.2.3,
  over section 4.2.3 of RFC 9110), the canonical-form check, the validity window in 64-bit seconds,
  and the nonce guard, a class whose map is updated in place. `GuardRace` takes the guard's operations
  apart: calls look up, measure, purge, evict and record in any interleaving. The base is shown to be unambiguous
  although a target URI's host may hold line breaks: its last line is fixed by the parser, which
  undoes the printer, and the agent's value is a single line.
* **The ML-DSA-87 hint gate** (`HintGate`, `MlDsa87`). The passes over the signature's array, for
  any `omega` and `k`, against Algorithms 20 and 21 of FIPS 204 (section 7.1).
* **Identities** (`Positional`, `Base58`, `IdentityLengths`, `Identity`). Base58btc is positional
  recoding with leading zeros kept; it is a bijection, and the fixed lengths and prefixes of
  `did:aqua` and `did:key` follow from bounds on powers of 58 and 256.
* **Stores** (`Ranking`, `Sessions`, `SessionStore`, `Challenges`, `ChallengeStore`). Classes with
  maps updated in place, each method tied to a function of the old map, and theorems about runs of
  those functions. A minimum by (time, key) is what the source gets from sorting or `min_by`.
* **Login** (`Login`, `Hex`). A step relation in which handlers take, check, prove and mint in any
  interleaving with each other, with issue, eviction, sweep, revocation and the clock; signatures and
  public keys travel as hexadecimal text.
* **Passkey login** (`PrimeField`, `KeyRecovery`, `Assertion`, `Selection`, `RpPolicy`). Recovery
  over a cyclic group of odd prime order: a point is a scalar, and the x-coordinate agrees exactly
  on a point and its negative. The ceremony checks, the policy and the two-step choice of the signer
  sit on top.
* **Messages** (`Message`, `DidMethods`, `Client`). The CAIP-122 message, the two extractors the
  client uses, the identifier, label and chain of every registered DID method (`did:pkh` with its
  three namespaces and the EIP-55 checksum, `did:key`, `did:peer` variants 0 and 2, `did:aqua`), the
  order of the client's checks, and the whole login from challenge to session.

Hashes, signature checks, base64, JSON, DER, URL parsing and IP parsing are functions of the model's
environment (`Codec`, `Env`, `Primitives`, `Library`, `Platform`); clocks, nonces and tokens are
arguments. Error payloads are dropped, error variants are kept.

## Where the code is not what a reader would expect

* `Authority.AuthorityLineBreakIff`: a derived authority holds a line break exactly when the text of
  its host and port does; `AuthorityMayHoldLineBreak` is a host that does.
* `VerifyRequest.SkewHonouredIff`: a clock skew above the signed 64-bit range wraps to a negative
  number of seconds; the window is what was configured exactly when the skew fits.
* `VerifyRequest.NeverTwiceIff`: with more live nonces than the guard holds, some earlier request
  would be accepted again if it were presented again at once; with room, none is accepted twice. The
  room condition is exact at every capacity.
* `GuardRace.TwinEvicts` and `TwinStalls`: the entry lock alone does not keep two concurrent
  presentations of a nonce from being admitted. Without a slot to spare the second evicts the entry of
  the first, and a call that stalls until its signature has expired is admitted after a sweep.
  `NeverAdmittedTwice` is what holds otherwise, in every interleaving; `SparesLiveIff` and `LateIff`
  say how far its two conditions are needed.
* `SignRequest.WebBotAuthIff`: a Web Bot Auth request names its key by thumbprint, and the verifier
  reads the key id as a DID, so it accepts one only where the thumbprint is itself such an identity.
* `KeyRecovery.ValidButRefused`: both candidates must be recovered, so a valid signature is refused
  when the negative of its nonce would recover the point at infinity; `ValidRefusedIff` says exactly
  when.
* `KeyRecovery.ReducedKeyMissed`: the two candidates need not be all the verifying keys; they are
  exactly when no x-coordinate was reduced modulo the order (`CandidatesComplete`).
* `DidMethods.PeerSharesMessage` and `SegmentSharesMessage`: DIDs that are different principals can
  have the same message, so the client for a `did:key` signs a challenge issued to the `did:peer` of
  its key (`Client.SignsForPeer`). `SameInfoIff` says exactly which DIDs share a message.
* `DidMethods.RawTextUnread`: the text of a `did:pkh:ed25519` or `did:pkh:p256` reaches the message
  unread; the results about extractors and messages assume one-line fields.
* `Message.DomainCanShadow`: a domain that starts with `URI:` hides the message's own URI line.
* `RpPolicy.ValidateRpId` accepts a final dot and surrounding white space, and ports are read as Rust reads
  a `u16`, with a leading `+` and leading zeros; the model does the same.

## Model

| member | source | states |
|---|---|---|
| Text.WhiteSpace | src/http_sig/base.rs:153-160 | the 25 characters that trimming a header removes |
| Authority.AuthorityIff | src/http_sig/base.rs:72-135 | the authority spelt out: lower-case host, decimal port unless it is 80 for http or 443 for https; exactly the host and port texts that give one |
| Authority.SchemeRefused | src/http_sig/base.rs:73-83 | without `://`, and under any other scheme, which error |
| Authority.PortIff | src/http_sig/base.rs:122-126 | which texts read as a port: an optional plus sign, zeros, and the decimal number below 65536 |
| Authority.AuthorityIdempotent | src/http_sig/base.rs:72-135 | feeding `scheme://` and the derived authority back gives the same authority |
| Authority.AuthorityInsensitive | src/http_sig/base.rs:72-135 | letter case of scheme and host, userinfo, path, query and fragment do not change it |
| Authority.ExplicitDefaultPort | src/http_sig/base.rs:95-135 | any spelling of the scheme's default port equals no port |
| Authority.HostIsAuthority | src/http_sig/base.rs:72-135 | a lower-case host without delimiters or port is its own authority |
| Authority.AuthorityLineBreakIff | src/http_sig/base.rs:72-135 | the authority of an accepted URI holds a line break exactly when its host and port text does; userinfo, path, query and fragment bring none in, and a port cannot hold one |
| Authority.AuthorityMayHoldLineBreak | src/http_sig/base.rs:72-135 | a concrete host with a line break is an authority |
| StructuredFields.InnerListRoundTrip | src/http_sig/base.rs:184-211 | a printed inner list with parameters reads back, whatever follows it |
| StructuredFields.ParseOneMember | src/http_sig/verify.rs:154-165 | a one-member dictionary reads back; only spaces before and optional white space after are skipped |
| StructuredFields.ParseStringIff | src/http_sig/verify.rs:154-165 | a string is read exactly when it is the escaped text of printable characters up to its quote |
| StructuredFields.EscapeMarks | src/http_sig/base.rs:173-175 | a quote or backslash in a string is written with a backslash before it |
| StructuredFields.KeyIff | src/http_sig/verify.rs:154-165 | which texts read as a key, and that it takes all it can |
| StructuredFields.IntegerLimit | src/http_sig/verify.rs:222-228 | an integer is read exactly up to 15 digits |
| StructuredFields.DecimalLimit | src/http_sig/verify.rs:239-242 | a decimal in another member is read exactly up to 12 digits before its point and three after it |
| StructuredFields.TokenRead | src/http_sig/verify.rs:239-242 | a token in another member is read, and all of it |
| StructuredFields.BooleanRead | src/http_sig/verify.rs:239-242 | so is a boolean |
| StructuredFields.DateRead | src/http_sig/verify.rs:239-242 | so is a date |
| StructuredFields.DisplayRead | src/http_sig/verify.rs:239-242 | the bytes of a display string are read back from their escaped text, any bytes |
| StructuredFields.FlagsAreTrue | src/http_sig/verify.rs:239-242 | parameters and members without a value are true |
| StructuredFields.TrailingCommaRefused | src/http_sig/verify.rs:239-242 | a header may not end with a comma |
| StructuredFields.ItemsSeparated | src/http_sig/verify.rs:154-156 | items of an inner list need a space between them |
| StructuredFields.EmptyHeader | src/http_sig/verify.rs:154-163 | a blank header is an empty dictionary, so it counts as no signature |
| SignatureBase.BaseIff | src/http_sig/base.rs:233-274 | the base as literal text for each covered list, with the authority, the trimmed agent and the parameters in their places; and exactly when there is one |
| SignatureBase.ParamsSpelt | src/http_sig/base.rs:184-211 | the parameters as literal text, in the profile's order |
| SignatureBase.NamesSpelt | src/http_sig/base.rs:184-192 | the covered lists as literal text |
| SignatureBase.BaseRefusal | src/http_sig/base.rs:146-274 | the first faulty covered name decides the error, then the authority, the parameters and ASCII |
| SignatureBase.WriteParamsInnerList | src/http_sig/base.rs:184-211 | the loop over covered names followed by six parameters writes exactly the specified text, or the field error |
| SignatureBase.BuildSignatureBase | src/http_sig/base.rs:233-274 | the loop over covered names, with its refusals in order, builds the specified base |
| SignatureBase.ParamsTextInjective | src/http_sig/base.rs:204-211 | different parameters never print alike |
| SignatureBase.BaseUnambiguous | src/http_sig/base.rs:143-274 | equal bases mean equal covered list, six parameters and authority, and the agent header equal up to surrounding white space when covered |
| SignatureBase.CoveredShape | src/http_sig/base.rs:233-262 | a successful base covers the authority once and the agent at most once |
| SignatureInput.ReadCovered | src/http_sig/verify.rs:174-190 | the loop over inner-list items returns the covered names or its error |
| SignatureInput.ParseInvertsPrint | src/http_sig/verify.rs:154-220 | every in-profile parameter set under every key, with any legal padding, parses back to itself |
| SignatureInput.CanonicalIff | src/http_sig/verify.rs:128-138 | a header parses and passes the canonical check exactly when it is the padded canonical text of in-profile parameters |
| SignatureInput.BaseCarriesHeader | src/http_sig/verify.rs:128-142 | the last line of the base is the received header after the key, byte for byte |
| SignatureInput.ParsedSerializable | src/http_sig/verify.rs:128-133 | whatever parses can be printed: writing the canonical text never fails |
| SignatureInput.NotOneSignature | src/http_sig/verify.rs:154-172 | no dictionary, more or fewer members than one, or a member that is no inner list is malformed |
| SignatureInput.ItemRefused | src/http_sig/verify.rs:174-190 | the first faulty covered item decides the error |
| SignatureInput.NamesRead | src/http_sig/verify.rs:191-220 | without a faulty item: the authority, the six names in order and their types, and the parameters read from them |
| SignatureInput.ParseSignatureInvertsPrint | src/http_sig/verify.rs:239-259 | the `Signature` header reads back to the signature bytes |
| SignatureInput.SignatureAmong | src/http_sig/verify.rs:239-259 | of any number of signatures in one header, the last one under the key is read; without one it is an error |
| SignatureInput.SignatureIff | src/http_sig/verify.rs:239-259 | exactly the byte sequence under the key is returned, whatever its parameters |
| ReplayGuard.NonceReplayGuard.EvictSoonestExpiring | src/http_sig/replay.rs:118-127 | exactly the soonest-expiring entry goes |
| ReplayGuard.NonceReplayGuard.CheckAndRecordAt | src/http_sig/replay.rs:74-104 | for a call alone, answer and new memory are those of `Record`: a seen nonce is refused before room is made |
| GuardRace.StepKeeps | src/http_sig/replay.rs:74-127 | in every interleaving each step of a call, sweep or clock keeps every unexpired admitted pair in the map, if calls record before their own expiry and evict nothing live |
| GuardRace.NeverAdmittedTwice | src/http_sig/replay.rs:74-104 | with room for the unexpired nonces, and calls that record before their expiry, no interleaving admits a pair twice although several calls may find it absent |
| GuardRace.SparesLiveIff | src/http_sig/replay.rs:87-127 | exact at every capacity: live entries are spared throughout if and only if after no step an admitted request, presented at once and alone, is admitted again |
| GuardRace.LateIff | src/http_sig/replay.rs:94-103 | a waiting call whose pair another call had admitted can be admitted too exactly when it waits until its signature and the entry under its nonce have expired |
| GuardRace.AloneIsRecord | src/http_sig/replay.rs:74-104 | nothing interleaved, the steps of a call are `CheckAndRecordAt`: same answer, same memory |
| GuardRace.TwinEvicts | src/http_sig/replay.rs:87-103 | with capacity one two concurrent presentations of one pair are both admitted |
| GuardRace.TwinStalls | src/http_sig/replay.rs:94-113 | at any larger capacity too, if one stalls past the expiry and a sweep comes between |
| ReplayGuard.RoomBounded | src/http_sig/replay.rs:87-92 | making room always leaves a free slot and adds nothing |
| ReplayGuard.RoomExact | src/http_sig/replay.rs:87-127 | which entries making room keeps: all below capacity, else the live ones, but for the soonest to expire if those fill it |
| ReplayGuard.CapacityKept | src/http_sig/replay.rs:74-104 | the capacity holds after every presentation |
| ReplayGuard.RoomKeepsLive | src/http_sig/replay.rs:87-127 | when the live entries leave a slot only expired ones are dropped |
| Ranking.FindFirst | src/http_sig/replay.rs:118-127 | the loop finds the unique first entry by time, then key |
| VerifyRequest.WindowIff | src/http_sig/verify.rs:275-313 | the window is the half-open interval, widened by the skew after its cast; no subtraction overflows |
| VerifyRequest.SkewHonouredIff | src/http_sig/verify.rs:296-297 | the configured skew is honoured exactly when it fits a signed 64-bit integer |
| VerifyRequest.AcceptedIff | src/http_sig/verify.rs:105-150 | acceptance exactly characterised without the parser of parameters: a canonical text and a signature that passes every check |
| VerifyRequest.VerifyRefusals | src/http_sig/verify.rs:105-150 | the first check that fails decides the error, each named by its condition |
| VerifyRequest.AcceptedWasSigned | src/http_sig/verify.rs:105-150 | with unforgeable signatures an accepted request has the parameters, authority and agent of one its signer signed |
| VerifyRequest.VerifyRequestAt | src/http_sig/verify.rs:105-150 | result and guard memory; the nonce is recorded only after the signature verified |
| VerifyRequest.NeverAcceptedTwice | src/http_sig/verify.rs:105-150 | over any run at a forward clock with room for the live nonces at each admission no (nonce, expires) pair is accepted twice |
| VerifyRequest.NeverTwiceIff | src/http_sig/verify.rs:105-150 | the bound is exact for every capacity: there is room throughout a forward run if and only if, after none of its requests, one presented at the same moment repeats a pair |
| VerifyRequest.RunKeeps | src/http_sig/replay.rs:74-127 | along such a run the guard remembers exactly the live accepted nonces among its live entries |
| VerifyRequest.ReplayAccepted | src/http_sig/replay.rs:80-103 | at the first admission without room some earlier request of the run, presented again at once, is accepted a second time |
| VerifyRequest.StaysAccepted | src/http_sig/verify.rs:275-313 | an accepted request passes every check again until it expires |
| VerifyRequest.OverfullGuardForgets | src/http_sig/replay.rs:80-103 | for any two accepted requests at one moment, a guard of one accepts the first again after the second |
| SignRequest.SignThenVerify | src/http_sig/sign.rs:46-92 | a signed request verifies for the signer's DID at exactly the clocks from created minus skew up to, excluding, expires |
| SignRequest.SignThenVerifyGuarded | src/http_sig/sign.rs:46-92 | with a guard it verifies when the nonce is unseen, and the nonce is then remembered; else it is refused as replayed |
| SignRequest.SignIff | src/http_sig/sign.rs:46-92 | exactly when signing succeeds under either profile, and the two headers as text: the parameters requested and the signer's bytes for their base |
| SignRequest.SignRefusals | src/http_sig/sign.rs:46-120 | which error otherwise |
| SignRequest.WebBotAuthIff | src/http_sig/sign.rs:102-120 | when this verifier accepts a Web Bot Auth request at all |
| HintGate.CheckCounts | src/aqua/ml_dsa.rs:106-120 | the walk over the counts returns the last count, or the first count that decreases or exceeds omega |
| HintGate.CheckWindows | src/aqua/ml_dsa.rs:127-136 | the walk over the windows finds whether each is strictly increasing, with every slice in bounds |
| HintGate.HintEncodingIsCanonical | src/aqua/ml_dsa.rs:100-139 | accepts exactly the canonical encodings and says which defect a refused one has |
| HintGate.GateIsAlgorithm21 | src/aqua/ml_dsa.rs:91-139 | the multi-pass gate and the interleaved loop of Algorithm 21 accept the same byte strings, for every omega and k |
| HintGate.PackThenUnpack | src/aqua/ml_dsa.rs:91-139 | unpacking undoes packing for every omega and every hint vector of at most omega ones whose counts fit a byte |
| HintGate.UnpackThenPack | src/aqua/ml_dsa.rs:91-139 | packing undoes unpacking for every accepted string |
| HintGate.GateAcceptsExactlyPackings | src/aqua/ml_dsa.rs:91-139 | the accepted strings are exactly the encodings of hint vectors |
| MlDsa87.Verify | src/aqua/ml_dsa.rs:157-188 | an error is exactly a wrong length or a hint Algorithm 21 refuses; otherwise the answer is the algebra's |
| Positional.RecodeInverse | src/aqua/codec.rs:144-146 | recoding between bases with leading zeros kept is undone by recoding back |
| Base58.EncodeDecode | src/aqua/codec.rs:85-100 | decoding undoes base58btc encoding for every byte string |
| Base58.DecodeEncode | src/aqua/codec.rs:144-146 | a byte string has one base58btc spelling |
| Base58.EncodeMeaning | src/aqua/codec.rs:85-100 | the text is the same number in base 58, with one `1` for each leading zero byte |
| Base58.Alphabet | src/aqua/codec.rs:144-146 | the alphabet: letters and digits in ASCII order without `0`, `O`, `I`, `l` |
| IdentityLengths.MultihashText | src/aqua/codec.rs:58-62 | a sha2-256 multihash always encodes to 46 characters starting `Qm` |
| IdentityLengths.MultihashLength | src/aqua/codec.rs:158-165 | 46 characters that decode to a leading 0x12 always decode to 34 bytes |
| Identity.AquaDidFromPubkey | src/aqua/codec.rs:85-100 | the DID as text: the header bytes and the digest of the key's JWK, written out, in base58btc |
| Identity.AquaDidShape | src/aqua/codec.rs:58-62 | every did:aqua has 56 characters and starts `did:aqua:zQm` |
| Identity.LengthGuardUnreachable | src/aqua/codec.rs:158-165 | the last length guard never fires |
| Identity.MultihashIff | src/aqua/codec.rs:120-168 | exactly the encodings of 34-byte values starting 0x12 0x20 are accepted, and give that value |
| Identity.BindsIff | src/aqua/codec.rs:188-192 | binding holds exactly for the DID derived from the key, and errs exactly as a malformed DID does |
| Identity.TwoKeysCollide | src/aqua/codec.rs:188-192 | two keys bound to one DID are two different JWK texts with one digest |
| Identity.BindsOneKey | src/aqua/codec.rs:188-192 | without such a collision a did:aqua is bound to one key |
| Identity.AquaDidRefusals | src/aqua/codec.rs:120-168 | the cause of each refusal, in order, lengths counted in UTF-8 bytes |
| Identity.MultibaseIff | src/key/mod.rs:26-48 | which bodies read as which key |
| Identity.DidKeyRefusals | src/key/mod.rs:98-144 | the cause of each refusal of a did:key, for both readers |
| Identity.Ed25519DidKeyIff | src/key/mod.rs:98-111 | decoding gives a key exactly for the encoding of a strict 32-byte key |
| Identity.P256DidKeyIff | src/key/mod.rs:122-144 | decoding gives a key exactly for the encoding of a 33-byte point of the curve |
| Identity.DidKeyInjective | src/did.rs:298-332 | two keys never share a did:key |
| Identity.DidKeyShapes | src/key/mod.rs:15-17 | Ed25519 did:keys start z6Mk and P-256 ones zDn, with fixed lengths |
| Identity.HintIff | src/webauthn_select.rs:40-43 | the re-encoding check never refuses: every decodable P-256 did:key is canonical |
| SessionStore.InMemoryBackend.RemoveAllForDid | src/session_backend.rs:131-143 | the loop of removals removes exactly the DID's sessions and counts them |
| SessionStore.InMemoryBackend.PurgeExpired | src/session_backend.rs:145-149 | exactly the live sessions stay; the count is what went |
| SessionStore.InMemoryBackend.DefaultPurgeExpired | src/session_backend.rs:53-61 | the list-and-remove default leaves the same map and returns the same count as the override |
| SessionStore.Manager.EnforceCap | src/session.rs:146-168 | at the cap the DID's oldest session goes, ties by token, and nothing else |
| SessionStore.Manager.Create | src/session.rs:109-139 | answer and new map of the specified create: sweep when full, refuse when still full, evict at the DID's cap |
| SessionStore.Manager.Validate | src/session.rs:184-195 | answer and new map of the specified validate: an expired session is removed on sight |
| SessionStore.Manager.RevokeAllForDid | src/session.rs:179-181 | exactly the DID's sessions go |
| SessionStore.Manager.CleanupExpired | src/session.rs:224-227 | exactly the live sessions stay |
| Sessions.RunWithin | src/session.rs:109-181 | over any serial run at most max_sessions in all and max(1, quota) for each DID |
| Sessions.EmptyWithin | src/session.rs:67-105 | the bounds hold of a new store |
| Sessions.ValidatesIff | src/session.rs:109-195 | over any forward run a token validates to exactly the DID whose create made it: one that found room, less than a lifetime ago, and was not revoked, replaced or evicted since |
| Sessions.CreateAnswer | src/session.rs:109-139 | the session a create answers with, exactly when there is room |
| Sessions.ExpiredOnce | src/session.rs:184-195 | an expired session is reported once, then unknown |
| Sessions.LeavesOnly | src/session.rs:109-181 | a live session leaves or is replaced only by its own revocation, its DID's, its DID's own create at full quota, or a create that reuses its token |
| Sessions.SweepTimingUnobservable | src/session.rs:224-227 | runs that differ only in sweeps answer every create and validate alike and end with the same live set |
| ChallengeStore.Issuer.Create | src/challenge.rs:97-142 | answer and new map of the specified create, within the cap |
| ChallengeStore.Issuer.EvictFirst | src/challenge.rs:148-165 | exactly the soonest-expiring challenge goes, ties by nonce |
| ChallengeStore.Issuer.Validate | src/challenge.rs:168-180 | the challenge is removed whatever the answer |
| Challenges.RunBounded | src/challenge.rs:97-165 | over any serial run at most max(1, cap) challenges are pending |
| Challenges.ValidatesIff | src/challenge.rs:97-180 | over any forward run a nonce validates to exactly the challenge issued under it, with its message, still in time and not used, replaced or evicted since |
| Challenges.CreateRefused | src/challenge.rs:97-142 | a malformed DID changes nothing, a message that cannot be built may still cost an eviction |
| Challenges.SecondUseRefused | src/challenge.rs:168-180 | a second validation finds nothing, whatever the first answered |
| Challenges.SweepTimingUnobservable | src/challenge.rs:183-186 | runs that differ only in sweeps answer alike and end with the same live set |
| Challenges.SingleUse | src/challenge.rs:168-180 | along any run each successful validation of a nonce uses up a challenge issued under it or pending at the start |
| Challenges.AtMostOneUse | src/challenge.rs:168-180 | a nonce no create of the run reuses validates at most once, whatever creates, evictions and sweeps lie between |
| Login.StepKeeps | aqua-auth-testkit/src/lib.rs:225-303 | every step of every handler, sweep, eviction and revocation keeps the invariant |
| Login.SessionsAreProven | aqua-auth-testkit/src/lib.rs:225-303 | in every interleaving each session comes from its own challenge, issued to its DID, taken before expiry, whose message is the one built for that DID and nonce and is proven |
| Login.TokenNamesProver | aqua-auth-testkit/src/lib.rs:306-316 | a token resolves only to the DID that proved possession for it |
| Login.TakeThenCheckIsValidate | src/challenge.rs:168-180 | the two concurrent steps, run together, are the store's validate |
| Login.HonestLogin | aqua-auth-testkit/src/lib.rs:225-303 | a login with a valid proof ends in a session for its DID, however long its steps take, exactly when the expiry check comes in time |
| Hex.DecodeIff | aqua-auth-testkit/src/lib.rs:269-282 | what decodes to some bytes is their encoding, in either case |
| Hex.SentReads | src/client.rs:142-148 | bytes sent as `0x` and hexadecimal text are read back by the server |
| Hex.StripsAll | aqua-auth-testkit/src/lib.rs:269-280 | the server strips the prefix however often it stands there |
| PrimeField.InverseExists | src/webauthn_recover.rs:250-260 | every non-zero scalar has an inverse, by Bezout's identity |
| KeyRecovery.KeyInvertsNonce | src/webauthn_recover.rs:250-260 | recovery and verification are inverse maps between keys and nonce points |
| KeyRecovery.VerifiesIff | src/webauthn_recover.rs:250-260 | a signature verifies under exactly the keys whose secret could have made it, by the signing equation |
| KeyRecovery.SignerRecoveredIff | src/webauthn_recover.rs:250-260 | who signed is among the two candidates exactly when the nonce's x-coordinate was not reduced |
| KeyRecovery.CandidatesOrder | src/webauthn_recover.rs:250-260 | the first candidate belongs to the even nonce point of the low form, the second to the odd one |
| KeyRecovery.FinalCheckRedundant | src/webauthn_recover.rs:255-258 | a recovered key other than infinity always passes the verification inside recovery |
| KeyRecovery.CandidatesVerify | src/webauthn_recover.rs:250-260 | the two candidates differ and both verify the signature as received |
| KeyRecovery.CandidatesComplete | src/webauthn_recover.rs:250-260 | they are all the verifying keys exactly when no x-coordinate is reduced to r |
| KeyRecovery.RecoverSwaps | src/webauthn_recover.rs:250-252 | negating s swaps the two recovered keys |
| KeyRecovery.VerifiesNegated | src/webauthn_recover.rs:250-254 | a signature and the one with s negated verify under the same keys |
| KeyRecovery.CandidatesIgnoreForm | src/webauthn_recover.rs:254 | both forms of s give the same candidates in the same order |
| KeyRecovery.CandidatesIff | src/webauthn_recover.rs:250-260 | recovery succeeds exactly when r is an x-coordinate whose two points recover keys other than infinity |
| KeyRecovery.CandidateIff | src/webauthn_recover.rs:121-124 | a key is a candidate exactly when the signature verifies under it from a nonce whose x-coordinate is r itself |
| KeyRecovery.UnreducedAlways | src/webauthn_recover.rs:250-252 | without reduced x-coordinates that is every verifying key |
| KeyRecovery.ReducedKeyMissed | src/webauthn_recover.rs:250-252 | a concrete lawful curve and signature with a verifying key that is no candidate |
| KeyRecovery.ValidRefusedIff | src/webauthn_recover.rs:255-260 | when any valid signature is refused: from an unreduced nonce, exactly when the negative of the nonce recovers infinity |
| KeyRecovery.ValidButRefused | src/webauthn_recover.rs:255-260 | a concrete valid signature that is refused |
| Assertion.AcceptIff | src/webauthn_recover.rs:181-272 | acceptance and every reported field in terms of the members as sent: what decodes, the flag bits, and the signature over the authenticator data and the hash of the client data |
| Assertion.AssertionRefusals | src/webauthn_recover.rs:181-272 | the first check that fails decides the error |
| Assertion.VerifyAndRecoverIff | src/webauthn_recover.rs:181-272 | acceptance exactly characterised, and BadSignature is returned only when every other check passed |
| Assertion.AcceptedAssertion | src/webauthn_recover.rs:181-272 | an accepted assertion is for a configured RP, from an origin configured for it, and both distinct keys verify the signature over the data it sent |
| Selection.AcceptedRecovers | src/webauthn_recover.rs:250-272 | what an accepted assertion returns are the keys recovered from the signature over the data it sent, and its credential; the premise of the results below |
| Selection.LoginResolvesIff | src/webauthn_select.rs:154-168 | end to end: two accepted assertions resolve to a DID exactly when it is the did:key of the one key that verifies both payloads as sent, from unreduced nonces, by one credential |
| Selection.SelectsCandidate | src/webauthn_select.rs:176-205 | only a candidate is selected, and only the set of hints that are candidates matters |
| Selection.SelectedVerifies | src/webauthn_select.rs:176-205 | a selected principal is the identity of a key that verifies the signature |
| Selection.SelectIff | src/webauthn_select.rs:176-205 | which candidate each rule selects: the only hinted one, else the only known one; else a second assertion is asked for |
| Selection.ResolveIff | src/webauthn_select.rs:154-168 | resolve returns a key exactly when it is the one key verifying both assertions, by the same credential, from unreduced nonces; the refusals say why not |
| Selection.SignerNeverDisplaced | src/webauthn_select.rs:154-168 | a key that made both assertions from unreduced nonces is returned or the answer is Ambiguous |
| Selection.ReplayIsAmbiguous | src/webauthn_select.rs:154-168 | the first assertion again never resolves |
| RpPolicy.WithinIsLabelSuffix | src/webauthn_policy.rs:259-262 | a host is within an RP ID exactly when its labels end with the RP ID's labels |
| RpPolicy.WithinTransitive | src/webauthn_policy.rs:259-262 | containment is transitive through RP IDs |
| RpPolicy.ValidateIff | src/webauthn_policy.rs:265-288 | exactly the raw strings whose normal form is an RP ID are accepted, and give it |
| RpPolicy.ValidateIdempotent | src/webauthn_policy.rs:265-288 | a validated RP ID validates to itself and contains itself |
| RpPolicy.AddRp | src/webauthn_policy.rs:184-228 | the first error in checking order, or one new entry with the merged origins |
| RpPolicy.AddedUnique | src/webauthn_policy.rs:184-228 | that description admits one answer only |
| RpPolicy.AddedRefusal | src/webauthn_policy.rs:184-228 | the cause of each refusal; of several origins the first that is wrong counts |
| RpPolicy.DistinctOrder | src/webauthn_policy.rs:196-222 | merging keeps the order of first occurrence |
| RpPolicy.BuiltWellFormed | src/webauthn_policy.rs:184-246 | every built policy has distinct RP IDs with non-empty, duplicate-free origin lists, and building fails only when empty |
| RpPolicy.BuiltInOrder | src/webauthn_policy.rs:184-228 | the k-th entry is the k-th configured party and allows exactly the origins configured for it |
| RpPolicy.EntryForIff | src/webauthn_policy.rs:120-122 | without hash collisions the lookup finds the one entry for a hash, if any |
| Message.IdentifierIff | src/did.rs:120-129 | the extractor reads the identifier back exactly when it is non-empty and trimmed |
| Message.UriRead | src/client.rs:203-209 | what the URI extractor reads from any message of one-line fields: the first of domain, identifier and URI line that starts with `URI:` |
| Message.UriIff | src/client.rs:203-209 | for a URI without spaces and an identifier that is no URI line it reads the message's URI exactly when the domain does not start with `URI:` |
| Message.DomainCanShadow | src/client.rs:203-209 | a concrete domain that hides the URI line |
| Message.MessageText | src/message.rs:29-63 | the message as literal text, the chain line last and only for eip155 |
| Message.MessageInjective | src/message.rs:29-63 | equal messages have equal head line, identifier, URI, nonce, both times and chain line |
| Message.HeadInjective | src/message.rs:41-42 | equal head lines have equal domain and label |
| DidMethods.Eip55Checksum | src/did.rs:90-111 | the loop spells the same address with exactly the letters the digest marks in upper case |
| DidMethods.ChecksumUnique | src/did.rs:90-111 | it is the only such spelling |
| DidMethods.KeyInIff | src/peer/mod.rs:21-53 | which DIDs carry which key: did:key, did:peer variant 0, and variant 2 by its first verification element |
| DidMethods.FirstElementIff | src/peer/mod.rs:36-47 | the key of a variant 2 is what follows the first `z` of the first component that starts with `V` and holds one |
| DidMethods.AccountIff | src/pkh/eip155.rs:58-74 | the account of a did:pkh:eip155: its first segment and the 40 hexadecimal digits of its last |
| DidMethods.RawIff | src/pkh/method.rs:45-57 | the text of the two raw namespaces |
| DidMethods.InfoText | src/message.rs:29-63 | identifier, label and chain shown for each, written out |
| DidMethods.SupportedIff | src/did_method.rs:108-110 | a message can be built for exactly the DIDs that carry a key, a thumbprint, an account or raw text, and no DID carries two of them |
| DidMethods.SameInfoIff | src/message.rs:29-63 | two DIDs look the same in a message exactly when they carry the same key (did:key, did:peer), thumbprint (did:aqua), chain and address up to case (eip155) or raw text, or raw text that spells the key |
| DidMethods.SameIdentifierIff | src/pkh/method.rs:45-57 | the identifier lines are equal for no other reason, the chain aside |
| DidMethods.OneSpelling | src/key/mod.rs:185-189 | within did:key and within did:aqua the DID itself is fixed by what it carries |
| DidMethods.PeerSharesMessage | src/peer/mod.rs:21-53 | a did:peer and the did:key of its key look the same |
| DidMethods.SegmentSharesMessage | src/pkh/eip155.rs:58-74 | so do an account and the same account with an extra segment or other letter case |
| DidMethods.SupportedIdentifying | src/did_method.rs:108-110 | raw text aside every supported DID has a trimmed, one-line identifier that is no URI line |
| DidMethods.RawTextUnread | src/pkh/method.rs:45-57 | any text of a did:pkh:ed25519 becomes the identifier line, blank or broken as it may be |
| DidMethods.SameMessageIff | src/message.rs:29-63 | one message is for two requests exactly when they agree in every field and name one credential |
| Client.UriBoundIff | src/client.rs:172-196 | the textual comparison, placeholders included, passes exactly when both origins exist and are equal |
| Client.RequestIff | src/client.rs:96-150 | the request carries the signer's DID, the nonce received, a signature over the message received and the public key, and is made exactly when both checks pass |
| Client.RequestRefusals | src/client.rs:96-150 | every refusal has its own cause, in order |
| Client.ClientLogsIn | src/client.rs:96-150 | end to end: the request of an honest signer for a challenge of its DID ends in a session for that DID, exactly when the expiry check comes in time |
| Client.OwnChallengeSigned | src/client.rs:96-150 | and the client does sign the challenge a server at its endpoint builds for it |
| Client.SignsIff | src/client.rs:96-150 | for any challenge of one-line fields the key is reached exactly when the signer's address is the identifier line and the endpoint read is the one dialled |
| Client.SignsForItself | src/client.rs:96-150 | between supported DIDs the key is reached exactly when they have the same identifier and the endpoint matches |
| Client.SignsOnlyOwnDid | src/client.rs:96-150 | between two did:keys or two did:aquas, exactly for the signer's own DID |
| Client.SignsForPeer | src/client.rs:96-150 | the client for a did:key puts its signature under the challenge of the did:peer of the same key |

## Left out

- Cryptography: hashes, signature algebra and point decoding are parameters; key recovery uses group arithmetic only.
- Web Bot Auth: only its parameters are produced; verification of that profile's key directory is not modelled.
- Capacity under concurrency: the caps are proved for serial calls; the source calls them best effort.
- Map operations are atomic in the stores; `Login` and `GuardRace` interleave them. A purge is one step there, not one step a shard; an eviction may pick any victim, whatever it saw while it searched.
- Sessions.Create: the expiry is an unbounded sum; overflow of the clock plus the lifetime is not modelled.
- Challenges.Create: the expiry is an unbounded sum, and the message text comes from a parameter.
- Sorting by age and token in the session cap is modelled by its result, the first element.
- The sweep-timing law for the replay guard: it looks for a replay before it purges, so an expired nonce may still be refused.
- Message times are printed text; that printing a time is injective is not modelled.
- WHATWG URL parsing, JSON, DER, base64 and IP parsing are parameters.
- The HTTP layer, cookies, option builders, display labels, directory rendering, the credential store and the WebAuthn ceremony wrappers: they would add only easy members.
