/** Machine integers of the signature profile: seconds in `i64`, durations in `u64`. */
module MachineInts {
  const I64_MAX := 0x7fff_ffff_ffff_ffff
  const I64_MIN := -0x8000_0000_0000_0000

  type I64 = x: int | I64_MIN <= x <= I64_MAX
  type U64 = x: int | 0 <= x < 0x1_0000_0000_0000_0000

  function SaturatingAdd(a: I64, b: I64): I64 {
    if a + b > I64_MAX then I64_MAX else if a + b < I64_MIN then I64_MIN else a + b
  }

  /** `as i64` on a `u64`: it wraps. */
  function AsI64(u: U64): I64 {
    if u > I64_MAX then u - 0x1_0000_0000_0000_0000 else u
  }
}

/** Verifying a request signature: section 3.2 of RFC 9421 under the narrow profile. */
module VerifyRequest {
  import opened Wrappers
  import opened Bytes
  import opened Text
  import opened MachineInts
  import opened StructuredFields
  import opened HttpSigErrors
  import opened SignatureBase
  import opened SignatureInput
  import opened ReplayGuard
  import Ranking
  import Authority

  const MAX_VALIDITY := 86400
  const TAG_AQUA_INTERNAL := "aqua-auth"

  /**
   What the code takes from elsewhere: the algorithm a DID's method implies, whether a signature
   over a message authenticates a DID, and base64.
   */
  datatype Env = Env(
    algForDid: string -> Option<string>,
    authenticates: (string, string, seq<byte>) -> bool,
    codec: Codec)

  datatype VerifyOptions = VerifyOptions(expectedTag: string, clockSkew: U64)

  /** A present header must be covered and a covered header must be present. */
  function CheckCoverage(parts: RequestParts, covered: seq<string>): Result<(), HttpSigError> {
    if parts.signatureAgent.Some? && AGENT !in covered then Err(MalformedSignatureInput)
    else if parts.signatureAgent.None? && AGENT in covered then Err(MissingComponent)
    else Ok(())
  }

  function CheckWindow(created: int, expires: int, skew: U64, now: I64): Result<(), HttpSigError> {
    if expires <= created then Err(InvalidWindow)
    else if expires - created > MAX_VALIDITY then Err(ValidityTooLong)
    else if created > SaturatingAdd(now, AsI64(skew)) then Err(CreatedInFuture)
    else if now >= expires then Err(Expired)
    else Ok(())
  }

  function CheckAlg(env: Env, p: SignatureParams): Result<(), HttpSigError> {
    match env.algForDid(p.keyid)
    case None => Err(Crypto)
    case Some(alg) => if alg == p.alg then Ok(()) else Err(AlgMismatch)
  }

  function CheckCanonical(input: string, key: string, p: SignatureParams): Result<(), HttpSigError> {
    var canonical :- SignatureInputHeader(key, p);
    if canonical == Trim(input) then Ok(()) else Err(MalformedSignatureInput)
  }

  function CheckSignature(env: Env, parts: RequestParts, p: SignatureParams, bytes: seq<byte>)
    : Result<SignatureParams, HttpSigError>
  {
    var base :- Base(parts, p);
    if env.authenticates(p.keyid, base, bytes) then Ok(p) else Err(Crypto)
  }

  /** The checks on parsed headers, in the code's order. */
  function VerifyParsed(env: Env, parts: RequestParts, input: string, key: string, p: SignatureParams,
                        bytes: seq<byte>, opts: VerifyOptions, now: I64): Result<SignatureParams, HttpSigError>
  {
    var _ :- CheckCoverage(parts, p.covered);
    if p.tag != opts.expectedTag then Err(TagMismatch) else
    var _ :- CheckWindow(p.created, p.expires, opts.clockSkew, now);
    var _ :- CheckAlg(env, p);
    var _ :- CheckCanonical(input, key, p);
    CheckSignature(env, parts, p, bytes)
  }

  /** Everything up to the replay guard; the principal is `keyid`. */
  function VerifyCore(env: Env, parts: RequestParts, input: string, signature: string, opts: VerifyOptions, now: I64)
    : Result<SignatureParams, HttpSigError>
  {
    var parsed :- ParseSignatureInput(input, env.codec);
    var bytes :- ParseSignature(signature, parsed.0, env.codec);
    VerifyParsed(env, parts, input, parsed.0, parsed.1, bytes, opts, now)
  }

  lemma VerifyParsedIff(env: Env, parts: RequestParts, input: string, key: string, p: SignatureParams,
                        bytes: seq<byte>, opts: VerifyOptions, now: I64)
    ensures var r := VerifyParsed(env, parts, input, key, p, bytes, opts, now);
            && (r.Ok? ==> r == Ok(p))
            && (r.Ok? <==> PassesChecks(env, parts, p, bytes, opts, now) &&
                           SignatureInputHeader(key, p) == Ok(Trim(input)))
  {
  }

  /** The checks that do not look at how the parameters were spelt. */
  predicate PassesChecks(env: Env, parts: RequestParts, p: SignatureParams, bytes: seq<byte>, opts: VerifyOptions,
                         now: I64)
  {
    && (AGENT in p.covered <==> parts.signatureAgent.Some?)
    && p.tag == opts.expectedTag
    && CheckWindow(p.created, p.expires, opts.clockSkew, now).Ok?
    && env.algForDid(p.keyid) == Some(p.alg)
    && Base(parts, p).Ok? && env.authenticates(p.keyid, Base(parts, p).value, bytes)
  }

  /** The half-open validity interval, widened on the left by the skew. */
  predicate InWindow(created: int, expires: int, skew: int, now: int) {
    created < expires <= created + MAX_VALIDITY && created - skew <= now < expires
  }

  /** The check is exactly the interval, for the skew as the cast leaves it; saturation never shows. */
  lemma WindowIff(created: int, expires: int, skew: U64, now: I64)
    requires InRange(created) && InRange(expires)
    ensures CheckWindow(created, expires, skew, now).Ok? <==> InWindow(created, expires, AsI64(skew), now)
    ensures I64_MIN <= expires - created <= I64_MAX
  {
  }

  ghost predicate WindowFollows(skew: U64) {
    forall created: int, expires: int, now: I64 :: InRange(created) && InRange(expires) ==>
      (CheckWindow(created, expires, skew, now).Ok? <==> InWindow(created, expires, skew, now))
  }

  /** So the configured skew is honoured exactly when it fits a signed 64-bit integer. */
  lemma SkewHonouredIff(skew: U64)
    ensures WindowFollows(skew) <==> skew <= I64_MAX
  {
    if skew <= I64_MAX {
      forall created: int, expires: int, now: I64 | InRange(created) && InRange(expires)
        ensures CheckWindow(created, expires, skew, now).Ok? <==> InWindow(created, expires, skew, now)
      {
        WindowIff(created, expires, skew, now);
      }
    } else {
      assert InWindow(0, 1, skew, 0) && CheckWindow(0, 1, skew, 0) == Err(CreatedInFuture);
    }
  }

  /** Acceptance without the parser of parameters: their canonical text, and a signature that reads and passes. */
  ghost predicate Admissible(env: Env, parts: RequestParts, input: string, signature: string, opts: VerifyOptions,
                             now: I64, p: SignatureParams, key: string, bytes: seq<byte>)
  {
    && IsKey(key) && InProfile(p) && (exists pre, post :: Spells(input, pre, post, key, p))
    && ParseSignature(signature, key, env.codec) == Ok(bytes)
    && PassesChecks(env, parts, p, bytes, opts, now)
  }

  lemma AcceptedIff(env: Env, parts: RequestParts, input: string, signature: string, opts: VerifyOptions, now: I64,
                    p: SignatureParams)
    ensures VerifyCore(env, parts, input, signature, opts, now) == Ok(p) <==>
            exists key, bytes :: Admissible(env, parts, input, signature, opts, now, p, key, bytes)
  {
    if VerifyCore(env, parts, input, signature, opts, now) == Ok(p) {
      var key, bytes := AcceptedAdmissible(env, parts, input, signature, opts, now, p);
    }
    forall key, bytes | Admissible(env, parts, input, signature, opts, now, p, key, bytes)
      ensures VerifyCore(env, parts, input, signature, opts, now) == Ok(p)
    {
      AdmissibleAccepted(env, parts, input, signature, opts, now, p, key, bytes);
    }
  }

  lemma AdmissibleAccepted(env: Env, parts: RequestParts, input: string, signature: string, opts: VerifyOptions,
                           now: I64, p: SignatureParams, key: string, bytes: seq<byte>)
    requires Admissible(env, parts, input, signature, opts, now, p, key, bytes)
    ensures VerifyCore(env, parts, input, signature, opts, now) == Ok(p)
  {
    CanonicalIff(input, key, p, env.codec);
    VerifyParsedIff(env, parts, input, key, p, bytes, opts, now);
  }

  lemma AcceptedAdmissible(env: Env, parts: RequestParts, input: string, signature: string, opts: VerifyOptions,
                           now: I64, p: SignatureParams) returns (key: string, bytes: seq<byte>)
    requires VerifyCore(env, parts, input, signature, opts, now) == Ok(p)
    ensures Admissible(env, parts, input, signature, opts, now, p, key, bytes)
  {
    var parsed := ParseSignatureInput(input, env.codec).value;
    key := parsed.0;
    bytes := ParseSignature(signature, key, env.codec).value;
    VerifyParsedIff(env, parts, input, key, parsed.1, bytes, opts, now);
    CanonicalIff(input, key, p, env.codec);
  }

  /** The answer by cause: the first cause that applies, in this order. */
  function ByCause(env: Env, parts: RequestParts, input: string, key: string, p: SignatureParams, bytes: seq<byte>,
                   opts: VerifyOptions, now: I64): Result<SignatureParams, HttpSigError>
    requires Serializable(p)
  {
    if parts.signatureAgent.Some? && "signature-agent" !in p.covered then Err(MalformedSignatureInput)
    else if parts.signatureAgent.None? && "signature-agent" in p.covered then Err(MissingComponent)
    else if p.tag != opts.expectedTag then Err(TagMismatch)
    else if p.expires <= p.created then Err(InvalidWindow)
    else if p.expires - p.created > 24 * 60 * 60 then Err(ValidityTooLong)
    else if p.created > now + AsI64(opts.clockSkew) then Err(CreatedInFuture)
    else if now >= p.expires then Err(Expired)
    else if env.algForDid(p.keyid).None? then Err(Crypto)
    else if env.algForDid(p.keyid) != Some(p.alg) then Err(AlgMismatch)
    else if Trim(input) != key + "=" + ParamsText(p) then Err(MalformedSignatureInput)
    else if Base(parts, p).Err? then Err(Base(parts, p).error)
    else if !env.authenticates(p.keyid, Base(parts, p).value, bytes) then Err(Crypto)
    else Ok(p)
  }

  /** The first check that fails names the error; the canonical text always prints. */
  lemma VerifyRefusals(env: Env, parts: RequestParts, input: string, signature: string, opts: VerifyOptions, now: I64,
                       key: string, p: SignatureParams, bytes: seq<byte>)
    requires ParseSignatureInput(input, env.codec) == Ok((key, p))
    requires ParseSignature(signature, key, env.codec) == Ok(bytes)
    ensures Serializable(p)
    ensures VerifyCore(env, parts, input, signature, opts, now) ==
            ByCause(env, parts, input, key, p, bytes, opts, now)
  {
    ParsedSerializable(input, env.codec);
    ParsedByCause(env, parts, input, key, p, bytes, opts, now);
  }

  lemma ParsedByCause(env: Env, parts: RequestParts, input: string, key: string, p: SignatureParams,
                      bytes: seq<byte>, opts: VerifyOptions, now: I64)
    requires IsKey(key) && Serializable(p)
    ensures VerifyParsed(env, parts, input, key, p, bytes, opts, now) ==
            ByCause(env, parts, input, key, p, bytes, opts, now)
  {
    Assoc(key, "=", ParamsText(p));
  }

  /** Every message that authenticates `did` is the base of some logged request signed by it. */
  ghost predicate Unforgeable(env: Env, log: set<(RequestParts, SignatureParams)>, did: string) {
    forall m, bytes :: env.authenticates(did, m, bytes) ==>
      exists e :: e in log && e.1.keyid == did && Base(e.0, e.1) == Ok(m)
  }

  /**
   An accepted request is one its signer signed: the same parameters, the same authority and the
   same agent header up to white space. Moving it to another host or changing a parameter fails.
   */
  lemma AcceptedWasSigned(env: Env, parts: RequestParts, input: string, signature: string, opts: VerifyOptions,
                          now: I64, log: set<(RequestParts, SignatureParams)>) returns (original: RequestParts)
    requires VerifyCore(env, parts, input, signature, opts, now).Ok?
    requires Unforgeable(env, log, VerifyCore(env, parts, input, signature, opts, now).value.keyid)
    ensures var p := VerifyCore(env, parts, input, signature, opts, now).value;
            (original, p) in log && Base(original, p).Ok?
    ensures Authority.AuthorityFromUri(original.targetUri) == Authority.AuthorityFromUri(parts.targetUri)
    ensures parts.signatureAgent.Some? ==>
      original.signatureAgent.Some? && Trim(original.signatureAgent.value) == Trim(parts.signatureAgent.value)
  {
    var p := VerifyCore(env, parts, input, signature, opts, now).value;
    var key, bytes := AcceptedAdmissible(env, parts, input, signature, opts, now, p);
    var m := Base(parts, p).value;
    var e :| e in log && e.1.keyid == p.keyid && Base(e.0, e.1) == Ok(m);
    original := e.0;
    BaseUnambiguous(parts, p, e.0, e.1);
  }

  // ---------- Single use ----------

  ghost function VerifyGuarded(env: Env, req: Request, opts: VerifyOptions, seen: map<string, int>, capacity: nat)
    : (Result<SignatureParams, HttpSigError>, map<string, int>)
    requires capacity > 0
  {
    match VerifyCore(env, req.parts, req.input, req.signature, opts, req.now)
    case Err(e) => (Err(e), seen)
    case Ok(p) =>
      var (r, after) := Record(seen, capacity, p.nonce, p.expires, req.now);
      (if r.Ok? then Ok(p) else Err(r.error), after)
  }

  datatype Request = Request(parts: RequestParts, input: string, signature: string, now: I64)

  function Verdict(env: Env, opts: VerifyOptions, req: Request): Result<SignatureParams, HttpSigError> {
    VerifyCore(env, req.parts, req.input, req.signature, opts, req.now)
  }

  /** The nonce is recorded only once the signature has verified. */
  method VerifyRequestAt(env: Env, req: Request, opts: VerifyOptions, guard: NonceReplayGuard?)
    returns (r: Result<string, HttpSigError>)
    requires guard != null ==> guard.capacity > 0
    modifies if guard == null then {} else {guard}
    ensures guard == null ==>
      r == Principal(VerifyCore(env, req.parts, req.input, req.signature, opts, req.now))
    ensures guard != null ==>
      var (result, seen) := VerifyGuarded(env, req, opts, old(guard.seen), guard.capacity);
      r == Principal(result) && guard.seen == seen
  {
    var result := VerifyCore(env, req.parts, req.input, req.signature, opts, req.now);
    if result.Err? {
      return Err(result.error);
    }
    var p := result.value;
    if guard != null {
      var recorded := guard.CheckAndRecordAt(p.nonce, p.expires, req.now);
      if recorded.Err? {
        return Err(recorded.error);
      }
    }
    return Ok(p.keyid);
  }

  function Principal(r: Result<SignatureParams, HttpSigError>): Result<string, HttpSigError> {
    match r case Err(e) => Err(e) case Ok(p) => Ok(p.keyid)
  }

  /** A guard's memory and every (nonce, expires) pair accepted so far. */
  datatype History = History(seen: map<string, int>, accepted: seq<(string, int)>)

  ghost function Step(env: Env, opts: VerifyOptions, capacity: nat, h: History, req: Request): History
    requires capacity > 0
  {
    var (r, seen) := VerifyGuarded(env, req, opts, h.seen, capacity);
    History(seen, if r.Ok? then h.accepted + [(r.value.nonce, r.value.expires)] else h.accepted)
  }

  ghost function Run(env: Env, opts: VerifyOptions, capacity: nat, reqs: seq<Request>): History
    requires capacity > 0
  {
    if reqs == [] then History(map[], [])
    else Step(env, opts, capacity, Run(env, opts, capacity, reqs[..|reqs| - 1]), reqs[|reqs| - 1])
  }

  /** Counting the nonce admitted, no more distinct nonces are unexpired than the guard can hold. */
  ghost predicate RoomAt(env: Env, opts: VerifyOptions, capacity: nat, h: History, req: Request) {
    var r := Verdict(env, opts, req);
    r.Ok? && r.value.nonce !in h.seen ==> |Unexpired(h.accepted, req.now) + {r.value.nonce}| <= capacity
  }

  /** There is room at every request of a run. */
  ghost predicate RoomThroughout(env: Env, opts: VerifyOptions, capacity: nat, reqs: seq<Request>)
    requires capacity > 0
  {
    reqs != [] ==>
      RoomThroughout(env, opts, capacity, reqs[..|reqs| - 1]) &&
      RoomAt(env, opts, capacity, Run(env, opts, capacity, reqs[..|reqs| - 1]), reqs[|reqs| - 1])
  }

  predicate ClockForward(reqs: seq<Request>) {
    forall i, j :: 0 <= i < j < |reqs| ==> reqs[i].now <= reqs[j].now
  }

  /** At time `t` the guard remembers every accepted nonce that has not expired, and nothing else. */
  ghost predicate Remembers(h: History, t: int) {
    && (forall i :: 0 <= i < |h.accepted| && h.accepted[i].1 > t ==>
          h.accepted[i].0 in h.seen && h.seen[h.accepted[i].0] == h.accepted[i].1)
    && (forall n :: n in h.seen ==> (n, h.seen[n]) in h.accepted)
  }

  lemma LiveFits(h: History, capacity: nat, nonce: string, now: int, t: int)
    requires Remembers(h, t) && t <= now && nonce !in h.seen
    requires |Unexpired(h.accepted, now) + {nonce}| <= capacity
    ensures |Live(h.seen, now)| < capacity
  {
    var live, all := Live(h.seen, now).Keys, Unexpired(h.accepted, now) + {nonce};
    forall n | n in live ensures n in all - {nonce} {
      var i :| 0 <= i < |h.accepted| && h.accepted[i] == (n, h.seen[n]);
    }
    Ranking.Fewer(live, all - {nonce});
  }

  lemma AdmitMemory(h: History, room: map<string, int>, nonce: string, expires: int, now: int)
    requires Remembers(h, now) && nonce !in h.seen
    requires forall n :: n in h.seen && h.seen[n] > now ==> n in room && room[n] == h.seen[n]
    requires forall n :: n in room ==> n in h.seen && room[n] == h.seen[n]
    ensures Remembers(History(room[nonce := expires], h.accepted + [(nonce, expires)]), now)
  {
    Append(h.accepted, (nonce, expires));
  }

  /** One admission keeps the memory exact and never repeats a pair. */
  lemma AdmitKeeps(h: History, capacity: nat, nonce: string, expires: int, now: int)
    requires 0 < capacity && Remembers(h, now) && Distinct(h.accepted) && now < expires && nonce !in h.seen
    requires |Unexpired(h.accepted, now) + {nonce}| <= capacity
    ensures var after := History(MakeRoom(h.seen, capacity, now)[nonce := expires], h.accepted + [(nonce, expires)]);
            Remembers(after, now) && Distinct(after.accepted)
  {
    LiveFits(h, capacity, nonce, now, now);
    RoomKeepsLive(h.seen, capacity, now);
    AdmitMemory(h, MakeRoom(h.seen, capacity, now), nonce, expires, now);
    DistinctAppend(h.accepted, (nonce, expires));
  }

  lemma RememberLater(h: History, t: int, now: int)
    requires Remembers(h, t) && t <= now
    ensures Remembers(h, now)
  {
  }

  lemma StepKeeps(env: Env, opts: VerifyOptions, capacity: nat, h: History, req: Request, t: int)
    requires 0 < capacity && Remembers(h, t) && Distinct(h.accepted) && t <= req.now
    requires RoomAt(env, opts, capacity, h, req)
    ensures var after := Step(env, opts, capacity, h, req); Remembers(after, req.now) && Distinct(after.accepted)
  {
    var r := VerifyCore(env, req.parts, req.input, req.signature, opts, req.now);
    RememberLater(h, t, req.now);
    if r.Ok? && r.value.nonce !in h.seen {
      NotExpired(env, req, opts);
      AdmitKeeps(h, capacity, r.value.nonce, r.value.expires, req.now);
    }
  }

  lemma NotExpired(env: Env, req: Request, opts: VerifyOptions)
    requires VerifyCore(env, req.parts, req.input, req.signature, opts, req.now).Ok?
    ensures req.now < VerifyCore(env, req.parts, req.input, req.signature, opts, req.now).value.expires
  {
    var p := VerifyCore(env, req.parts, req.input, req.signature, opts, req.now).value;
    var key, bytes := AcceptedAdmissible(env, req.parts, req.input, req.signature, opts, req.now, p);
  }

  lemma {:induction false} RunKeeps(env: Env, opts: VerifyOptions, capacity: nat, reqs: seq<Request>)
    requires 0 < capacity && ClockForward(reqs) && RoomThroughout(env, opts, capacity, reqs)
    ensures Distinct(Run(env, opts, capacity, reqs).accepted)
    ensures reqs != [] ==> Remembers(Run(env, opts, capacity, reqs), reqs[|reqs| - 1].now)
  {
    if reqs != [] {
      var k := |reqs| - 1;
      ForwardPrefix(reqs);
      RunKeeps(env, opts, capacity, reqs[..k]);
      StepKeeps(env, opts, capacity, Run(env, opts, capacity, reqs[..k]), reqs[k],
                if k == 0 then reqs[0].now else reqs[k - 1].now);
    }
  }

  lemma ForwardPrefix(reqs: seq<Request>)
    requires ClockForward(reqs) && reqs != []
    ensures ClockForward(reqs[..|reqs| - 1])
    ensures |reqs| > 1 ==> reqs[|reqs| - 2].now <= reqs[|reqs| - 1].now
  {
  }

  /**
   Over any run at a forward clock in which the unexpired nonces fit the guard, no (nonce, expires)
   pair is accepted twice: what the guard forgets has expired, and the window check refuses it.
   */
  lemma NeverAcceptedTwice(env: Env, opts: VerifyOptions, capacity: nat, reqs: seq<Request>)
    requires 0 < capacity && ClockForward(reqs) && RoomThroughout(env, opts, capacity, reqs)
    ensures Distinct(Run(env, opts, capacity, reqs).accepted)
  {
    RunKeeps(env, opts, capacity, reqs);
  }

  // Exactly when a replay gets through.

  /** The memory is exact at any later time too. */
  lemma MemoryExact(env: Env, opts: VerifyOptions, capacity: nat, reqs: seq<Request>, now: int)
    requires 0 < capacity && ClockForward(reqs) && RoomThroughout(env, opts, capacity, reqs)
    requires reqs != [] ==> reqs[|reqs| - 1].now <= now
    ensures Remembers(Run(env, opts, capacity, reqs), now) && Distinct(Run(env, opts, capacity, reqs).accepted)
  {
    RunKeeps(env, opts, capacity, reqs);
    if reqs != [] {
      RememberLater(Run(env, opts, capacity, reqs), reqs[|reqs| - 1].now, now);
    }
  }

  /** Presented again, an accepted request is accepted for as long as it has not expired. */
  lemma StaysAccepted(env: Env, opts: VerifyOptions, req: Request, now: I64)
    requires Verdict(env, opts, req).Ok? && req.now <= now < Verdict(env, opts, req).value.expires
    ensures Verdict(env, opts, req.(now := now)) == Verdict(env, opts, req)
  {
    var p := Verdict(env, opts, req).value;
    var key, bytes := AcceptedAdmissible(env, req.parts, req.input, req.signature, opts, req.now, p);
    AdmissibleLater(env, req.parts, req.input, req.signature, opts, req.now, now, p, key, bytes);
    AdmissibleAccepted(env, req.parts, req.input, req.signature, opts, now, p, key, bytes);
  }

  lemma AdmissibleLater(env: Env, parts: RequestParts, input: string, signature: string, opts: VerifyOptions,
                        now: I64, later: I64, p: SignatureParams, key: string, bytes: seq<byte>)
    requires Admissible(env, parts, input, signature, opts, now, p, key, bytes) && now <= later < p.expires
    ensures Admissible(env, parts, input, signature, opts, later, p, key, bytes)
  {
    WindowLater(p.created, p.expires, opts.clockSkew, now, later);
  }

  lemma WindowLater(created: int, expires: int, skew: U64, now: I64, later: I64)
    requires CheckWindow(created, expires, skew, now).Ok? && now <= later < expires
    ensures CheckWindow(created, expires, skew, later).Ok?
  {
  }

  lemma RunAppend(env: Env, opts: VerifyOptions, capacity: nat, reqs: seq<Request>, req: Request)
    requires 0 < capacity
    ensures Run(env, opts, capacity, reqs + [req]) == Step(env, opts, capacity, Run(env, opts, capacity, reqs), req)
  {
    var all := reqs + [req];
    assert all[..|all| - 1] == reqs && all[|all| - 1] == req;
  }

  lemma StepAccepts(env: Env, opts: VerifyOptions, capacity: nat, h: History, req: Request)
    requires 0 < capacity
    ensures var r, after := Verdict(env, opts, req), Step(env, opts, capacity, h, req);
            if r.Ok? && r.value.nonce !in h.seen
            then after.accepted == h.accepted + [(r.value.nonce, r.value.expires)] &&
                 after.seen == Record(h.seen, capacity, r.value.nonce, r.value.expires, req.now).1
            else after == h
  {
  }

  /** Every accepted pair is that of some request of the run. */
  lemma {:induction false} Traced(env: Env, opts: VerifyOptions, capacity: nat, reqs: seq<Request>, pair: (string, int))
    returns (i: nat)
    requires 0 < capacity && pair in Run(env, opts, capacity, reqs).accepted
    ensures i < |reqs| && Verdict(env, opts, reqs[i]).Ok?
    ensures pair == (Verdict(env, opts, reqs[i]).value.nonce, Verdict(env, opts, reqs[i]).value.expires)
  {
    var k := |reqs| - 1;
    var before := Run(env, opts, capacity, reqs[..k]);
    StepAccepts(env, opts, capacity, before, reqs[k]);
    if pair in before.accepted {
      i := Traced(env, opts, capacity, reqs[..k], pair);
    } else {
      i := k;
    }
  }

  /** With a full set of live entries, admitting one more forgets one of them. */
  lemma Forgotten(seen: map<string, int>, capacity: nat, nonce: string, expires: int, now: int) returns (v: string)
    requires 0 < capacity <= |Live(seen, now)| && nonce !in seen
    ensures v in seen && seen[v] > now && v !in Record(seen, capacity, nonce, expires, now).1
  {
    var live := Live(seen, now);
    Ranking.Fewer(live.Keys, seen.Keys);
    v := Ranking.First(live);
    assert v in live;
  }

  /** Room in the sense of accepted nonces is room in the guard's map. */
  lemma RoomIsLive(h: History, capacity: nat, nonce: string, now: int)
    requires Remembers(h, now) && nonce !in h.seen
    ensures |Unexpired(h.accepted, now) + {nonce}| <= capacity <==> |Live(h.seen, now)| < capacity
  {
    if |Unexpired(h.accepted, now) + {nonce}| <= capacity {
      LiveFits(h, capacity, nonce, now, now);
    }
    var live := Live(h.seen, now).Keys;
    forall n | n in Unexpired(h.accepted, now) ensures n in live {
      var i :| 0 <= i < |h.accepted| && h.accepted[i].1 > now && h.accepted[i].0 == n;
    }
    Ranking.Fewer(Unexpired(h.accepted, now) + {nonce}, live + {nonce});
  }

  /** Without room, some request already accepted is accepted again at the same moment. */
  lemma ReplayAccepted(env: Env, opts: VerifyOptions, capacity: nat, reqs: seq<Request>, req: Request)
    returns (again: Request)
    requires 0 < capacity && ClockForward(reqs + [req]) && RoomThroughout(env, opts, capacity, reqs)
    requires !RoomAt(env, opts, capacity, Run(env, opts, capacity, reqs), req)
    ensures again.now == req.now && !Distinct(Run(env, opts, capacity, reqs + [req] + [again]).accepted)
  {
    var h, p := Run(env, opts, capacity, reqs), Verdict(env, opts, req).value;
    LastBefore(reqs, req);
    MemoryExact(env, opts, capacity, reqs, req.now);
    RoomIsLive(h, capacity, p.nonce, req.now);
    var v := Forgotten(h.seen, capacity, p.nonce, p.expires, req.now);
    var i := Traced(env, opts, capacity, reqs, (v, h.seen[v]));
    assert reqs[i].now <= req.now by { assert (reqs + [req])[i] == reqs[i]; }
    StaysAccepted(env, opts, reqs[i], req.now);
    again := reqs[i].(now := req.now);
    RunAppend(env, opts, capacity, reqs, req);
    RunAppend(env, opts, capacity, reqs + [req], again);
    StepAccepts(env, opts, capacity, h, req);
    StepAccepts(env, opts, capacity, Run(env, opts, capacity, reqs + [req]), again);
    Repeats(h.accepted, (p.nonce, p.expires), (v, h.seen[v]));
  }

  lemma LastBefore(reqs: seq<Request>, req: Request)
    requires ClockForward(reqs + [req])
    ensures ClockForward(reqs) && (reqs != [] ==> reqs[|reqs| - 1].now <= req.now)
  {
    var all := reqs + [req];
    assert forall i :: 0 <= i < |reqs| ==> all[i] == reqs[i];
    assert all[|reqs|] == req;
  }

  lemma Repeats(accepted: seq<(string, int)>, mid: (string, int), pair: (string, int))
    requires pair in accepted
    ensures !Distinct(accepted + [mid] + [pair])
  {
    var all := accepted + [mid] + [pair];
    var i :| 0 <= i < |accepted| && accepted[i] == pair;
    assert all[i] == all[|accepted| + 1];
  }

  /** With exact memory no request repeats a pair. */
  lemma NoRepeat(env: Env, opts: VerifyOptions, capacity: nat, h: History, again: Request)
    requires 0 < capacity && Remembers(h, again.now) && Distinct(h.accepted)
    ensures Distinct(Step(env, opts, capacity, h, again).accepted)
  {
    StepAccepts(env, opts, capacity, h, again);
    var r := Verdict(env, opts, again);
    if r.Ok? && r.value.nonce !in h.seen {
      NotExpired(env, again, opts);
      DistinctAppend(h.accepted, (r.value.nonce, r.value.expires));
    }
  }

  /** No request presented at the moment of the last of `reqs` has a pair accepted a second time. */
  ghost predicate SafeAfter(env: Env, opts: VerifyOptions, capacity: nat, reqs: seq<Request>)
    requires capacity > 0 && reqs != []
  {
    forall again: Request :: again.now == reqs[|reqs| - 1].now ==>
      Distinct(Run(env, opts, capacity, reqs + [again]).accepted)
  }

  lemma SafeStepIff(env: Env, opts: VerifyOptions, capacity: nat, reqs: seq<Request>, req: Request)
    requires 0 < capacity && ClockForward(reqs + [req]) && RoomThroughout(env, opts, capacity, reqs)
    ensures SafeAfter(env, opts, capacity, reqs + [req]) <==>
            RoomAt(env, opts, capacity, Run(env, opts, capacity, reqs), req)
  {
    var h, all := Run(env, opts, capacity, reqs), reqs + [req];
    assert all[|all| - 1] == req;
    if RoomAt(env, opts, capacity, h, req) {
      LastBefore(reqs, req);
      MemoryExact(env, opts, capacity, reqs, req.now);
      StepKeeps(env, opts, capacity, h, req, req.now);
      RunAppend(env, opts, capacity, reqs, req);
      forall again: Request | again.now == req.now ensures Distinct(Run(env, opts, capacity, all + [again]).accepted) {
        RunAppend(env, opts, capacity, all, again);
        NoRepeat(env, opts, capacity, Run(env, opts, capacity, all), again);
      }
    } else {
      var again := ReplayAccepted(env, opts, capacity, reqs, req);
    }
  }

  /** That holds after every request of a run. */
  ghost predicate SafeThroughout(env: Env, opts: VerifyOptions, capacity: nat, reqs: seq<Request>)
    requires capacity > 0
  {
    reqs != [] ==>
      SafeThroughout(env, opts, capacity, reqs[..|reqs| - 1]) && SafeAfter(env, opts, capacity, reqs)
  }

  /**
   The bound is exact. Along a run at a forward clock the live nonces fit the guard throughout if
   and only if, after no request of the run, one presented at the same moment repeats a pair.
   */
  lemma {:induction false} NeverTwiceIff(env: Env, opts: VerifyOptions, capacity: nat, reqs: seq<Request>)
    requires 0 < capacity && ClockForward(reqs)
    ensures RoomThroughout(env, opts, capacity, reqs) <==> SafeThroughout(env, opts, capacity, reqs)
  {
    if reqs != [] {
      var before, req := reqs[..|reqs| - 1], reqs[|reqs| - 1];
      ForwardPrefix(reqs);
      NeverTwiceIff(env, opts, capacity, before);
      if RoomThroughout(env, opts, capacity, before) {
        assert reqs == before + [req];
        SafeStepIff(env, opts, capacity, before, req);
      }
    }
  }

  lemma GuardOfOne(a: string, until: int, b: string, expires: int, now: int)
    requires a != b && now < until
    ensures a !in Record(Record(map[], 1, a, until, now).1, 1, b, expires, now).1
    ensures b !in Record(map[], 1, a, until, now).1
  {
    var one := map[a := until];
    assert a in one && Live(one, now) == one;
    var v := Ranking.First(one);
    assert v == a;
  }

  /** In particular a guard of one forgets `a` for `b` and accepts `a` again. */
  lemma OverfullGuardForgets(env: Env, opts: VerifyOptions, a: Request, b: Request)
    requires Verdict(env, opts, a).Ok? && Verdict(env, opts, b).Ok? && a.now == b.now
    requires Verdict(env, opts, a).value.nonce != Verdict(env, opts, b).value.nonce
    ensures !Distinct(Run(env, opts, 1, [a, b, a]).accepted)
  {
    var p, q, none := Verdict(env, opts, a).value, Verdict(env, opts, b).value, History(map[], []);
    NotExpired(env, a, opts);
    GuardOfOne(p.nonce, p.expires, q.nonce, q.expires, a.now);
    var one := Step(env, opts, 1, none, a);
    var two := Step(env, opts, 1, one, b);
    StepAccepts(env, opts, 1, none, a);
    StepAccepts(env, opts, 1, one, b);
    StepAccepts(env, opts, 1, two, a);
    RunOfThree(env, opts, 1, a, b, a);
    assert one.accepted == [(p.nonce, p.expires)];
    Repeats(one.accepted, (q.nonce, q.expires), (p.nonce, p.expires));
  }

  lemma RunOfThree(env: Env, opts: VerifyOptions, capacity: nat, a: Request, b: Request, d: Request)
    requires 0 < capacity
    ensures Run(env, opts, capacity, [a, b, d]) ==
            Step(env, opts, capacity, Step(env, opts, capacity, Step(env, opts, capacity, History(map[], []), a), b), d)
  {
    RunAppend(env, opts, capacity, [], a);
    RunAppend(env, opts, capacity, [a], b);
    RunAppend(env, opts, capacity, [a, b], d);
    assert [] + [a] == [a] && [a] + [b] == [a, b] && [a, b] + [d] == [a, b, d];
  }
}
