/** Signing a request under one of the two profiles, and the round trip to the verifier. */
module SignRequest {
  import opened Wrappers
  import opened Bytes
  import opened Text
  import opened MachineInts
  import opened StructuredFields
  import opened HttpSigErrors
  import opened SignatureBase
  import opened SignatureInput
  import opened VerifyRequest
  import opened ReplayGuard

  const SIGNATURE_KEY := "sig1"
  const TAG_WEB_BOT_AUTH := "web-bot-auth"
  const ALG_ED25519 := "ed25519"

  /** `std::time::Duration`: whole seconds and the nanoseconds beyond them. */
  datatype Duration = Duration(secs: U64, nanos: nat)

  datatype Profile = AquaInternal | WebBotAuth(jwkThumbprint: string)

  /** What a signing backend offers: the DID it signs for, and a signature or a failure. */
  datatype Signer = Signer(did: string, sign: string -> Option<seq<byte>>)

  function ValiditySeconds(validity: Duration): Result<I64, HttpSigError> {
    if validity.secs == 0 then Err(ValidityZero)
    else if validity.secs > MAX_VALIDITY || (validity.secs == MAX_VALIDITY && validity.nanos > 0) then
      Err(ValidityTooLong)
    else Ok(validity.secs)
  }

  /** The key id, algorithm and tag a profile dictates. */
  function ProfileParameters(env: Env, profile: Profile, did: string): Result<(string, string, string), HttpSigError> {
    match env.algForDid(did)
    case None => Err(Crypto)
    case Some(alg) =>
      match profile
      case AquaInternal => Ok((did, alg, TAG_AQUA_INTERNAL))
      case WebBotAuth(thumbprint) =>
        if alg != ALG_ED25519 then Err(ProfileRequiresEd25519)
        else if Trim(thumbprint) == [] then Err(EmptyThumbprint)
        else Ok((Trim(thumbprint), ALG_ED25519, TAG_WEB_BOT_AUTH))
  }

  function RequestParams(env: Env, signer: Signer, parts: RequestParts, profile: Profile, validity: Duration,
                         created: I64, nonce: string): Result<SignatureParams, HttpSigError>
  {
    var window :- ValiditySeconds(validity);
    var triple :- ProfileParameters(env, profile, signer.did);
    Ok(SignatureParams(CoveredComponents(parts), created, SaturatingAdd(created, window),
                       triple.0, triple.1, nonce, triple.2))
  }

  datatype SignedHeaders = SignedHeaders(signatureInput: string, signature: string)

  /** Serialise the parameters and the signature over their base. */
  function SignParams(env: Env, signer: Signer, parts: RequestParts, p: SignatureParams)
    : Result<SignedHeaders, HttpSigError>
  {
    var base :- Base(parts, p);
    match signer.sign(base)
    case None => Err(Sign)
    case Some(bytes) =>
      var input :- SignatureInputHeader(SIGNATURE_KEY, p);
      var signature :- SignatureHeader(SIGNATURE_KEY, bytes, env.codec);
      Ok(SignedHeaders(input, signature))
  }

  function SignRequestAt(env: Env, signer: Signer, parts: RequestParts, profile: Profile, validity: Duration,
                         created: I64, nonce: string): Result<SignedHeaders, HttpSigError>
  {
    var p :- RequestParams(env, signer, parts, profile, validity, created, nonce);
    SignParams(env, signer, parts, p)
  }

  /** Signatures made by the signer authenticate its DID. */
  ghost predicate Honest(env: Env, signer: Signer) {
    forall m :: signer.sign(m).Some? ==> env.authenticates(signer.did, m, signer.sign(m).value)
  }

  lemma SigKeyIsKey()
    ensures IsKey(SIGNATURE_KEY)
  {
  }

  /** The headers the signer writes are admissible once the window check passes. */
  lemma SignedAdmissible(env: Env, signer: Signer, parts: RequestParts, p: SignatureParams, opts: VerifyOptions,
                         now: I64, h: SignedHeaders)
    requires Lawful(env.codec) && Honest(env, signer) && SignParams(env, signer, parts, p) == Ok(h)
    requires p.covered == CoveredComponents(parts) && p.tag == opts.expectedTag
    requires p.keyid == signer.did && env.algForDid(p.keyid) == Some(p.alg)
    ensures CheckWindow(p.created, p.expires, opts.clockSkew, now).Ok? <==>
            VerifyCore(env, parts, h.signatureInput, h.signature, opts, now) == Ok(p)
    ensures VerifyCore(env, parts, h.signatureInput, h.signature, opts, now).Ok? ==>
            VerifyCore(env, parts, h.signatureInput, h.signature, opts, now) == Ok(p)
  {
    SigKeyIsKey();
    CoveredInProfile(parts, p);
    SignedReads(env, parts, p, signer.sign(Base(parts, p).value).value, h, opts, now);
  }

  lemma CoveredInProfile(parts: RequestParts, p: SignatureParams)
    requires p.covered == CoveredComponents(parts) && Base(parts, p).Ok?
    ensures InProfile(p) && (AGENT in p.covered <==> parts.signatureAgent.Some?)
  {
    NamesDiffer();
    if parts.signatureAgent.Some? {
      assert p.covered[0] == AUTHORITY && p.covered[1] == AGENT;
    } else {
      assert p.covered[0] == AUTHORITY;
    }
  }

  lemma SignedSpells(p: SignatureParams, input: string)
    requires IsKey(SIGNATURE_KEY) && SignatureInputHeader(SIGNATURE_KEY, p) == Ok(input)
    ensures Serializable(p) && Spells(input, [], [], SIGNATURE_KEY, p)
  {
    assert ParamsText(p) + [] == ParamsText(p);
    assert [] + input == input;
  }

  lemma SignedTrimmed(p: SignatureParams)
    requires IsKey(SIGNATURE_KEY) && Serializable(p)
    ensures var input := SignatureInputHeader(SIGNATURE_KEY, p).value; Trim(input) == input
  {
    CanonicalTrimmed(SIGNATURE_KEY, p);
    var input := SignatureInputHeader(SIGNATURE_KEY, p).value;
    TrimPadded([], input, []);
    assert [] + input + [] == input;
  }

  /**
   A request signed under the internal profile verifies, for the signer's DID, at exactly the clocks
   from `created - skew`, the skew as a signed integer, up to but not including `created + validity`.
   */
  lemma SignThenVerify(env: Env, signer: Signer, parts: RequestParts, validity: Duration, created: I64,
                       nonce: string, opts: VerifyOptions, now: I64)
    requires Lawful(env.codec) && Honest(env, signer)
    requires opts.expectedTag == "aqua-auth"
    requires SignRequestAt(env, signer, parts, AquaInternal, validity, created, nonce).Ok?
    ensures var h := SignRequestAt(env, signer, parts, AquaInternal, validity, created, nonce).value;
            var r := VerifyCore(env, parts, h.signatureInput, h.signature, opts, now);
            && (r.Ok? <==> created - AsI64(opts.clockSkew) <= now < created + validity.secs)
            && (r.Ok? ==> r.value.keyid == signer.did && r.value.nonce == nonce &&
                          r.value.expires == created + validity.secs)
  {
    var p := RequestParams(env, signer, parts, AquaInternal, validity, created, nonce).value;
    var h := SignParams(env, signer, parts, p).value;
    assert Serializable(p) && InRange(created) && validity.secs <= MAX_VALIDITY;
    SignedAdmissible(env, signer, parts, p, opts, now, h);
    WindowIff(p.created, p.expires, opts.clockSkew, now);
  }

  /** With a guard, the round trip also needs the nonce to be unseen, and then remembers it. */
  lemma SignThenVerifyGuarded(env: Env, signer: Signer, parts: RequestParts, validity: Duration, created: I64,
                              nonce: string, opts: VerifyOptions, now: I64, seen: map<string, int>, capacity: nat)
    requires Lawful(env.codec) && Honest(env, signer) && capacity > 0
    requires opts.expectedTag == "aqua-auth"
    requires SignRequestAt(env, signer, parts, AquaInternal, validity, created, nonce).Ok?
    requires created - AsI64(opts.clockSkew) <= now < created + validity.secs
    ensures var h := SignRequestAt(env, signer, parts, AquaInternal, validity, created, nonce).value;
            var req := Request(parts, h.signatureInput, h.signature, now);
            var (r, after) := VerifyGuarded(env, req, opts, seen, capacity);
            && (if nonce in seen then r == Err(NonceReplayed) && after == seen else r.Ok?)
            && (r.Ok? ==> Principal(r) == Ok(signer.did) && nonce in after && after[nonce] == created + validity.secs)
  {
    SignThenVerify(env, signer, parts, validity, created, nonce, opts, now);
  }

  // What is signed, and when.

  /** The parameters of a request: key id, algorithm and tag by profile, covered list by header. */
  predicate Requested(env: Env, did: string, parts: RequestParts, profile: Profile, secs: int, created: int,
                      nonce: string, p: SignatureParams)
  {
    && p.covered == (if parts.signatureAgent.None? then ["@authority"] else ["@authority", "signature-agent"])
    && p.created == created && p.expires == created + secs && p.nonce == nonce
    && env.algForDid(did) == Some(p.alg)
    && match profile
       case AquaInternal => p.keyid == did && p.tag == "aqua-auth"
       case WebBotAuth(thumbprint) =>
         p.keyid == Trim(thumbprint) && !Blank(thumbprint) && p.alg == "ed25519" && p.tag == "web-bot-auth"
  }

  /** At least a second, at most a day. */
  predicate ValidityOk(v: Duration) {
    0 < v.secs && (v.secs < 24 * 60 * 60 || (v.secs == 24 * 60 * 60 && v.nanos == 0))
  }

  /** The headers carry these parameters and the signer's bytes for their base. */
  ghost predicate Signs(env: Env, signer: Signer, parts: RequestParts, p: SignatureParams, base: string,
                        bytes: seq<byte>, h: SignedHeaders)
  {
    && Base(parts, p) == Ok(base) && Serializable(p) && signer.sign(base) == Some(bytes)
    && h.signatureInput == "sig1=" + ParamsText(p) && h.signature == "sig1=:" + env.codec.encode(bytes) + ":"
  }

  /** When signing succeeds, and with which headers. */
  lemma SignIff(env: Env, signer: Signer, parts: RequestParts, profile: Profile, validity: Duration, created: I64,
                nonce: string, h: SignedHeaders)
    ensures SignRequestAt(env, signer, parts, profile, validity, created, nonce) == Ok(h) <==>
            ValidityOk(validity) &&
            exists p, base, bytes :: Requested(env, signer.did, parts, profile, validity.secs, created, nonce, p) &&
                                     Signs(env, signer, parts, p, base, bytes, h)
  {
    if SignRequestAt(env, signer, parts, profile, validity, created, nonce) == Ok(h) {
      SignedRequested(env, signer, parts, profile, validity, created, nonce, h);
    }
    forall p, base, bytes | ValidityOk(validity) && Signs(env, signer, parts, p, base, bytes, h) &&
                            Requested(env, signer.did, parts, profile, validity.secs, created, nonce, p)
      ensures SignRequestAt(env, signer, parts, profile, validity, created, nonce) == Ok(h)
    {
      RequestedParams(env, signer, parts, profile, validity, created, nonce, p);
      HeadersIff(env, signer, parts, p, h, base, bytes);
    }
  }

  lemma SignedRequested(env: Env, signer: Signer, parts: RequestParts, profile: Profile, validity: Duration,
                        created: I64, nonce: string, h: SignedHeaders)
    requires SignRequestAt(env, signer, parts, profile, validity, created, nonce) == Ok(h)
    ensures ValidityOk(validity)
    ensures exists p, base, bytes :: Requested(env, signer.did, parts, profile, validity.secs, created, nonce, p) &&
                                     Signs(env, signer, parts, p, base, bytes, h)
  {
    var p := RequestParams(env, signer, parts, profile, validity, created, nonce).value;
    var base := Base(parts, p).value;
    assert Serializable(p);
    RequestedParams(env, signer, parts, profile, validity, created, nonce, p);
    HeadersIff(env, signer, parts, p, h, base, signer.sign(base).value);
  }

  lemma RequestedParams(env: Env, signer: Signer, parts: RequestParts, profile: Profile, validity: Duration,
                        created: I64, nonce: string, p: SignatureParams)
    requires Serializable(p)
    ensures RequestParams(env, signer, parts, profile, validity, created, nonce) == Ok(p) <==>
            ValidityOk(validity) && Requested(env, signer.did, parts, profile, validity.secs, created, nonce, p)
  {
    if profile.WebBotAuth? {
      BlankTrims(profile.jwkThumbprint);
    }
  }

  lemma HeadersIff(env: Env, signer: Signer, parts: RequestParts, p: SignatureParams, h: SignedHeaders, base: string,
                   bytes: seq<byte>)
    requires Serializable(p) && Base(parts, p) == Ok(base) && signer.sign(base) == Some(bytes)
    ensures SignParams(env, signer, parts, p) == Ok(h) <==> Signs(env, signer, parts, p, base, bytes, h)
  {
    SigKeyIsKey();
    HeaderText(ParamsText(p));
    HeaderText(":" + env.codec.encode(bytes) + ":");
    BytesText(env.codec.encode(bytes));
  }

  lemma HeaderText(text: string)
    ensures SIGNATURE_KEY + (['='] + text) == "sig1=" + text
  {
  }

  lemma BytesText(text: string)
    ensures "sig1=" + (":" + text + ":") == "sig1=:" + text + ":"
  {
  }

  /** The first check that fails names the error. */
  lemma SignRefusals(env: Env, signer: Signer, parts: RequestParts, profile: Profile, validity: Duration,
                     created: I64, nonce: string)
    ensures var r := SignRequestAt(env, signer, parts, profile, validity, created, nonce);
            var alg := env.algForDid(signer.did);
            if validity.secs == 0 then r == Err(ValidityZero)
            else if !ValidityOk(validity) then r == Err(ValidityTooLong)
            else if alg.None? then r == Err(Crypto)
            else if profile.WebBotAuth? && alg.value != "ed25519" then r == Err(ProfileRequiresEd25519)
            else if profile.WebBotAuth? && Blank(profile.jwkThumbprint) then r == Err(EmptyThumbprint)
            else
              forall p :: Requested(env, signer.did, parts, profile, validity.secs, created, nonce, p) ==>
                match Base(parts, p)
                case Err(e) => r == Err(e)
                case Ok(base) => if signer.sign(base).None? then r == Err(Sign) else r.Ok?
  {
    SigKeyIsKey();
    if profile.WebBotAuth? {
      BlankTrims(profile.jwkThumbprint);
    }
    forall p | ValidityOk(validity) &&
               Requested(env, signer.did, parts, profile, validity.secs, created, nonce, p)
      ensures RequestParams(env, signer, parts, profile, validity, created, nonce).Ok?
      ensures var q := RequestParams(env, signer, parts, profile, validity, created, nonce).value;
              Base(parts, p) == Base(parts, q) && (Base(parts, p).Ok? ==> p == q)
    {
      var q := RequestParams(env, signer, parts, profile, validity, created, nonce).value;
      assert q.covered == p.covered;
      assert q == p || (!Serializable(p) && !Serializable(q));
    }
  }

  /**
   A Web Bot Auth request names its key by thumbprint, so this verifier, which reads the key id as a
   DID, accepts it only where the thumbprint is itself an Ed25519 identity the signature authenticates.
   */
  lemma WebBotAuthIff(env: Env, signer: Signer, parts: RequestParts, thumbprint: string, validity: Duration,
                      created: I64, nonce: string, opts: VerifyOptions, now: I64, h: SignedHeaders)
    requires Lawful(env.codec) && opts.expectedTag == "web-bot-auth"
    requires SignRequestAt(env, signer, parts, WebBotAuth(thumbprint), validity, created, nonce) == Ok(h)
    ensures VerifyCore(env, parts, h.signatureInput, h.signature, opts, now).Ok? <==>
            created - AsI64(opts.clockSkew) <= now < created + validity.secs &&
            env.algForDid(Trim(thumbprint)) == Some("ed25519") &&
            exists p, base, bytes ::
              Requested(env, signer.did, parts, WebBotAuth(thumbprint), validity.secs, created, nonce, p) &&
              Signs(env, signer, parts, p, base, bytes, h) && env.authenticates(Trim(thumbprint), base, bytes)
  {
    SignedRequested(env, signer, parts, WebBotAuth(thumbprint), validity, created, nonce, h);
    forall p, base, bytes | Signs(env, signer, parts, p, base, bytes, h) &&
        Requested(env, signer.did, parts, WebBotAuth(thumbprint), validity.secs, created, nonce, p)
      ensures VerifyCore(env, parts, h.signatureInput, h.signature, opts, now).Ok? <==>
              created - AsI64(opts.clockSkew) <= now < created + validity.secs &&
              env.algForDid(Trim(thumbprint)) == Some("ed25519") && env.authenticates(Trim(thumbprint), base, bytes)
    {
      SigKeyIsKey();
      HeadersIff(env, signer, parts, p, h, base, bytes);
      SignedReads(env, parts, p, bytes, h, opts, now);
      CoveredInProfile(parts, p);
      WindowIff(p.created, p.expires, opts.clockSkew, now);
    }
  }

  /** What the verifier makes of signed headers. */
  lemma SignedReads(env: Env, parts: RequestParts, p: SignatureParams, bytes: seq<byte>, h: SignedHeaders,
                    opts: VerifyOptions, now: I64)
    requires Lawful(env.codec) && p.covered == CoveredComponents(parts) && Base(parts, p).Ok?
    requires IsKey(SIGNATURE_KEY) && SignatureInputHeader(SIGNATURE_KEY, p) == Ok(h.signatureInput)
    requires SignatureHeader(SIGNATURE_KEY, bytes, env.codec) == Ok(h.signature)
    ensures VerifyCore(env, parts, h.signatureInput, h.signature, opts, now).Ok? <==>
            PassesChecks(env, parts, p, bytes, opts, now)
    ensures VerifyCore(env, parts, h.signatureInput, h.signature, opts, now).Ok? ==>
            VerifyCore(env, parts, h.signatureInput, h.signature, opts, now) == Ok(p)
  {
    CoveredInProfile(parts, p);
    SignedSpells(p, h.signatureInput);
    ParseInvertsPrint(h.signatureInput, [], [], SIGNATURE_KEY, p, env.codec);
    ParseSignatureInvertsPrint(SIGNATURE_KEY, bytes, env.codec);
    VerifyParsedIff(env, parts, h.signatureInput, SIGNATURE_KEY, p, bytes, opts, now);
    SignedTrimmed(p);
  }
}
