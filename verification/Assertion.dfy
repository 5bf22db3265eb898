/** Verifying a passkey assertion without a stored key. */
module Assertion {
  import opened Wrappers
  import opened Bytes
  import opened PrimeField
  import opened KeyRecovery
  import opened RpPolicy

  datatype AssertionError =
    | Malformed | RpIdNotAllowed | OriginNotAllowed | CrossOrigin | TopOriginPresent | WrongType
    | ChallengeMismatch | UserPresenceMissing | UserVerificationMissing | BadSignature | InvalidNodeUrl

  datatype AssertionJson = AssertionJson(
    credentialType: string, id: string, rawId: string, authenticatorData: string,
    clientDataJson: string, signature: string, userHandle: Option<string>)

  datatype ClientData = ClientData(
    kind: string, challenge: string, origin: string, crossOrigin: Option<bool>, topOrigin: bool)

  datatype ExpectedChallenge = Exact(want: seq<byte>) | DerivedLogin(nonce: seq<byte>, nodeUrl: string)

  /** The curve, base64url, JSON, the challenge derivation, DER, SHA-256 and a digest as a scalar. */
  datatype Library = Library(
    curve: Curve,
    decode: string -> Option<seq<byte>>,
    parseClient: seq<byte> -> Option<ClientData>,
    deriveLogin: (seq<byte>, string) -> Option<seq<byte>>,
    fromDer: seq<byte> -> Option<(int, int)>,
    sha256: seq<byte> -> seq<byte>,
    scalar: seq<byte> -> int)

  datatype Recovered = Recovered(
    rpId: string, origin: string, userVerified: bool, backupEligible: bool, backupState: bool,
    credentialId: seq<byte>, userHandle: Option<seq<byte>>, candidates: (int, int))

  const FLAG_UP := 0x01
  const FLAG_UV := 0x04
  const FLAG_BE := 0x08
  const FLAG_BS := 0x10
  const AUTH_DATA_MIN := 37

  /** `flag` is a power of two. */
  predicate HasFlag(flags: byte, flag: nat)
    requires flag > 0
  {
    flags / flag % 2 == 1
  }

  /** The binary members, once decoded. */
  datatype Parts = Parts(
    credentialId: seq<byte>, authData: seq<byte>, clientJson: seq<byte>, signature: seq<byte>,
    userHandle: Option<seq<byte>>, client: ClientData)

  function Decoded(lib: Library, s: string): Result<seq<byte>, AssertionError> {
    match lib.decode(s) case Some(b) => Ok(b) case None => Err(Malformed)
  }

  function DecodedHandle(lib: Library, h: Option<string>): Result<Option<seq<byte>>, AssertionError> {
    match h
    case None => Ok(None)
    case Some(s) => (match lib.decode(s) case Some(b) => Ok(Some(b)) case None => Err(Malformed))
  }

  function Structure(lib: Library, a: AssertionJson): Result<Parts, AssertionError> {
    if a.credentialType != "public-key" then Err(Malformed) else
    var credentialId :- Decoded(lib, a.rawId);
    var id :- Decoded(lib, a.id);
    if id != credentialId then Err(Malformed) else
    var authData :- Decoded(lib, a.authenticatorData);
    var clientJson :- Decoded(lib, a.clientDataJson);
    var signature :- Decoded(lib, a.signature);
    var userHandle :- DecodedHandle(lib, a.userHandle);
    if |authData| < AUTH_DATA_MIN then Err(Malformed) else
    match lib.parseClient(clientJson)
    case None => Err(Malformed)
    case Some(client) => Ok(Parts(credentialId, authData, clientJson, signature, userHandle, client))
  }

  function Want(lib: Library, expected: ExpectedChallenge): Option<seq<byte>> {
    match expected
    case Exact(want) => Some(want)
    case DerivedLogin(nonce, nodeUrl) => lib.deriveLogin(nonce, nodeUrl)
  }

  /** The ceremony checks, in order; none needs a key. */
  function Ceremony(lib: Library, policy: Policy, expected: ExpectedChallenge, parts: Parts)
    : Result<RpEntry, AssertionError>
    requires |parts.authData| >= AUTH_DATA_MIN
  {
    var client, flags := parts.client, parts.authData[32];
    if client.kind != "webauthn.get" then Err(WrongType)
    else if lib.decode(client.challenge).None? then Err(Malformed)
    else if Want(lib, expected).None? then Err(InvalidNodeUrl)
    else if lib.decode(client.challenge) != Want(lib, expected) then Err(ChallengeMismatch)
    else match EntryFor(policy.entries, parts.authData[..32])
      case None => Err(RpIdNotAllowed)
      case Some(entry) =>
        if !AllowsOrigin(entry, client.origin) then Err(OriginNotAllowed)
        else if client.crossOrigin == Some(true) then Err(CrossOrigin)
        else if client.topOrigin then Err(TopOriginPresent)
        else if !HasFlag(flags, FLAG_UP) then Err(UserPresenceMissing)
        else if policy.requireUv && !HasFlag(flags, FLAG_UV) then Err(UserVerificationMissing)
        else Ok(entry)
  }

  /** The scalar the signature is over: the digest of the authenticator data and the client data hash. */
  function Digest(lib: Library, parts: Parts): int {
    lib.scalar(lib.sha256(parts.authData + lib.sha256(parts.clientJson)))
  }

  function Signature(lib: Library, parts: Parts): Option<Signed> {
    match lib.fromDer(parts.signature)
    case None => None
    case Some((r, s)) =>
      var g := Signed(Digest(lib, parts), r, s);
      if InRange(lib.curve.n, g) then Some(g) else None
  }

  ghost function RecoverKeys(lib: Library, parts: Parts): Result<(int, int), AssertionError>
    requires Prime(lib.curve.n)
  {
    match Signature(lib, parts)
    case None => Err(BadSignature)
    case Some(g) => (match Candidates(lib.curve, g) case None => Err(BadSignature) case Some(c) => Ok(c))
  }

  ghost function VerifyAndRecover(lib: Library, policy: Policy, a: AssertionJson, expected: ExpectedChallenge)
    : Result<Recovered, AssertionError>
    requires Prime(lib.curve.n)
  {
    var parts :- Structure(lib, a);
    var entry :- Ceremony(lib, policy, expected, parts);
    var candidates :- RecoverKeys(lib, parts);
    var flags := parts.authData[32];
    Ok(Recovered(entry.rpId, parts.client.origin,
                 HasFlag(flags, FLAG_UV), HasFlag(flags, FLAG_BE), HasFlag(flags, FLAG_BS),
                 parts.credentialId, parts.userHandle, candidates))
  }

  /** Everything an assertion shows about itself before a signature is looked at. */
  predicate Presented(lib: Library, policy: Policy, expected: ExpectedChallenge, parts: Parts, entry: RpEntry) {
    && |parts.authData| >= AUTH_DATA_MIN
    && parts.client.kind == "webauthn.get" && !parts.client.topOrigin && parts.client.crossOrigin != Some(true)
    && Want(lib, expected).Some? && lib.decode(parts.client.challenge) == Want(lib, expected)
    && EntryFor(policy.entries, parts.authData[..32]) == Some(entry) && AllowsOrigin(entry, parts.client.origin)
    && HasFlag(parts.authData[32], FLAG_UP) && (policy.requireUv ==> HasFlag(parts.authData[32], FLAG_UV))
  }

  lemma CeremonyIff(lib: Library, policy: Policy, expected: ExpectedChallenge, parts: Parts, entry: RpEntry)
    requires |parts.authData| >= AUTH_DATA_MIN
    ensures Ceremony(lib, policy, expected, parts) == Ok(entry) <==> Presented(lib, policy, expected, parts, entry)
  {
  }

  lemma NeverBadSignature(lib: Library, policy: Policy, a: AssertionJson, expected: ExpectedChallenge)
    ensures Structure(lib, a) != Err(BadSignature)
    ensures Structure(lib, a).Ok? ==> Ceremony(lib, policy, expected, Structure(lib, a).value) != Err(BadSignature)
  {
  }

  /** A signature from which both keys can be recovered. */
  ghost predicate Signs(lib: Library, parts: Parts)
    requires Prime(lib.curve.n)
  {
    Signature(lib, parts).Some? && Recoverable(lib.curve, Signature(lib, parts).value)
  }

  lemma RecoverKeysIff(lib: Library, parts: Parts)
    requires Lawful(lib.curve)
    ensures RecoverKeys(lib, parts).Ok? <==> Signs(lib, parts)
    ensures RecoverKeys(lib, parts).Err? ==> RecoverKeys(lib, parts).error == BadSignature
  {
    if Signature(lib, parts).Some? {
      CandidatesIff(lib.curve, Signature(lib, parts).value);
    }
  }

  lemma RecoverParts(lib: Library, policy: Policy, a: AssertionJson, expected: ExpectedChallenge, parts: Parts)
    requires Prime(lib.curve.n) && Structure(lib, a) == Ok(parts)
    ensures |parts.authData| >= AUTH_DATA_MIN
    ensures var r := VerifyAndRecover(lib, policy, a, expected);
            match Ceremony(lib, policy, expected, parts)
            case Err(e) => r == Err(e)
            case Ok(entry) =>
              match RecoverKeys(lib, parts)
              case Err(e) => r == Err(e)
              case Ok(keys) =>
                && r.Ok? && r.value.candidates == keys && r.value.rpId == entry.rpId
                && r.value.origin == parts.client.origin && r.value.credentialId == parts.credentialId
                && r.value.userVerified == HasFlag(parts.authData[32], FLAG_UV)
  {
  }

  /** Acceptance, exactly; and the signature is only ever blamed when nothing else is wrong. */
  lemma VerifyAndRecoverIff(lib: Library, policy: Policy, a: AssertionJson, expected: ExpectedChallenge)
    requires Lawful(lib.curve)
    ensures VerifyAndRecover(lib, policy, a, expected).Ok? <==>
            Structure(lib, a).Ok? && (exists e :: Presented(lib, policy, expected, Structure(lib, a).value, e)) &&
            Signs(lib, Structure(lib, a).value)
    ensures VerifyAndRecover(lib, policy, a, expected) == Err(BadSignature) <==>
            Structure(lib, a).Ok? && (exists e :: Presented(lib, policy, expected, Structure(lib, a).value, e)) &&
            !Signs(lib, Structure(lib, a).value)
  {
    NeverBadSignature(lib, policy, a, expected);
    if Structure(lib, a).Ok? {
      var parts := Structure(lib, a).value;
      RecoverParts(lib, policy, a, expected, parts);
      RecoverKeysIff(lib, parts);
      forall e ensures Ceremony(lib, policy, expected, parts) == Ok(e) <==> Presented(lib, policy, expected, parts, e) {
        CeremonyIff(lib, policy, expected, parts, e);
      }
    }
  }

  // The same in terms of what was sent.

  /** The signature an assertion carries, over the authenticator data and the hash of the client data. */
  ghost predicate Payload(lib: Library, a: AssertionJson, g: Signed) {
    exists ad, cd, sig ::
      && lib.decode(a.authenticatorData) == Some(ad) && lib.decode(a.clientDataJson) == Some(cd)
      && lib.decode(a.signature) == Some(sig) && lib.fromDer(sig) == Some((g.r, g.s))
      && g.z == lib.scalar(lib.sha256(ad + lib.sha256(cd)))
  }

  /** Every binary member decodes, the two ids agree, and the two data members can be read. */
  predicate WellFormed(lib: Library, a: AssertionJson, ad: seq<byte>, cd: seq<byte>, client: ClientData) {
    && a.credentialType == "public-key" && lib.decode(a.rawId).Some? && lib.decode(a.id) == lib.decode(a.rawId)
    && lib.decode(a.authenticatorData) == Some(ad) && |ad| >= 32 + 1 + 4
    && lib.decode(a.clientDataJson) == Some(cd) && lib.parseClient(cd) == Some(client)
    && lib.decode(a.signature).Some? && (a.userHandle.Some? ==> lib.decode(a.userHandle.value).Some?)
  }

  predicate AnswersChallenge(lib: Library, expected: ExpectedChallenge, client: ClientData) {
    match expected
    case Exact(want) => lib.decode(client.challenge) == Some(want)
    case DerivedLogin(nonce, nodeUrl) =>
      lib.deriveLogin(nonce, nodeUrl).Some? && lib.decode(client.challenge) == lib.deriveLogin(nonce, nodeUrl)
  }

  /** Bit `k` of a byte. */
  predicate Bit(b: byte, k: nat) {
    match k
    case 0 => b % 2 == 1
    case 2 => b / 4 % 2 == 1
    case 3 => b / 8 % 2 == 1
    case 4 => b / 16 % 2 == 1
    case _ => false
  }

  /** What an assertion has to show, and what it is reported as. */
  ghost predicate Accepts(lib: Library, policy: Policy, expected: ExpectedChallenge, a: AssertionJson, rec: Recovered,
                          ad: seq<byte>, cd: seq<byte>, client: ClientData, g: Signed)
    requires Prime(lib.curve.n)
  {
    && WellFormed(lib, a, ad, cd, client)
    && client.kind == "webauthn.get" && client.crossOrigin != Some(true) && !client.topOrigin
    && AnswersChallenge(lib, expected, client)
    && Bit(ad[32], 0) && (policy.requireUv ==> Bit(ad[32], 2))
    && EntryFor(policy.entries, ad[..32]).Some?
    && AllowsOrigin(EntryFor(policy.entries, ad[..32]).value, client.origin)
    && Payload(lib, a, g) && InRange(lib.curve.n, g) && Candidates(lib.curve, g).Some?
    && rec.rpId == EntryFor(policy.entries, ad[..32]).value.rpId && rec.origin == client.origin
    && rec.userVerified == Bit(ad[32], 2) && rec.backupEligible == Bit(ad[32], 3) && rec.backupState == Bit(ad[32], 4)
    && lib.decode(a.rawId) == Some(rec.credentialId)
    && rec.userHandle == (if a.userHandle.None? then None else lib.decode(a.userHandle.value))
    && Candidates(lib.curve, g) == Some(rec.candidates)
  }

  lemma StructureIs(lib: Library, a: AssertionJson, ad: seq<byte>, cd: seq<byte>, client: ClientData)
    ensures WellFormed(lib, a, ad, cd, client) <==>
            Structure(lib, a).Ok? && Structure(lib, a).value.authData == ad &&
            Structure(lib, a).value.clientJson == cd && Structure(lib, a).value.client == client
    ensures Structure(lib, a).Ok? ==>
      && lib.decode(a.signature) == Some(Structure(lib, a).value.signature)
      && lib.decode(a.rawId) == Some(Structure(lib, a).value.credentialId)
      && Structure(lib, a).value.userHandle == (if a.userHandle.None? then None else lib.decode(a.userHandle.value))
    ensures Structure(lib, a).Err? ==> Structure(lib, a) == Err(Malformed)
  {
  }

  lemma PayloadIs(lib: Library, a: AssertionJson, parts: Parts, g: Signed)
    requires Structure(lib, a) == Ok(parts)
    ensures Signature(lib, parts) == Some(g) <==> Payload(lib, a, g) && InRange(lib.curve.n, g)
  {
    StructureIs(lib, a, parts.authData, parts.clientJson, parts.client);
  }

  lemma FlagBits(b: byte)
    ensures HasFlag(b, FLAG_UP) == Bit(b, 0) && HasFlag(b, FLAG_UV) == Bit(b, 2)
    ensures HasFlag(b, FLAG_BE) == Bit(b, 3) && HasFlag(b, FLAG_BS) == Bit(b, 4)
  {
  }

  /** An assertion is accepted, and reported, exactly so. */
  lemma AcceptIff(lib: Library, policy: Policy, a: AssertionJson, expected: ExpectedChallenge, rec: Recovered)
    requires Lawful(lib.curve)
    ensures VerifyAndRecover(lib, policy, a, expected) == Ok(rec) <==>
            exists ad, cd, client, g :: Accepts(lib, policy, expected, a, rec, ad, cd, client, g)
  {
    if VerifyAndRecover(lib, policy, a, expected) == Ok(rec) {
      var ad, cd, client, g := AcceptedShows(lib, policy, a, expected);
    }
    forall ad, cd, client, g | Accepts(lib, policy, expected, a, rec, ad, cd, client, g)
      ensures VerifyAndRecover(lib, policy, a, expected) == Ok(rec)
    {
      ShownAccepted(lib, policy, a, expected, rec, ad, cd, client, g);
    }
  }

  lemma AcceptedShows(lib: Library, policy: Policy, a: AssertionJson, expected: ExpectedChallenge)
    returns (ad: seq<byte>, cd: seq<byte>, client: ClientData, g: Signed)
    requires Lawful(lib.curve) && VerifyAndRecover(lib, policy, a, expected).Ok?
    ensures Accepts(lib, policy, expected, a, VerifyAndRecover(lib, policy, a, expected).value, ad, cd, client, g)
  {
    var parts := Structure(lib, a).value;
    ad, cd, client := parts.authData, parts.clientJson, parts.client;
    g := Signature(lib, parts).value;
    StructureIs(lib, a, ad, cd, client);
    PayloadIs(lib, a, parts, g);
    FlagBits(ad[32]);
    CeremonyIff(lib, policy, expected, parts, Ceremony(lib, policy, expected, parts).value);
  }

  lemma ShownAccepted(lib: Library, policy: Policy, a: AssertionJson, expected: ExpectedChallenge, rec: Recovered,
                      ad: seq<byte>, cd: seq<byte>, client: ClientData, g: Signed)
    requires Lawful(lib.curve) && Accepts(lib, policy, expected, a, rec, ad, cd, client, g)
    ensures VerifyAndRecover(lib, policy, a, expected) == Ok(rec)
  {
    StructureIs(lib, a, ad, cd, client);
    var parts := Structure(lib, a).value;
    PayloadIs(lib, a, parts, g);
    FlagBits(ad[32]);
    CeremonyIff(lib, policy, expected, parts, EntryFor(policy.entries, ad[..32]).value);
  }

  /** The first check that fails names the error; what cannot be read is malformed. */
  lemma AssertionRefusals(lib: Library, policy: Policy, a: AssertionJson, expected: ExpectedChallenge, ad: seq<byte>,
                          cd: seq<byte>, client: ClientData)
    requires Prime(lib.curve.n)
    ensures (forall ad, cd, client :: !WellFormed(lib, a, ad, cd, client)) ==>
      VerifyAndRecover(lib, policy, a, expected) == Err(Malformed)
    ensures WellFormed(lib, a, ad, cd, client) ==>
      var r, entry := VerifyAndRecover(lib, policy, a, expected), EntryFor(policy.entries, ad[..32]);
      if client.kind != "webauthn.get" then r == Err(WrongType)
      else if lib.decode(client.challenge).None? then r == Err(Malformed)
      else if expected.DerivedLogin? && lib.deriveLogin(expected.nonce, expected.nodeUrl).None? then
        r == Err(InvalidNodeUrl)
      else if !AnswersChallenge(lib, expected, client) then r == Err(ChallengeMismatch)
      else if entry.None? then r == Err(RpIdNotAllowed)
      else if !AllowsOrigin(entry.value, client.origin) then r == Err(OriginNotAllowed)
      else if client.crossOrigin == Some(true) then r == Err(CrossOrigin)
      else if client.topOrigin then r == Err(TopOriginPresent)
      else if !Bit(ad[32], 0) then r == Err(UserPresenceMissing)
      else if policy.requireUv && !Bit(ad[32], 2) then r == Err(UserVerificationMissing)
      else r.Err? ==> r == Err(BadSignature)
  {
    if Structure(lib, a).Ok? {
      var parts := Structure(lib, a).value;
      StructureIs(lib, a, parts.authData, parts.clientJson, parts.client);
    }
    StructureIs(lib, a, ad, cd, client);
    if WellFormed(lib, a, ad, cd, client) {
      FlagBits(ad[32]);
      RecoverParts(lib, policy, a, expected, Structure(lib, a).value);
    }
  }

  /**
   An accepted assertion names a configured party by its hash, comes from an origin configured for
   that party, and each of the two distinct keys returned signed the data as it was sent.
   */
  lemma AcceptedAssertion(lib: Library, p: Platform, rps: seq<Rp>, policy: Policy, a: AssertionJson,
                          expected: ExpectedChallenge)
    returns (ad: seq<byte>, g: Signed, k: nat)
    requires Lawful(lib.curve) && VerifyAndRecover(lib, policy, a, expected).Ok?
    requires Built(p, rps, policy)
    ensures lib.decode(a.authenticatorData) == Some(ad) && |ad| >= 37
    ensures Payload(lib, a, g) && InRange(lib.curve.n, g)
    ensures |policy.entries| == |rps| && k < |rps|
    ensures var rec := VerifyAndRecover(lib, policy, a, expected).value;
            && ValidateRpId(p, rps[k].rpId) == Ok(rec.rpId) && ad[..32] == p.sha256(rec.rpId)
            && Serves(p, rps[k], policy.entries[k], rec.origin) && (policy.requireUv ==> rec.userVerified)
            && rec.candidates.0 != rec.candidates.1
            && Verifies(lib.curve, g, rec.candidates.0)
            && Verifies(lib.curve, g, rec.candidates.1)
  {
    var cd, client;
    ad, cd, client, g := AcceptedShows(lib, policy, a, expected);
    CandidatesVerify(lib.curve, g);
    k := EntryPlace(p, rps, policy, ad[..32], EntryFor(policy.entries, ad[..32]).value);
  }

  lemma EntryPlace(p: Platform, rps: seq<Rp>, policy: Policy, h: seq<byte>, entry: RpEntry) returns (k: nat)
    requires Built(p, rps, policy) && EntryFor(policy.entries, h) == Some(entry)
    ensures |policy.entries| == |rps| && k < |rps| && policy.entries[k] == entry
    ensures ValidateRpId(p, rps[k].rpId) == Ok(entry.rpId) && h == p.sha256(entry.rpId)
    ensures forall o :: AllowsOrigin(entry, o) ==> Serves(p, rps[k], entry, o)
  {
    EntryForFirst(policy.entries, h);
    BuiltWellFormed(p, rps, policy);
    k :| 0 <= k < |policy.entries| && policy.entries[k] == entry;
    BuiltInOrder(p, rps, policy, k);
    assert EntryOk(p, entry);
  }
}

/** Choosing the signer among the two candidates of an accepted assertion. */
module Selection {
  import opened Wrappers
  import opened Bytes
  import opened PrimeField
  import opened KeyRecovery
  import Base58
  import Identity
  import opened RpPolicy
  import opened Assertion

  datatype SelectedBy = Hint | KnownPrincipal

  datatype Pending = Pending(candidates: (string, string), credentialId: seq<byte>)

  datatype Selection = Selected(principal: string, rule: SelectedBy) | NeedSecondAssertion(pending: Pending)

  datatype SelectionError = CredentialMismatch | NoCommonCandidate | Ambiguous

  function DidOf(c: Curve, key: int): string {
    Identity.DidKey(Identity.P256_PREFIX, c.sec1(key))
  }

  function CandidateDids(c: Curve, a: Recovered): (string, string) {
    (DidOf(c, a.candidates.0), DidOf(c, a.candidates.1))
  }

  /** The index of the only flag that is set. */
  function TheOnly(flags: (bool, bool)): Option<nat> {
    match flags
    case (true, false) => Some(0)
    case (false, true) => Some(1)
    case _ => None
  }

  function Select(c: Curve, a: Recovered, hints: seq<string>, known: (bool, bool)): Selection {
    var dids := CandidateDids(c, a);
    var pick := (i: nat, rule: SelectedBy) => Selected(if i == 0 then dids.0 else dids.1, rule);
    match TheOnly((dids.0 in hints, dids.1 in hints))
    case Some(i) => pick(i, Hint)
    case None =>
      match TheOnly(known)
      case Some(i) => pick(i, KnownPrincipal)
      case None => NeedSecondAssertion(Pending(dids, a.credentialId))
  }

  /** The pending candidates the second assertion also recovers. */
  function Common(pending: Pending, theirs: (string, string)): seq<string> {
    var both := {theirs.0, theirs.1};
    (if pending.candidates.0 in both then [pending.candidates.0] else []) +
    (if pending.candidates.1 in both then [pending.candidates.1] else [])
  }

  function Resolve(c: Curve, pending: Pending, second: Recovered): Result<string, SelectionError> {
    if second.credentialId != pending.credentialId then Err(CredentialMismatch) else
    var common := Common(pending, CandidateDids(c, second));
    if |common| == 1 then Ok(common[0])
    else if common == [] then Err(NoCommonCandidate)
    else Err(Ambiguous)
  }

  lemma DidInjective(c: Curve, j: int, k: int)
    requires Lawful(c) && IsPoint(c, j) && IsPoint(c, k) && DidOf(c, j) == DidOf(c, k)
    ensures j == k
  {
    Identity.DidKeyInjective(Identity.P256_PREFIX, c.sec1(j), Identity.P256_PREFIX, c.sec1(k));
  }

  /** Selection only ever returns a candidate, and nothing but the hints that are candidates matters. */
  lemma SelectsCandidate(c: Curve, a: Recovered, hints: seq<string>, others: seq<string>, known: (bool, bool))
    requires forall d :: d == CandidateDids(c, a).0 || d == CandidateDids(c, a).1 ==> (d in hints <==> d in others)
    ensures Select(c, a, hints, known) == Select(c, a, others, known)
    ensures var r := Select(c, a, hints, known);
            r.Selected? ==> r.principal == CandidateDids(c, a).0 || r.principal == CandidateDids(c, a).1
  {
    var dids := CandidateDids(c, a);
    assert (dids.0 in hints <==> dids.0 in others) && (dids.1 in hints <==> dids.1 in others);
  }

  /** `a` is what the signature `g` recovers to. */
  ghost predicate Recovers(c: Curve, g: Signed, a: Recovered) {
    Lawful(c) && InRange(c.n, g) && Candidates(c, g) == Some(a.candidates)
  }

  /** A selected principal is always the identity of a key under which the signature verifies. */
  lemma SelectedVerifies(c: Curve, g: Signed, a: Recovered, hints: seq<string>, known: (bool, bool)) returns (key: int)
    requires Recovers(c, g, a) && Select(c, a, hints, known).Selected?
    ensures Verifies(c, g, key)
    ensures Select(c, a, hints, known).principal == "did:key:z" + Base58.Encode([0x80, 0x24] + c.sec1(key))
  {
    CandidatesVerify(c, g);
    SelectsCandidate(c, a, hints, hints, known);
    key := if Select(c, a, hints, known).principal == DidOf(c, a.candidates.0) then a.candidates.0 else a.candidates.1;
  }

  /** Which rule decides: one hinted candidate, else one known candidate, else neither. */
  lemma SelectIff(c: Curve, g: Signed, a: Recovered, hints: seq<string>, known: (bool, bool), key: int)
    requires Recovers(c, g, a) && (key == a.candidates.0 || key == a.candidates.1)
    ensures var other := if key == a.candidates.0 then a.candidates.1 else a.candidates.0;
            Select(c, a, hints, known) == Selected(DidOf(c, key), Hint) <==>
            DidOf(c, key) in hints && DidOf(c, other) !in hints
    ensures var (other, knows, knowsOther) :=
              if key == a.candidates.0 then (a.candidates.1, known.0, known.1) else (a.candidates.0, known.1, known.0);
            Select(c, a, hints, known) == Selected(DidOf(c, key), KnownPrincipal) <==>
            (DidOf(c, key) in hints <==> DidOf(c, other) in hints) && knows && !knowsOther
    ensures var r := Select(c, a, hints, known);
            r.NeedSecondAssertion? <==>
            (DidOf(c, a.candidates.0) in hints <==> DidOf(c, a.candidates.1) in hints) && (known.0 <==> known.1)
  {
    CandidatesVerify(c, g);
    DistinctDids(c, a.candidates.0, a.candidates.1);
  }

  lemma DistinctDids(c: Curve, j: int, k: int)
    requires Lawful(c) && IsPoint(c, j) && IsPoint(c, k) && j != k
    ensures DidOf(c, j) != DidOf(c, k)
  {
    if DidOf(c, j) == DidOf(c, k) {
      DidInjective(c, j, k);
    }
  }

  /** Both signatures verify under `key`, from nonces recovery can see. */
  ghost predicate SignedBoth(c: Curve, g1: Signed, g2: Signed, key: int)
    requires Prime(c.n) && InRange(c.n, g1) && InRange(c.n, g2)
  {
    Unreduced(c, g1, key) && Unreduced(c, g2, key)
  }

  lemma DidAmong(c: Curve, key: int, a: int, b: int)
    requires Lawful(c) && IsPoint(c, key) && IsPoint(c, a) && IsPoint(c, b)
    ensures DidOf(c, key) in {DidOf(c, a), DidOf(c, b)} <==> key == a || key == b
  {
    if key != a { DistinctDids(c, key, a); }
    if key != b { DistinctDids(c, key, b); }
  }

  /** The common candidates are the first assertion's keys that verify both signatures. */
  lemma CommonIs(c: Curve, g1: Signed, a1: Recovered, g2: Signed, a2: Recovered)
    requires Recovers(c, g1, a1) && Recovers(c, g2, a2)
    ensures Common(Pending(CandidateDids(c, a1), a1.credentialId), CandidateDids(c, a2)) ==
            (if SignedBoth(c, g1, g2, a1.candidates.0) then [DidOf(c, a1.candidates.0)] else []) +
            (if SignedBoth(c, g1, g2, a1.candidates.1) then [DidOf(c, a1.candidates.1)] else [])
  {
    CandidateIff(c, g1, a1.candidates.0);
    CandidateIff(c, g1, a1.candidates.1);
    InCommon(c, g1, g2, a2, a1.candidates.0);
    InCommon(c, g1, g2, a2, a1.candidates.1);
    CommonText(Pending(CandidateDids(c, a1), a1.credentialId), CandidateDids(c, a2),
               SignedBoth(c, g1, g2, a1.candidates.0), SignedBoth(c, g1, g2, a1.candidates.1));
  }

  lemma CommonText(pending: Pending, theirs: (string, string), x: bool, y: bool)
    requires pending.candidates.0 in {theirs.0, theirs.1} <==> x
    requires pending.candidates.1 in {theirs.0, theirs.1} <==> y
    ensures Common(pending, theirs) ==
            (if x then [pending.candidates.0] else []) + (if y then [pending.candidates.1] else [])
  {
  }

  lemma InCommon(c: Curve, g1: Signed, g2: Signed, a2: Recovered, key: int)
    requires Lawful(c) && InRange(c.n, g1) && Unreduced(c, g1, key) && Recovers(c, g2, a2)
    ensures DidOf(c, key) in {CandidateDids(c, a2).0, CandidateDids(c, a2).1} <==> SignedBoth(c, g1, g2, key)
  {
    CandidatesVerify(c, g2);
    CandidateIff(c, g2, key);
    DidAmong(c, key, a2.candidates.0, a2.candidates.1);
  }

  ghost predicate OnlySigner(c: Curve, g1: Signed, g2: Signed, key: int)
    requires Prime(c.n) && InRange(c.n, g1) && InRange(c.n, g2)
  {
    SignedBoth(c, g1, g2, key) && forall other :: SignedBoth(c, g1, g2, other) ==> other == key
  }

  /**
   The second assertion resolves the signer exactly when it is by the same credential and one key
   alone verifies both signatures from unreduced nonces; that key's identity is the answer.
   Otherwise the refusal says whether no key does or more than one does.
   */
  lemma ResolveIff(c: Curve, g1: Signed, a1: Recovered, g2: Signed, a2: Recovered, did: string)
    requires Recovers(c, g1, a1) && Recovers(c, g2, a2)
    ensures var r := Resolve(c, Pending(CandidateDids(c, a1), a1.credentialId), a2);
            && (r == Ok(did) <==>
                  a1.credentialId == a2.credentialId &&
                  exists key :: OnlySigner(c, g1, g2, key) && did == DidOf(c, key))
            && (r == Err(CredentialMismatch) <==> a1.credentialId != a2.credentialId)
            && (r == Err(NoCommonCandidate) <==>
                  a1.credentialId == a2.credentialId && forall key :: !SignedBoth(c, g1, g2, key))
  {
    CommonIs(c, g1, a1, g2, a2);
    CandidatesVerify(c, g1);
    DistinctDids(c, a1.candidates.0, a1.candidates.1);
    SignersAmong(c, g1, a1, g2, a2, did);
    ByCount(c, Pending(CandidateDids(c, a1), a1.credentialId), a2,
            SignedBoth(c, g1, g2, a1.candidates.0), SignedBoth(c, g1, g2, a1.candidates.1));
  }

  lemma ByCount(c: Curve, pending: Pending, second: Recovered, x: bool, y: bool)
    requires Common(pending, CandidateDids(c, second)) ==
             (if x then [pending.candidates.0] else []) + (if y then [pending.candidates.1] else [])
    ensures Resolve(c, pending, second) ==
            if pending.credentialId != second.credentialId then Err(CredentialMismatch)
            else if x && y then Err(Ambiguous) else if x then Ok(pending.candidates.0)
            else if y then Ok(pending.candidates.1) else Err(NoCommonCandidate)
  {
  }

  lemma SignersAmong(c: Curve, g1: Signed, a1: Recovered, g2: Signed, a2: Recovered, did: string)
    requires Recovers(c, g1, a1) && Recovers(c, g2, a2)
    ensures var k0, k1 := a1.candidates.0, a1.candidates.1;
            var x, y := SignedBoth(c, g1, g2, k0), SignedBoth(c, g1, g2, k1);
            && ((exists key :: OnlySigner(c, g1, g2, key) && did == DidOf(c, key)) <==>
                (x && !y && did == DidOf(c, k0)) || (!x && y && did == DidOf(c, k1)))
            && ((forall key :: !SignedBoth(c, g1, g2, key)) <==> !x && !y)
  {
    CandidatesVerify(c, g1);
    var k0, k1 := a1.candidates.0, a1.candidates.1;
    forall key | SignedBoth(c, g1, g2, key) ensures key == k0 || key == k1 {
      CandidateIff(c, g1, key);
    }
    assert forall key :: SignedBoth(c, g1, g2, key) ==> key == k0 || key == k1;
    assert SignedBoth(c, g1, g2, k0) && !SignedBoth(c, g1, g2, k1) ==> OnlySigner(c, g1, g2, k0);
    assert SignedBoth(c, g1, g2, k1) && !SignedBoth(c, g1, g2, k0) ==> OnlySigner(c, g1, g2, k1);
  }

  /** The key that made both assertions is never passed over for another. */
  lemma SignerNeverDisplaced(c: Curve, g1: Signed, a1: Recovered, g2: Signed, a2: Recovered, key: int)
    requires Recovers(c, g1, a1) && Recovers(c, g2, a2)
    requires SignedBoth(c, g1, g2, key) && a1.credentialId == a2.credentialId
    ensures var r := Resolve(c, Pending(CandidateDids(c, a1), a1.credentialId), a2);
            r == Ok(DidOf(c, key)) || r == Err(Ambiguous)
  {
    var r := Resolve(c, Pending(CandidateDids(c, a1), a1.credentialId), a2);
    ResolveIff(c, g1, a1, g2, a2, if r.Ok? then r.value else "");
  }

  /** Presenting the first assertion again proves nothing. */
  lemma ReplayIsAmbiguous(c: Curve, g: Signed, a: Recovered)
    requires Recovers(c, g, a)
    ensures Resolve(c, Pending(CandidateDids(c, a), a.credentialId), a) == Err(Ambiguous)
  {
  }

  // From the ceremony to the choice.

  /** The candidates of an accepted assertion are those of the signature over the data it sent. */
  lemma AcceptedRecovers(lib: Library, policy: Policy, a: AssertionJson, expected: ExpectedChallenge)
    returns (g: Signed)
    requires Lawful(lib.curve) && VerifyAndRecover(lib, policy, a, expected).Ok?
    ensures Payload(lib, a, g) && Recovers(lib.curve, g, VerifyAndRecover(lib, policy, a, expected).value)
    ensures lib.decode(a.rawId) == Some(VerifyAndRecover(lib, policy, a, expected).value.credentialId)
  {
    var ad, cd, client;
    ad, cd, client, g := AcceptedShows(lib, policy, a, expected);
  }

  /** `key` alone signed the payloads of both assertions, from unreduced nonces. */
  ghost predicate SignedBothPayloads(lib: Library, a1: AssertionJson, a2: AssertionJson, key: int)
    requires Prime(lib.curve.n)
  {
    exists g1, g2 :: Payload(lib, a1, g1) && Payload(lib, a2, g2) &&
                     InRange(lib.curve.n, g1) && InRange(lib.curve.n, g2) && OnlySigner(lib.curve, g1, g2, key)
  }

  /**
   Two accepted assertions, the first of which selected nobody, resolve to a DID exactly when they
   are by one credential and that DID is of the one key that signed both payloads.
   */
  lemma LoginResolvesIff(lib: Library, policy: Policy, a1: AssertionJson, e1: ExpectedChallenge, a2: AssertionJson,
                         e2: ExpectedChallenge, hints: seq<string>, known: (bool, bool), did: string)
    requires Lawful(lib.curve)
    requires VerifyAndRecover(lib, policy, a1, e1).Ok? && VerifyAndRecover(lib, policy, a2, e2).Ok?
    requires Select(lib.curve, VerifyAndRecover(lib, policy, a1, e1).value, hints, known).NeedSecondAssertion?
    ensures var rec1, rec2 := VerifyAndRecover(lib, policy, a1, e1).value, VerifyAndRecover(lib, policy, a2, e2).value;
            var pending := Select(lib.curve, rec1, hints, known).pending;
            Resolve(lib.curve, pending, rec2) == Ok(did) <==>
              lib.decode(a1.rawId) == lib.decode(a2.rawId) &&
              exists key :: SignedBothPayloads(lib, a1, a2, key) &&
                            did == "did:key:z" + Base58.Encode([0x80, 0x24] + lib.curve.sec1(key))
  {
    var g1 := AcceptedRecovers(lib, policy, a1, e1);
    var g2 := AcceptedRecovers(lib, policy, a2, e2);
    var rec1, rec2 := VerifyAndRecover(lib, policy, a1, e1).value, VerifyAndRecover(lib, policy, a2, e2).value;
    ResolveIff(lib.curve, g1, rec1, g2, rec2, did);
    OnePayload(lib, a1, g1);
    OnePayload(lib, a2, g2);
    PendingIs(lib.curve, rec1, hints, known);
  }

  /** An assertion carries one signature. */
  lemma OnePayload(lib: Library, a: AssertionJson, g: Signed)
    requires Payload(lib, a, g)
    ensures forall h :: Payload(lib, a, h) ==> h == g
  {
  }

  lemma PendingIs(c: Curve, a: Recovered, hints: seq<string>, known: (bool, bool))
    requires Select(c, a, hints, known).NeedSecondAssertion?
    ensures Select(c, a, hints, known).pending == Pending(CandidateDids(c, a), a.credentialId)
  {
  }
}
