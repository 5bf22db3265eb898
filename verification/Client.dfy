/** What the client checks before its key signs a challenge. */
module Client {
  import opened Wrappers
  import opened Bytes
  import opened Text
  import opened Message
  import Challenges
  import DidMethods
  import Hex
  import Identity
  import Login

  datatype ClientError = UnsupportedMethod | InvalidDid | MessageIdentifierMismatch | UriOriginMismatch | SignFailed

  datatype Envelope = Envelope(message: string, nonce: string)

  datatype Signer = Signer(did: string, sign: string -> Option<seq<byte>>, publicKey: Option<seq<byte>>)

  /** The URL library's canonical origin of a URL. */
  type Origins = string -> Option<string>

  /** An origin starts with its scheme. */
  ghost predicate Lawful(originOf: Origins) {
    forall s :: originOf(s).Some? ==> !("<" <= originOf(s).value)
  }

  function ClientOrigin(originOf: Origins, baseUrl: string): string {
    match originOf(baseUrl) case Some(o) => o case None => "<unparsable base_url: " + baseUrl + ">"
  }

  function MessageOrigin(originOf: Origins, message: string): string {
    match UriLine(message)
    case None => "<message missing URI line>"
    case Some(uri) => (match originOf(uri) case Some(o) => o case None => "<unparsable URI line: " + uri + ">")
  }

  /** The two sides are compared as text, placeholders included. */
  predicate UriBound(originOf: Origins, message: string, baseUrl: string) {
    MessageOrigin(originOf, message) == ClientOrigin(originOf, baseUrl)
  }

  function SignedSessionRequest(methods: Registry, originOf: Origins, envelope: Envelope, baseUrl: string,
                                signer: Signer)
    : Result<Login.Request, ClientError>
  {
    match methods(signer.did)
    case None => Err(UnsupportedMethod)
    case Some(DidMethod(None, _, _)) => Err(InvalidDid)
    case Some(DidMethod(Some(address), _, _)) =>
      if IdentifierFromMessage(envelope.message) != Some(address) then Err(MessageIdentifierMismatch)
      else if !UriBound(originOf, envelope.message, baseUrl) then Err(UriOriginMismatch)
      else
        match signer.sign(envelope.message)
        case None => Err(SignFailed)
        case Some(sig) =>
          Ok(Login.Request(signer.did, envelope.nonce, "0x" + Hex.Encode(sig),
                           match signer.publicKey case None => None case Some(pk) => Some("0x" + Hex.Encode(pk))))
  }

  lemma PlaceholdersDiffer(baseUrl: string, uri: string)
    ensures "<unparsable base_url: " + baseUrl + ">" != "<unparsable URI line: " + uri + ">"
    ensures "<unparsable base_url: " + baseUrl + ">" != "<message missing URI line>"
  {
    var b, u := "<unparsable base_url: " + baseUrl + ">", "<unparsable URI line: " + uri + ">";
    assert b[12] == 'b' && u[12] == 'U' && b[1] == 'u';
  }

  lemma PlaceholderStarts(t: string, rest: string)
    requires "<" <= t
    ensures "<" <= t + rest
  {
  }

  /** No failure on either side passes for agreement: both origins exist and are equal. */
  lemma UriBoundIff(originOf: Origins, message: string, baseUrl: string)
    requires Lawful(originOf)
    ensures UriBound(originOf, message, baseUrl) <==>
            UriLine(message).Some? && originOf(UriLine(message).value).Some? &&
            originOf(UriLine(message).value) == originOf(baseUrl)
  {
    var uri := if UriLine(message).Some? then UriLine(message).value else "";
    PlaceholdersDiffer(baseUrl, uri);
    PlaceholderStarts("<unparsable base_url: ", baseUrl + ">");
    Assoc("<unparsable base_url: ", baseUrl, ">");
    PlaceholderStarts("<unparsable URI line: ", uri + ">");
    Assoc("<unparsable URI line: ", uri, ">");
  }

  /** The client's key was used, whether or not it produced a signature. */
  predicate Signs(methods: Registry, originOf: Origins, envelope: Envelope, baseUrl: string, signer: Signer) {
    var r := SignedSessionRequest(methods, originOf, envelope, baseUrl, signer);
    r.Ok? || r == Err(SignFailed)
  }

  /** The endpoint the challenge names, as the client reads it, is the one that was dialled. */
  predicate NamesEndpoint(originOf: Origins, m: MessageParams, info: MethodInfo, baseUrl: string) {
    var uri := NonBlank(Trim(UriSource(m, info)));
    uri.Some? && originOf(uri.value).Some? && originOf(uri.value) == originOf(baseUrl)
  }

  /**
   For a challenge built for `m`, the client's key is reached exactly when the signer's address is
   the challenge's identifier line, trimmed, and the endpoint is the one that was dialled.
   */
  lemma SignsIff(methods: Registry, originOf: Origins, m: MessageParams, nonce: string, baseUrl: string, signer: Signer)
    requires Lawful(originOf) && Shows(methods(m.did)).Some? && OneLineFields(m, Shows(methods(m.did)).value)
    ensures var info := Shows(methods(m.did)).value;
            Signs(methods, originOf, Envelope(BuildMessage(methods, m).value, nonce), baseUrl, signer) <==>
              methods(signer.did).Some? && methods(signer.did).value.address.Some? &&
              methods(signer.did).value.address == NonBlank(Trim(info.identifier)) &&
              NamesEndpoint(originOf, m, info, baseUrl)
  {
    var info := Shows(methods(m.did)).value;
    IdentifierIff(m, info);
    UriRead(m, info);
    UriBoundIff(originOf, Compose(m, info), baseUrl);
  }

  /** With a usable identifier line, the key is reached exactly for a DID with the signer's own identifier. */
  lemma SignsForItself(c: Identity.Primitives, keccak: string -> DidMethods.Digest, originOf: Origins, m: MessageParams,
                       nonce: string, baseUrl: string, signer: Signer)
    requires Lawful(originOf) && DidMethods.Info(c, keccak, signer.did).Some? && DidMethods.Info(c, keccak, m.did).Some?
    requires var info := DidMethods.Info(c, keccak, m.did).value;
             OneLineFields(m, info) && info.identifier != "" && Trimmed(info.identifier)
    ensures var methods, info := did => DidMethods.Methods(c, keccak, did), DidMethods.Info(c, keccak, m.did).value;
            Signs(methods, originOf, Envelope(BuildMessage(methods, m).value, nonce), baseUrl, signer) <==>
              DidMethods.SameIdentifier(c, signer.did, m.did,
                                        DidMethods.Info(c, keccak, signer.did).value.identifier, info.identifier) &&
              NamesEndpoint(originOf, m, info, baseUrl)
  {
    SignsIff(did => DidMethods.Methods(c, keccak, did), originOf, m, nonce, baseUrl, signer);
    TrimFixed(DidMethods.Info(c, keccak, m.did).value.identifier);
    DidMethods.SameIdentifierIff(c, keccak, signer.did, m.did);
  }

  /** So the client signs the challenge of any other DID that holds the same key. */
  lemma SignsForSameKey(c: Identity.Primitives, keccak: string -> DidMethods.Digest, originOf: Origins,
                        m: MessageParams, nonce: string, baseUrl: string, signer: Signer)
    requires Lawful(originOf) && DidMethods.KeyIn(c, m.did).Some?
    requires DidMethods.KeyIn(c, signer.did) == DidMethods.KeyIn(c, m.did)
    requires OneLine(m.domain) && OneLine(m.uri) && OneLine(m.nonce) && OneLine(m.issuedAt) && OneLine(m.expirationTime)
    requires !("URI:" <= m.domain) && Trim(m.uri) != ""
    requires originOf(Trim(m.uri)).Some? && originOf(Trim(m.uri)) == originOf(baseUrl)
    ensures var methods := did => DidMethods.Methods(c, keccak, did);
            BuildMessage(methods, m).Some? &&
            Signs(methods, originOf, Envelope(BuildMessage(methods, m).value, nonce), baseUrl, signer)
  {
    DidMethods.SupportedIff(c, keccak, m.did);
    DidMethods.SupportedIff(c, keccak, signer.did);
    DidMethods.LabelPlain(c, keccak, m.did);
    DidMethods.SupportedIdentifying(c, keccak, m.did);
    PlainEndpoint(originOf, m, DidMethods.Info(c, keccak, m.did).value, baseUrl);
    SignsForItself(c, keccak, originOf, m, nonce, baseUrl, signer);
  }

  /** In particular the client for a `did:key` signs the challenge of the `did:peer` of its key. */
  lemma SignsForPeer(c: Identity.Primitives, keccak: string -> DidMethods.Digest, originOf: Origins, m: MessageParams,
                     nonce: string, baseUrl: string, signer: Signer, body: string)
    requires Lawful(originOf) && Identity.DecodeMultibaseKey(c, body).Ok?
    requires signer.did == "did:key:z" + body && m.did == "did:peer:0z" + body
    requires OneLine(m.domain) && OneLine(m.uri) && OneLine(m.nonce) && OneLine(m.issuedAt) && OneLine(m.expirationTime)
    requires !("URI:" <= m.domain) && Trim(m.uri) != ""
    requires originOf(Trim(m.uri)).Some? && originOf(Trim(m.uri)) == originOf(baseUrl)
    ensures signer.did != m.did
    ensures var methods := did => DidMethods.Methods(c, keccak, did);
            && BuildMessage(methods, m).Some?
            && var message := BuildMessage(methods, m).value;
               var r := SignedSessionRequest(methods, originOf, Envelope(message, nonce), baseUrl, signer);
               if signer.sign(message).None? then r == Err(SignFailed)
               else r.Ok? && r.value.signature == "0x" + Hex.Encode(signer.sign(message).value)
  {
    var methods := did => DidMethods.Methods(c, keccak, did);
    DidMethods.TwoSpellings(c, signer.did, m.did, body);
    SignsForSameKey(c, keccak, originOf, m, nonce, baseUrl, signer);
    SignsMessage(methods, originOf, Envelope(BuildMessage(methods, m).value, nonce), baseUrl, signer);
  }

  lemma SignsMessage(methods: Registry, originOf: Origins, envelope: Envelope, baseUrl: string, signer: Signer)
    requires Signs(methods, originOf, envelope, baseUrl, signer)
    ensures var r := SignedSessionRequest(methods, originOf, envelope, baseUrl, signer);
            if signer.sign(envelope.message).None? then r == Err(SignFailed)
            else r.Ok? && r.value.signature == "0x" + Hex.Encode(signer.sign(envelope.message).value)
  {
  }

  lemma PlainEndpoint(originOf: Origins, m: MessageParams, info: MethodInfo, baseUrl: string)
    requires !("URI:" <= m.domain) && !("URI:" <= info.identifier) && Trim(m.uri) != ""
    ensures NamesEndpoint(originOf, m, info, baseUrl) <==>
            originOf(Trim(m.uri)).Some? && originOf(Trim(m.uri)) == originOf(baseUrl)
  {
  }

  /** Between two `did:key`s, or two `did:aqua`s, a signature is given only for the signer's own DID. */
  lemma SignsOnlyOwnDid(c: Identity.Primitives, keccak: string -> DidMethods.Digest, originOf: Origins,
                        m: MessageParams, nonce: string, baseUrl: string, signer: Signer)
    requires Lawful(originOf) && DidMethods.Info(c, keccak, m.did).Some? && DidMethods.Info(c, keccak, signer.did).Some?
    requires ("did:key:" <= m.did && "did:key:" <= signer.did) || ("did:aqua:" <= m.did && "did:aqua:" <= signer.did)
    requires OneLineFields(m, DidMethods.Info(c, keccak, m.did).value)
    ensures var methods := did => DidMethods.Methods(c, keccak, did);
            Signs(methods, originOf, Envelope(BuildMessage(methods, m).value, nonce), baseUrl, signer) <==>
              signer.did == m.did && NamesEndpoint(originOf, m, DidMethods.Info(c, keccak, m.did).value, baseUrl)
  {
    DidMethods.Apart(m.did);
    DidMethods.Apart(signer.did);
    DidMethods.SupportedIff(c, keccak, m.did);
    DidMethods.SupportedIff(c, keccak, signer.did);
    DidMethods.SupportedIdentifying(c, keccak, m.did);
    SignsForItself(c, keccak, originOf, m, nonce, baseUrl, signer);
    DidMethods.OneSpelling(c, signer.did, m.did);
  }

  // What is signed, and what becomes of it.

  /** Both checks pass: the identifier line is the signer's, and the URI's origin is that of the endpoint. */
  predicate ChecksPass(methods: Registry, originOf: Origins, envelope: Envelope, baseUrl: string, signer: Signer) {
    && methods(signer.did).Some? && methods(signer.did).value.address.Some?
    && IdentifierFromMessage(envelope.message) == methods(signer.did).value.address
    && UriLine(envelope.message).Some? && originOf(UriLine(envelope.message).value).Some?
    && originOf(UriLine(envelope.message).value) == originOf(baseUrl)
  }

  /** The texts of a public key and of none. */
  function Sent(publicKey: Option<seq<byte>>): Option<string> {
    if publicKey.None? then None else Some("0x" + Hex.Encode(publicKey.value))
  }

  /** The request carries the signer's DID, the nonce received and a signature over the message received. */
  lemma RequestIff(methods: Registry, originOf: Origins, envelope: Envelope, baseUrl: string, signer: Signer,
                   request: Login.Request)
    requires Lawful(originOf)
    ensures SignedSessionRequest(methods, originOf, envelope, baseUrl, signer) == Ok(request) <==>
            && ChecksPass(methods, originOf, envelope, baseUrl, signer)
            && request.did == signer.did && request.nonce == envelope.nonce
            && signer.sign(envelope.message).Some?
            && request.signature == "0x" + Hex.Encode(signer.sign(envelope.message).value)
            && request.publicKey == Sent(signer.publicKey)
  {
    RequestRefusals(methods, originOf, envelope, baseUrl, signer);
  }

  /** Every refusal has its own cause, in this order. */
  lemma RequestRefusals(methods: Registry, originOf: Origins, envelope: Envelope, baseUrl: string, signer: Signer)
    requires Lawful(originOf)
    ensures var r := SignedSessionRequest(methods, originOf, envelope, baseUrl, signer);
            if methods(signer.did).None? then r == Err(UnsupportedMethod)
            else if methods(signer.did).value.address.None? then r == Err(InvalidDid)
            else if IdentifierFromMessage(envelope.message) != methods(signer.did).value.address then
              r == Err(MessageIdentifierMismatch)
            else if !ChecksPass(methods, originOf, envelope, baseUrl, signer) then r == Err(UriOriginMismatch)
            else if signer.sign(envelope.message).None? then r == Err(SignFailed)
            else r.Ok?
  {
    UriBoundIff(originOf, envelope.message, baseUrl);
  }

  /** What the signer signs authenticates its DID, under the public key it offers. */
  ghost predicate Honest(env: Login.Env, signer: Signer) {
    forall m :: signer.sign(m).Some? ==> env.authenticates(signer.did, m, signer.sign(m).value, signer.publicKey)
  }

  /** The request of an honest signer passes the possession check for the message it received. */
  lemma RequestProves(methods: Registry, originOf: Origins, env: Login.Env, envelope: Envelope, baseUrl: string,
                      signer: Signer, request: Login.Request)
    requires Lawful(originOf) && Honest(env, signer)
    requires SignedSessionRequest(methods, originOf, envelope, baseUrl, signer) == Ok(request)
    ensures Login.Proves(env, signer.did, envelope.message, request.signature, request.publicKey)
    ensures request.did == signer.did && request.nonce == envelope.nonce
  {
    RequestIff(methods, originOf, envelope, baseUrl, signer, request);
    Hex.SentReads(signer.sign(envelope.message).value);
    if signer.publicKey.Some? {
      Hex.SentReads(signer.publicKey.value);
    }
  }

  /** A server that builds its messages with this registry, under one domain and URI. */
  ghost predicate Serves(methods: Registry, env: Login.Env, domain: string, uri: string, time: nat -> string) {
    forall did, nonce, issued: nat, expires: nat :: env.cfg.message(did, nonce, issued, expires) ==
      BuildMessage(methods, MessageParams(did, domain, uri, nonce, time(issued), time(expires)))
  }

  /**
   End to end: the server issues a challenge, the client checks and signs it, and the server mints a
   session for the client's DID, exactly when the expiry check comes in time.
   */
  lemma ClientLogsIn(methods: Registry, originOf: Origins, env: Login.Env, s: Login.State, envelope: Envelope,
                     baseUrl: string, signer: Signer, request: Login.Request, pid: nat, token: string,
                     t: Login.Schedule)
    requires Lawful(originOf) && Honest(env, signer) && env.cfg.wellFormed(signer.did) && Login.InOrder(s.now, t)
    requires envelope.nonce !in s.issued && pid !in s.handlers && token !in s.minted
    requires env.cfg.message(signer.did, envelope.nonce, s.now, s.now + env.cfg.ttl) == Some(envelope.message)
    requires SignedSessionRequest(methods, originOf, envelope, baseUrl, signer) == Ok(request)
    ensures Login.LoggedIn(Login.OwnSteps(env, s, request, pid, token, t), signer.did, token) <==>
            t.check < s.now + env.cfg.ttl
  {
    RequestProves(methods, originOf, env, envelope, baseUrl, signer, request);
    Login.HonestLogin(env, s, request, pid, token, t);
  }

  /**
   And the client does sign its own challenge: for a server at the endpoint it dialled whose domain
   does not start with `URI:`, and a DID whose identifier line can be read.
   */
  lemma OwnChallengeSigned(methods: Registry, originOf: Origins, env: Login.Env, domain: string, uri: string,
                           time: nat -> string, nonce: string, now: nat, baseUrl: string, signer: Signer)
    requires Lawful(originOf) && Serves(methods, env, domain, uri, time)
    requires Shows(methods(signer.did)).Some? && Identifying(Shows(methods(signer.did)).value.identifier)
    requires OneLineFields(MessageParams(signer.did, domain, uri, nonce, time(now), time(now + env.cfg.ttl)),
                           Shows(methods(signer.did)).value)
    requires !("URI:" <= domain) && Trim(uri) != ""
    requires originOf(Trim(uri)).Some? && originOf(Trim(uri)) == originOf(baseUrl)
    ensures var message := env.cfg.message(signer.did, nonce, now, now + env.cfg.ttl);
            && message.Some?
            && var r := SignedSessionRequest(methods, originOf, Envelope(message.value, nonce), baseUrl, signer);
               if signer.sign(message.value).Some? then r.Ok? else r == Err(SignFailed)
  {
    var m := MessageParams(signer.did, domain, uri, nonce, time(now), time(now + env.cfg.ttl));
    var info := Shows(methods(signer.did)).value;
    SignsIff(methods, originOf, m, nonce, baseUrl, signer);
    TrimFixed(info.identifier);
    PlainEndpoint(originOf, m, info, baseUrl);
  }
}
