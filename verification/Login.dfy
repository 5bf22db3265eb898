/**
 Concurrent login handlers over the shared stores, as a step relation. Each step is one operation
 on a shared map or one clock read; handlers, sweeps, evictions and revocations interleave freely.
 Nonces and tokens are fresh and the clock does not go back.
 */
module Login {
  import opened Wrappers
  import opened Bytes
  import opened Challenges
  import Hex

  datatype Request = Request(did: string, nonce: string, signature: string, publicKey: Option<string>)

  /** `authenticates(did, message, signature, publicKey)`: the signature verifies for `did`. */
  datatype Env = Env(cfg: Config, authenticates: (string, string, seq<byte>, Option<seq<byte>>) -> bool)

  function HexBytes(text: string): Option<seq<byte>> {
    Hex.Decode(Hex.StripPrefix(text))
  }

  /** The texts of a request decode to a signature that authenticates `did`, and a public key if there is one. */
  predicate Proves(env: Env, did: string, message: string, signature: string, publicKey: Option<string>) {
    && HexBytes(signature).Some? && (publicKey.Some? ==> HexBytes(publicKey.value).Some?)
    && env.authenticates(did, message, HexBytes(signature).value,
                         if publicKey.Some? then HexBytes(publicKey.value) else None)
  }

  /** Where a `POST /auth/session` handler stands. */
  datatype Handler =
    | Received(req: Request)
    | Taken(req: Request, stored: Challenge, takenAt: nat)
    | InTime(req: Request, stored: Challenge, takenAt: nat)
    | Proven(req: Request, stored: Challenge, takenAt: nat)
    | Finished

  /** How a session came to be. */
  datatype Provenance = Provenance(did: string, req: Request, stored: Challenge, takenAt: nat)

  /** `issued` and `minted` are histories: everything ever issued and minted. */
  datatype State = State(
    now: nat,
    pending: Pending,
    sessions: map<string, string>,
    handlers: map<nat, Handler>,
    issued: Pending,
    minted: map<string, Provenance>)

  datatype Event =
    | Tick(now: nat)
    | Issue(did: string, nonce: string, readAt: nat)
    | DropChallenges(nonces: set<string>)
    | Receive(pid: nat, req: Request)
    | Take(pid: nat)
    | CheckExpiry(pid: nat)
    | CheckProof(pid: nat)
    | Mint(pid: nat, token: string)
    | Refuse(pid: nat)
    | DropSessions(tokens: set<string>)

  const INITIAL := State(0, map[], map[], map[], map[], map[])

  /** The state after an event, if the event can happen. */
  function Apply(env: Env, s: State, e: Event): Option<State> {
    match e
    case Tick(now) => if s.now <= now then Some(s.(now := now)) else None
    case Issue(did, nonce, readAt) => ApplyIssue(env, s, did, nonce, readAt)
    case DropChallenges(nonces) => Some(s.(pending := s.pending - nonces))
    case Receive(pid, req) =>
      if pid in s.handlers then None else Some(s.(handlers := s.handlers[pid := Received(req)]))
    case Take(pid) => ApplyTake(s, pid)
    case CheckExpiry(pid) => ApplyCheckExpiry(s, pid)
    case CheckProof(pid) => ApplyCheckProof(env, s, pid)
    case Mint(pid, token) => ApplyMint(s, pid, token)
    case Refuse(pid) =>
      if pid in s.handlers && s.handlers[pid].Proven? then Some(Finish(s, pid)) else None
    case DropSessions(tokens) => Some(s.(sessions := s.sessions - tokens))
  }

  function Finish(s: State, pid: nat): State {
    s.(handlers := s.handlers[pid := Finished])
  }

  /** The challenge is stamped with a clock read at or before its insertion. */
  function ApplyIssue(env: Env, s: State, did: string, nonce: string, readAt: nat): Option<State> {
    if nonce in s.issued || readAt > s.now || !env.cfg.wellFormed(did) then None else
    match env.cfg.message(did, nonce, readAt, readAt + env.cfg.ttl)
    case None => None
    case Some(text) =>
      var c := Challenge(did, nonce, text, readAt + env.cfg.ttl);
      Some(s.(pending := s.pending[nonce := c], issued := s.issued[nonce := c]))
  }

  /** The atomic removal from the shared map. */
  function ApplyTake(s: State, pid: nat): Option<State> {
    if pid !in s.handlers || !s.handlers[pid].Received? then None else
    var req := s.handlers[pid].req;
    if req.nonce !in s.pending then Some(Finish(s, pid))
    else Some(s.(pending := s.pending - {req.nonce},
                 handlers := s.handlers[pid := Taken(req, s.pending[req.nonce], s.now)]))
  }

  /** The clock is read after the removal. */
  function ApplyCheckExpiry(s: State, pid: nat): Option<State> {
    if pid !in s.handlers || !s.handlers[pid].Taken? then None else
    var h := s.handlers[pid];
    if s.now >= h.stored.expiresAt then Some(Finish(s, pid))
    else Some(s.(handlers := s.handlers[pid := InTime(h.req, h.stored, h.takenAt)]))
  }

  /** The nonce's DID against the request's, then the signature over the stored message. */
  function ApplyCheckProof(env: Env, s: State, pid: nat): Option<State> {
    if pid !in s.handlers || !s.handlers[pid].InTime? then None else
    var h := s.handlers[pid];
    if h.stored.did != h.req.did || !Proves(env, h.req.did, h.stored.message, h.req.signature, h.req.publicKey)
    then Some(Finish(s, pid))
    else Some(s.(handlers := s.handlers[pid := Proven(h.req, h.stored, h.takenAt)]))
  }

  function ApplyMint(s: State, pid: nat, token: string): Option<State> {
    if pid !in s.handlers || !s.handlers[pid].Proven? || token in s.minted then None else
    var h := s.handlers[pid];
    Some(Finish(s, pid).(sessions := s.sessions[token := h.req.did],
                         minted := s.minted[token := Provenance(h.req.did, h.req, h.stored, h.takenAt)]))
  }

  /** The state some events lead to from the initial one. */
  function Reach(env: Env, events: seq<Event>): Option<State> {
    if events == [] then Some(INITIAL)
    else
      match Reach(env, events[..|events| - 1])
      case None => None
      case Some(s) => Apply(env, s, events[|events| - 1])
  }

  // ---------- The invariant ----------

  predicate Holds(h: Handler) {
    h.Taken? || h.InTime? || h.Proven?
  }

  /** What a handler that holds a challenge knows about it. */
  predicate HandlerOk(env: Env, s: State, h: Handler) {
    Holds(h) ==>
      && h.stored.nonce == h.req.nonce && h.stored.nonce in s.issued && s.issued[h.stored.nonce] == h.stored
      && h.stored.nonce !in s.pending && h.takenAt <= s.now
      && (h.InTime? || h.Proven? ==> h.takenAt < h.stored.expiresAt)
      && (h.Proven? ==> h.stored.did == h.req.did &&
                        Proves(env, h.req.did, h.stored.message, h.req.signature, h.req.publicKey))
  }

  /** What is true of every session ever minted. */
  predicate ProvenanceOk(env: Env, s: State, p: Provenance) {
    && p.did == p.req.did == p.stored.did
    && p.stored.nonce in s.issued && s.issued[p.stored.nonce] == p.stored
    && p.stored.nonce !in s.pending
    && p.takenAt < p.stored.expiresAt
    && Proves(env, p.did, p.stored.message, p.req.signature, p.req.publicKey)
  }

  /** Two handlers never hold the same challenge. */
  predicate HandlersApart(s: State) {
    forall a, b :: a in s.handlers && b in s.handlers && a != b && Holds(s.handlers[a]) && Holds(s.handlers[b]) ==>
      s.handlers[a].stored.nonce != s.handlers[b].stored.nonce
  }

  /** Two sessions never come from the same challenge. */
  predicate SessionsApart(s: State) {
    forall t, u :: t in s.minted && u in s.minted && t != u ==>
      s.minted[t].stored.nonce != s.minted[u].stored.nonce
  }

  /** A challenge a session came from is not held by a handler any more. */
  predicate Spent(s: State) {
    forall t, a :: t in s.minted && a in s.handlers && Holds(s.handlers[a]) ==>
      s.minted[t].stored.nonce != s.handlers[a].stored.nonce
  }

  predicate PendingOk(s: State) {
    (forall n :: n in s.pending ==> n in s.issued && s.issued[n] == s.pending[n]) &&
    (forall n :: n in s.issued ==> s.issued[n].nonce == n)
  }

  /** The message stored with a challenge is the one built for its DID, nonce and times. */
  predicate Genuine(env: Env, c: Challenge) {
    env.cfg.ttl <= c.expiresAt &&
    env.cfg.message(c.did, c.nonce, c.expiresAt - env.cfg.ttl, c.expiresAt) == Some(c.message)
  }

  predicate IssuedOk(env: Env, s: State) {
    forall n :: n in s.issued ==> Genuine(env, s.issued[n])
  }

  predicate SessionsOk(s: State) {
    forall t :: t in s.sessions ==> t in s.minted && s.minted[t].did == s.sessions[t]
  }

  predicate Shared(env: Env, s: State) {
    PendingOk(s) && IssuedOk(env, s) && SessionsOk(s)
  }

  /** No challenge serves twice. */
  predicate Separate(s: State) {
    HandlersApart(s) && SessionsApart(s) && Spent(s)
  }

  predicate HandlersOk(env: Env, s: State) {
    forall a :: a in s.handlers ==> HandlerOk(env, s, s.handlers[a])
  }

  predicate MintedOk(env: Env, s: State) {
    forall t :: t in s.minted ==> ProvenanceOk(env, s, s.minted[t])
  }

  predicate Inv(env: Env, s: State) {
    Shared(env, s) && Separate(s) && HandlersOk(env, s) && MintedOk(env, s)
  }

  /** A new challenge under a fresh nonce does not touch what handlers and sessions hold. */
  lemma IssueKeeps(env: Env, s: State, did: string, nonce: string, readAt: nat)
    requires Inv(env, s) && ApplyIssue(env, s, did, nonce, readAt).Some?
    ensures Inv(env, ApplyIssue(env, s, did, nonce, readAt).value)
  {
    var after := ApplyIssue(env, s, did, nonce, readAt).value;
    IssueAdds(env, s, did, nonce, readAt);
    IssueHandlers(env, s, after, nonce);
    IssueMinted(env, s, after, nonce);
    IssueShared(env, s, did, nonce, readAt);
  }

  lemma IssueAdds(env: Env, s: State, did: string, nonce: string, readAt: nat)
    requires ApplyIssue(env, s, did, nonce, readAt).Some?
    ensures Added(s, ApplyIssue(env, s, did, nonce, readAt).value, nonce)
  {
  }

  lemma IssueShared(env: Env, s: State, did: string, nonce: string, readAt: nat)
    requires Shared(env, s) && ApplyIssue(env, s, did, nonce, readAt).Some?
    ensures Shared(env, ApplyIssue(env, s, did, nonce, readAt).value)
  {
  }

  ghost predicate Added(s: State, after: State, nonce: string) {
    && nonce !in s.issued && nonce in after.issued && after.handlers == s.handlers && after.minted == s.minted
    && after.now == s.now
    && (forall n :: n != nonce ==> (n in after.issued <==> n in s.issued) && (n in after.pending <==> n in s.pending))
    && (forall n :: n in s.issued ==> after.issued[n] == s.issued[n])
  }

  lemma IssueHandlers(env: Env, s: State, after: State, nonce: string)
    requires HandlersOk(env, s) && Added(s, after, nonce)
    ensures HandlersOk(env, after)
  {
    forall a | a in after.handlers ensures HandlerOk(env, after, after.handlers[a]) {
      assert HandlerOk(env, s, s.handlers[a]);
    }
  }

  lemma IssueMinted(env: Env, s: State, after: State, nonce: string)
    requires MintedOk(env, s) && Added(s, after, nonce)
    ensures MintedOk(env, after)
  {
    forall t | t in after.minted ensures ProvenanceOk(env, after, after.minted[t]) {
      assert ProvenanceOk(env, s, s.minted[t]);
    }
  }

  lemma TakeKeeps(env: Env, s: State, pid: nat)
    requires Inv(env, s) && ApplyTake(s, pid).Some?
    ensures Inv(env, ApplyTake(s, pid).value)
  {
    if s.handlers[pid].req.nonce !in s.pending {
      LocalKeeps(env, s, pid, Finished);
    } else {
      TakeOk(env, s, pid);
      TakeSeparate(env, s, pid);
    }
  }

  lemma TakeOk(env: Env, s: State, pid: nat)
    requires Inv(env, s) && ApplyTake(s, pid).Some? && s.handlers[pid].req.nonce in s.pending
    ensures HandlersOk(env, ApplyTake(s, pid).value) && MintedOk(env, ApplyTake(s, pid).value)
  {
    var after := ApplyTake(s, pid).value;
    forall a | a in after.handlers ensures HandlerOk(env, after, after.handlers[a]) {
      assert a in s.handlers && HandlerOk(env, s, s.handlers[a]);
    }
    forall t | t in after.minted ensures ProvenanceOk(env, after, after.minted[t]) {
      assert ProvenanceOk(env, s, s.minted[t]);
    }
  }

  /** Whatever another handler or a session holds is no longer pending, so it is not what was taken. */
  lemma TakeSeparate(env: Env, s: State, pid: nat)
    requires Inv(env, s) && ApplyTake(s, pid).Some? && s.handlers[pid].req.nonce in s.pending
    ensures Separate(ApplyTake(s, pid).value) && Shared(env, ApplyTake(s, pid).value)
  {
    var nonce := s.handlers[pid].req.nonce;
    assert forall a :: a in s.handlers && Holds(s.handlers[a]) ==>
      HandlerOk(env, s, s.handlers[a]) && s.handlers[a].stored.nonce != nonce;
    assert forall t :: t in s.minted ==> ProvenanceOk(env, s, s.minted[t]) && s.minted[t].stored.nonce != nonce;
    HolderSeparate(s, pid, Taken(s.handlers[pid].req, s.pending[nonce], s.now), nonce);
  }

  /** A handler may take hold of a challenge nobody holds. */
  lemma HolderSeparate(s: State, pid: nat, h: Handler, nonce: string)
    requires Separate(s) && pid in s.handlers && Holds(h) && h.stored.nonce == nonce
    requires forall a :: a in s.handlers && Holds(s.handlers[a]) ==> s.handlers[a].stored.nonce != nonce
    requires forall t :: t in s.minted ==> s.minted[t].stored.nonce != nonce
    ensures Separate(s.(pending := s.pending - {nonce}, handlers := s.handlers[pid := h]))
  {
  }

  /** A handler that moves on keeps the challenge it holds, or drops it. */
  lemma LocalKeeps(env: Env, s: State, pid: nat, h: Handler)
    requires Inv(env, s) && pid in s.handlers && HandlerOk(env, s, h)
    requires Holds(h) ==> Holds(s.handlers[pid]) && h.stored == s.handlers[pid].stored
    ensures Inv(env, s.(handlers := s.handlers[pid := h]))
  {
    LocalSeparate(s, pid, h);
    LocalOk(env, s, pid, h);
  }

  lemma LocalSeparate(s: State, pid: nat, h: Handler)
    requires Separate(s) && pid in s.handlers
    requires Holds(h) ==> Holds(s.handlers[pid]) && h.stored == s.handlers[pid].stored
    ensures Separate(s.(handlers := s.handlers[pid := h]))
  {
  }

  lemma LocalOk(env: Env, s: State, pid: nat, h: Handler)
    requires HandlersOk(env, s) && MintedOk(env, s) && HandlerOk(env, s, h)
    ensures HandlersOk(env, s.(handlers := s.handlers[pid := h])) && MintedOk(env, s.(handlers := s.handlers[pid := h]))
  {
    var after := s.(handlers := s.handlers[pid := h]);
    assert forall x: Handler :: HandlerOk(env, s, x) <==> HandlerOk(env, after, x);
    assert forall p: Provenance :: ProvenanceOk(env, s, p) <==> ProvenanceOk(env, after, p);
  }

  lemma MintKeeps(env: Env, s: State, pid: nat, token: string)
    requires Inv(env, s) && ApplyMint(s, pid, token).Some?
    ensures Inv(env, ApplyMint(s, pid, token).value)
  {
    MintOk(env, s, pid, token);
    MintSeparate(s, pid, token);
    MintShared(env, s, pid, token);
  }

  lemma MintOk(env: Env, s: State, pid: nat, token: string)
    requires Inv(env, s) && ApplyMint(s, pid, token).Some?
    ensures HandlersOk(env, ApplyMint(s, pid, token).value) && MintedOk(env, ApplyMint(s, pid, token).value)
  {
    var after := ApplyMint(s, pid, token).value;
    assert HandlerOk(env, s, s.handlers[pid]);
    forall a | a in after.handlers ensures HandlerOk(env, after, after.handlers[a]) {
      assert a != pid ==> HandlerOk(env, s, s.handlers[a]);
    }
    forall t | t in after.minted ensures ProvenanceOk(env, after, after.minted[t]) {
      assert t != token ==> ProvenanceOk(env, s, s.minted[t]);
    }
  }

  /** The handler hands its challenge over to the session and holds it no longer. */
  lemma MintSeparate(s: State, pid: nat, token: string)
    requires Separate(s) && ApplyMint(s, pid, token).Some?
    ensures Separate(ApplyMint(s, pid, token).value)
  {
  }

  lemma MintShared(env: Env, s: State, pid: nat, token: string)
    requires Shared(env, s) && ApplyMint(s, pid, token).Some?
    ensures Shared(env, ApplyMint(s, pid, token).value)
  {
  }

  /** Nothing is added: less pending, fewer sessions, a later clock, or one more fresh handler. */
  ghost predicate Quiet(s: State, after: State) {
    && after.issued == s.issued && after.minted == s.minted && s.now <= after.now
    && (forall n :: n in after.pending ==> n in s.pending && after.pending[n] == s.pending[n])
    && (forall t :: t in after.sessions ==> t in s.sessions && after.sessions[t] == s.sessions[t])
    && (forall a :: a in after.handlers ==>
          (a in s.handlers && after.handlers[a] == s.handlers[a]) || after.handlers[a].Received?)
  }

  lemma QuietKeeps(env: Env, s: State, after: State)
    requires Inv(env, s) && Quiet(s, after)
    ensures Inv(env, after)
  {
    QuietOk(env, s, after);
    QuietSeparate(s, after);
  }

  lemma QuietSeparate(s: State, after: State)
    requires Separate(s) && Quiet(s, after)
    ensures Separate(after)
  {
  }

  lemma QuietOk(env: Env, s: State, after: State)
    requires HandlersOk(env, s) && MintedOk(env, s) && Quiet(s, after)
    ensures HandlersOk(env, after) && MintedOk(env, after)
  {
    forall a | a in after.handlers ensures HandlerOk(env, after, after.handlers[a]) {
      assert Holds(after.handlers[a]) ==> HandlerOk(env, s, s.handlers[a]);
    }
    forall t | t in after.minted ensures ProvenanceOk(env, after, after.minted[t]) {
      assert ProvenanceOk(env, s, s.minted[t]);
    }
  }

  lemma ExpiryKeeps(env: Env, s: State, pid: nat)
    requires Inv(env, s) && ApplyCheckExpiry(s, pid).Some?
    ensures Inv(env, ApplyCheckExpiry(s, pid).value)
  {
    var h := s.handlers[pid];
    assert HandlerOk(env, s, h);
    LocalKeeps(env, s, pid, if s.now >= h.stored.expiresAt then Finished else InTime(h.req, h.stored, h.takenAt));
  }

  lemma ProofKeeps(env: Env, s: State, pid: nat)
    requires Inv(env, s) && ApplyCheckProof(env, s, pid).Some?
    ensures Inv(env, ApplyCheckProof(env, s, pid).value)
  {
    var h := s.handlers[pid];
    assert HandlerOk(env, s, h);
    if ApplyCheckProof(env, s, pid).value == Finish(s, pid) {
      LocalKeeps(env, s, pid, Finished);
    } else {
      LocalKeeps(env, s, pid, Proven(h.req, h.stored, h.takenAt));
    }
  }

  /** Every step keeps the invariant. */
  lemma StepKeeps(env: Env, s: State, e: Event)
    requires Inv(env, s) && Apply(env, s, e).Some?
    ensures Inv(env, Apply(env, s, e).value)
  {
    var after := Apply(env, s, e).value;
    match e
    case Issue(did, nonce, readAt) => IssueKeeps(env, s, did, nonce, readAt);
    case Take(pid) => TakeKeeps(env, s, pid);
    case CheckExpiry(pid) => ExpiryKeeps(env, s, pid);
    case CheckProof(pid) => ProofKeeps(env, s, pid);
    case Mint(pid, token) => MintKeeps(env, s, pid, token);
    case Refuse(pid) => LocalKeeps(env, s, pid, Finished);
    case _ => QuietKeeps(env, s, after);
  }

  lemma {:induction false} ReachKeeps(env: Env, events: seq<Event>)
    requires Reach(env, events).Some?
    ensures Inv(env, Reach(env, events).value)
  {
    if events != [] {
      ReachKeeps(env, events[..|events| - 1]);
      StepKeeps(env, Reach(env, events[..|events| - 1]).value, events[|events| - 1]);
    }
  }

  /**
   In every interleaving, each session ever minted for a DID maps to its own challenge: issued to
   that DID, taken out of the store before it expired, its message the one built for that DID and
   nonce and signed for that DID, and not the challenge of any other session.
   */
  lemma SessionsAreProven(env: Env, events: seq<Event>)
    requires Reach(env, events).Some?
    ensures var s := Reach(env, events).value;
      && (forall t :: t in s.minted ==>
            var p := s.minted[t];
            && p.stored.nonce in s.issued && s.issued[p.stored.nonce] == p.stored
            && p.stored.did == p.did && p.takenAt < p.stored.expiresAt && Genuine(env, p.stored)
            && Proves(env, p.did, p.stored.message, p.req.signature, p.req.publicKey))
      && (forall t, u :: t in s.minted && u in s.minted && t != u ==>
            s.minted[t].stored.nonce != s.minted[u].stored.nonce)
  {
    ReachKeeps(env, events);
    var s := Reach(env, events).value;
    assert forall t :: t in s.minted ==> ProvenanceOk(env, s, s.minted[t]);
  }

  /** A bearer token resolves only to the DID that proved possession for that token. */
  lemma TokenNamesProver(env: Env, events: seq<Event>, token: string)
    requires Reach(env, events).Some? && token in Reach(env, events).value.sessions
    ensures var s := Reach(env, events).value;
            token in s.minted && s.minted[token].stored.did == s.sessions[token] &&
            Proves(env, s.sessions[token], s.minted[token].stored.message, s.minted[token].req.signature,
                       s.minted[token].req.publicKey)
  {
    SessionsAreProven(env, events);
    ReachKeeps(env, events);
  }

  function Then(env: Env, s: Option<State>, e: Event): Option<State> {
    match s case None => None case Some(t) => Apply(env, t, e)
  }

  /** The clock moves to `t`, then `e` happens. */
  function ThenAt(env: Env, s: Option<State>, t: nat, e: Event): Option<State> {
    Then(env, Then(env, s, Tick(t)), e)
  }

  /** When the six steps of a login happen; the first is at the state's own time. */
  datatype Schedule = Schedule(receive: nat, take: nat, check: nat, prove: nat, mint: nat)

  predicate InOrder(now: nat, t: Schedule) {
    now <= t.receive <= t.take <= t.check <= t.prove <= t.mint
  }

  /** The state after one login's own steps. */
  function OwnSteps(env: Env, s: State, req: Request, pid: nat, token: string, t: Schedule): Option<State> {
    var s1 := Then(env, Some(s), Issue(req.did, req.nonce, s.now));
    var s2 := ThenAt(env, s1, t.receive, Receive(pid, req));
    var s3 := ThenAt(env, s2, t.take, Take(pid));
    var s4 := ThenAt(env, s3, t.check, CheckExpiry(pid));
    var s5 := ThenAt(env, s4, t.prove, CheckProof(pid));
    ThenAt(env, s5, t.mint, Mint(pid, token))
  }

  /** `pid` has just moved to `h` at time `t`. */
  predicate At(s: Option<State>, pid: nat, h: Handler, t: nat, token: string) {
    s.Some? && s.value.now == t && pid in s.value.handlers && s.value.handlers[pid] == h && token !in s.value.minted
  }

  /** One check after another moves the handler on while the clock advances. */
  lemma HandlerMoves(env: Env, s: Option<State>, req: Request, c: Challenge, pid: nat, takenAt: nat, now: nat, t: nat,
                     token: string)
    requires now <= t
    ensures At(s, pid, Taken(req, c, takenAt), now, token) && t < c.expiresAt ==>
            At(ThenAt(env, s, t, CheckExpiry(pid)), pid, InTime(req, c, takenAt), t, token)
    ensures At(s, pid, InTime(req, c, takenAt), now, token) && c.did == req.did &&
            Proves(env, req.did, c.message, req.signature, req.publicKey) ==>
            At(ThenAt(env, s, t, CheckProof(pid)), pid, Proven(req, c, takenAt), t, token)
  {
  }

  lemma Minted(env: Env, s: Option<State>, req: Request, c: Challenge, pid: nat, takenAt: nat, now: nat, t: nat,
               token: string)
    requires now <= t && At(s, pid, Proven(req, c, takenAt), now, token)
    ensures LoggedIn(ThenAt(env, s, t, Mint(pid, token)), req.did, token)
  {
  }

  /** Issue, receive and take: the handler holds the challenge the state issued. */
  lemma TakesOwn(env: Env, s: State, req: Request, pid: nat, token: string, t: Schedule, c: Challenge)
    requires req.nonce !in s.issued && pid !in s.handlers && token !in s.minted && env.cfg.wellFormed(req.did)
    requires InOrder(s.now, t) && env.cfg.message(req.did, req.nonce, s.now, s.now + env.cfg.ttl) == Some(c.message)
    requires c == Challenge(req.did, req.nonce, c.message, s.now + env.cfg.ttl)
    ensures var s1 := Then(env, Some(s), Issue(req.did, req.nonce, s.now));
            var s2 := ThenAt(env, s1, t.receive, Receive(pid, req));
            At(ThenAt(env, s2, t.take, Take(pid)), pid, Taken(req, c, t.take), t.take, token)
  {
  }

  /**
   From any state, an honest login ends in a session for its DID, however long each step takes,
   exactly when its expiry check comes in time.
   */
  lemma HonestLogin(env: Env, s: State, req: Request, pid: nat, token: string, t: Schedule)
    requires req.nonce !in s.issued && pid !in s.handlers && token !in s.minted && env.cfg.wellFormed(req.did)
    requires InOrder(s.now, t)
    requires env.cfg.message(req.did, req.nonce, s.now, s.now + env.cfg.ttl).Some?
    requires Proves(env, req.did, env.cfg.message(req.did, req.nonce, s.now, s.now + env.cfg.ttl).value,
                        req.signature, req.publicKey)
    ensures LoggedIn(OwnSteps(env, s, req, pid, token, t), req.did, token) <==> t.check < s.now + env.cfg.ttl
  {
    var text := env.cfg.message(req.did, req.nonce, s.now, s.now + env.cfg.ttl).value;
    var c := Challenge(req.did, req.nonce, text, s.now + env.cfg.ttl);
    var s1 := Then(env, Some(s), Issue(req.did, req.nonce, s.now));
    var s3 := ThenAt(env, ThenAt(env, s1, t.receive, Receive(pid, req)), t.take, Take(pid));
    TakesOwn(env, s, req, pid, token, t, c);
    if t.check < c.expiresAt {
      Finishes(env, s3, req, c, pid, token, t);
    } else {
      TooLate(env, s3, req, c, pid, token, t);
    }
  }

  predicate LoggedIn(after: Option<State>, did: string, token: string) {
    after.Some? && token in after.value.sessions && after.value.sessions[token] == did
  }

  lemma Finishes(env: Env, s3: Option<State>, req: Request, c: Challenge, pid: nat, token: string, t: Schedule)
    requires InOrder(0, t) && t.check < c.expiresAt && c.did == req.did
    requires Proves(env, req.did, c.message, req.signature, req.publicKey)
    requires At(s3, pid, Taken(req, c, t.take), t.take, token)
    ensures var s5 := ThenAt(env, ThenAt(env, s3, t.check, CheckExpiry(pid)), t.prove, CheckProof(pid));
            LoggedIn(ThenAt(env, s5, t.mint, Mint(pid, token)), req.did, token)
  {
    var s4 := ThenAt(env, s3, t.check, CheckExpiry(pid));
    HandlerMoves(env, s3, req, c, pid, t.take, t.take, t.check, token);
    HandlerMoves(env, s4, req, c, pid, t.take, t.check, t.prove, token);
    Minted(env, ThenAt(env, s4, t.prove, CheckProof(pid)), req, c, pid, t.take, t.prove, t.mint, token);
  }

  /** A check at or past the expiry finishes the handler, and there is nothing left to prove. */
  lemma TooLate(env: Env, s3: Option<State>, req: Request, c: Challenge, pid: nat, token: string, t: Schedule)
    requires InOrder(0, t) && t.check >= c.expiresAt && At(s3, pid, Taken(req, c, t.take), t.take, token)
    ensures ThenAt(env, ThenAt(env, s3, t.check, CheckExpiry(pid)), t.prove, CheckProof(pid)).None?
  {
  }

  /** With nothing in between, taking and checking is the store's validation. */
  lemma TakeThenCheckIsValidate(s: State, pid: nat)
    requires pid in s.handlers && s.handlers[pid].Received?
    ensures var nonce := s.handlers[pid].req.nonce;
      var taken := ApplyTake(s, pid).value;
      var r := Validate(s.pending, nonce, s.now);
      && taken.pending == r.1
      && (r.0 == Err(ChallengeNotFound) <==> taken.handlers[pid].Finished?)
      && (taken.handlers[pid].Taken? ==>
            var checked := ApplyCheckExpiry(taken, pid).value;
            && (r.0.Ok? <==> checked.handlers[pid].InTime?)
            && (r.0.Ok? ==> checked.handlers[pid].stored == r.0.value))
  {
  }
}
