/** What the in-memory session storage does to its map. */
module Sessions {
  import opened Wrappers
  import opened Text
  import opened Ranking

  datatype Session = Session(did: string, token: string, validUntil: nat, createdAt: nat)

  type Store = map<string, Session>

  datatype SessionError = SessionStoreFull | SessionNotFound | SessionExpired

  datatype Limits = Limits(ttl: nat, maxSessions: nat, maxPerDid: nat)

  /** What is left after dropping sessions at or past their end. */
  function Live(m: Store, now: nat): Store {
    map t | t in m && m[t].validUntil > now :: m[t]
  }

  function OfDid(m: Store, did: string): Store {
    map t | t in m && m[t].did == did :: m[t]
  }

  function Ages(m: Store): map<string, int> {
    map t | t in m :: m[t].createdAt
  }

  /** Every session sits under its own token and lasts one TTL. */
  predicate Stamped(m: Store, ttl: nat) {
    forall t :: t in m ==> m[t].token == t && m[t].validUntil == m[t].createdAt + ttl
  }

  // ---------- The operations as functions of the map ----------

  /** At or over its quota, a DID loses its own oldest session; nobody else does. */
  ghost function EnforcePerDidCap(m: Store, did: string, quota: nat): Store {
    var mine := OfDid(m, did);
    if |mine| < quota || mine == map[] then m
    else
      AgesNonEmpty(mine);
      m - {First(Ages(mine))}
  }

  lemma AgesNonEmpty(m: Store)
    requires m != map[]
    ensures Ages(m) != map[]
  {
    var t :| t in m;
    assert t in Ages(m);
  }

  function Swept(m: Store, maxSessions: nat, now: nat): Store {
    if |m| >= maxSessions then Live(m, now) else m
  }

  /** A full store rejects; otherwise the DID's cap makes room for the new session. */
  ghost function Admit(m: Store, limits: Limits, s: Session): (Result<Session, SessionError>, Store) {
    if |m| >= limits.maxSessions then (Err(SessionStoreFull), m)
    else (Ok(s), EnforcePerDidCap(m, s.did, limits.maxPerDid)[s.token := s])
  }

  /** The clock is read twice: for the sweep, and for the session's own times. */
  ghost function Create(m: Store, limits: Limits, did: string, token: string, sweepNow: nat, now: nat)
    : (Result<Session, SessionError>, Store)
  {
    Admit(Swept(m, limits.maxSessions, sweepNow), limits, Session(did, token, now + limits.ttl, now))
  }

  function Validate(m: Store, token: string, now: nat): (Result<string, SessionError>, Store) {
    if token !in m then (Err(SessionNotFound), m)
    else if now >= m[token].validUntil then (Err(SessionExpired), m - {token})
    else (Ok(m[token].did), m)
  }

  function RevokeAll(m: Store, did: string): Store {
    map t | t in m && m[t].did != did :: m[t]
  }

  // ---------- Counting ----------

  lemma SubMap(a: Store, b: Store)
    requires a.Keys <= b.Keys
    ensures |a| <= |b|
  {
    Fewer(a.Keys, b.Keys);
  }

  lemma LiveSmaller(m: Store, now: nat)
    ensures |Live(m, now)| <= |m| && Live(m, now).Keys <= m.Keys
  {
    SubMap(Live(m, now), m);
  }

  lemma Removed(m: Store, t: string)
    requires t in m
    ensures |m - {t}| == |m| - 1
  {
    assert (m - {t}).Keys == m.Keys - {t};
  }

  lemma Inserted(m: Store, t: string, s: Session)
    ensures |m[t := s]| <= |m| + 1
  {
    assert m[t := s].Keys == m.Keys + {t};
  }

  /** How many sessions a DID holds, expired ones included. */
  function Held(m: Store, did: string): nat {
    |OfDid(m, did)|
  }

  ghost predicate Within(m: Store, limits: Limits) {
    Stamped(m, limits.ttl) && |m| <= limits.maxSessions &&
    forall did :: Held(m, did) <= PerDid(limits)
  }

  /** A quota of zero still lets one session in. */
  function PerDid(limits: Limits): nat {
    if limits.maxPerDid == 0 then 1 else limits.maxPerDid
  }

  lemma FirstIn(m: Store)
    requires m != map[]
    ensures Ages(m) != map[] && First(Ages(m)) in m
    ensures forall t :: t in m ==> m[First(Ages(m))].createdAt <= m[t].createdAt
  {
    AgesNonEmpty(m);
    var k := First(Ages(m));
    assert forall t :: t in m ==> t in Ages(m) && Before(Ages(m), k, t);
  }

  lemma OfDidSubset(a: Store, b: Store, did: string)
    requires forall t :: t in a ==> t in b && a[t] == b[t]
    ensures Held(a, did) <= Held(b, did) && |a| <= |b|
  {
    SubMap(OfDid(a, did), OfDid(b, did));
    SubMap(a, b);
  }

  /** Dropping sessions keeps every bound. */
  lemma WithinSubset(a: Store, b: Store, limits: Limits)
    requires Within(b, limits) && forall t :: t in a ==> t in b && a[t] == b[t]
    ensures Within(a, limits)
  {
    forall did ensures Held(a, did) <= PerDid(limits) {
      OfDidSubset(a, b, did);
    }
    OfDidSubset(a, b, "");
  }

  /** After enforcing the cap there is room for one more session of the DID. */
  lemma CapLeavesRoom(m: Store, did: string, limits: Limits)
    requires Within(m, limits)
    ensures var room := EnforcePerDidCap(m, did, limits.maxPerDid);
            Held(room, did) < PerDid(limits) && forall t :: t in room ==> t in m && room[t] == m[t]
  {
    var mine := OfDid(m, did);
    assert Held(m, did) == |mine| <= PerDid(limits);
    if !(|mine| < limits.maxPerDid || mine == map[]) {
      FirstIn(mine);
      var v := First(Ages(mine));
      assert OfDid(m - {v}, did) == mine - {v};
      Removed(mine, v);
    }
  }

  lemma OfDidInsert(room: Store, did: string, s: Session, token: string)
    requires s.token == token
    ensures Held(room[token := s], did) <= Held(room, did) + if s.did == did then 1 else 0
  {
    var after := OfDid(room[token := s], did);
    if s.did == did {
      assert after.Keys == OfDid(room, did).Keys + {token};
    } else {
      Fewer(after.Keys, OfDid(room, did).Keys);
    }
  }

  lemma CreateWithin(m: Store, limits: Limits, did: string, token: string, sweepNow: nat, now: nat)
    requires Within(m, limits)
    ensures Within(Create(m, limits, did, token, sweepNow, now).1, limits)
  {
    CreateIs(m, limits, Session(did, token, now + limits.ttl, now), sweepNow, now);
    SweptAdmitWithin(m, limits, sweepNow, Session(did, token, now + limits.ttl, now));
  }

  lemma SweptAdmitWithin(m: Store, limits: Limits, sweepNow: nat, s: Session)
    requires Within(m, limits) && s.validUntil == s.createdAt + limits.ttl
    ensures Within(Admit(Swept(m, limits.maxSessions, sweepNow), limits, s).1, limits)
  {
    SweptWithin(m, limits, sweepNow);
    AdmitWithin(Swept(m, limits.maxSessions, sweepNow), limits, s);
  }

  lemma SweptWithin(m: Store, limits: Limits, now: nat)
    requires Within(m, limits)
    ensures Within(Swept(m, limits.maxSessions, now), limits)
  {
    WithinSubset(Live(m, now), m, limits);
  }

  lemma AdmitWithin(m: Store, limits: Limits, s: Session)
    requires Within(m, limits) && s.validUntil == s.createdAt + limits.ttl
    ensures Within(Admit(m, limits, s).1, limits)
  {
    if |m| < limits.maxSessions {
      var room := EnforcePerDidCap(m, s.did, limits.maxPerDid);
      CapLeavesRoom(m, s.did, limits);
      WithinSubset(room, m, limits);
      OfDidSubset(room, m, s.did);
      InsertWithin(room, limits, s);
    }
  }

  lemma InsertWithin(room: Store, limits: Limits, s: Session)
    requires Within(room, limits) && |room| < limits.maxSessions && Held(room, s.did) < PerDid(limits)
    requires s.validUntil == s.createdAt + limits.ttl
    ensures Within(room[s.token := s], limits)
  {
    Inserted(room, s.token, s);
    var after := room[s.token := s];
    forall did ensures Held(after, did) <= PerDid(limits) {
      OfDidInsert(room, did, s, s.token);
      assert Held(room, did) <= PerDid(limits);
    }
  }

  // ---------- Runs ----------

  datatype Op =
    | DoCreate(did: string, token: string, sweepNow: nat, now: nat)
    | DoValidate(token: string, now: nat)
    | DoRevoke(token: string)
    | DoRevokeAll(did: string)
    | DoSweep(now: nat)

  /** What a caller observes; counts and the reason of a failure are not part of it. */
  datatype Outcome = Created(session: Option<Session>) | Validated(did: Option<string>) | Silent

  ghost function Step(m: Store, limits: Limits, op: Op): (Outcome, Store) {
    match op
    case DoCreate(did, token, sweepNow, now) =>
      var (r, after) := Create(m, limits, did, token, sweepNow, now);
      (Created(if r.Ok? then Some(r.value) else None), after)
    case DoValidate(token, now) =>
      var (r, after) := Validate(m, token, now);
      (Validated(if r.Ok? then Some(r.value) else None), after)
    case DoRevoke(token) => (Silent, m - {token})
    case DoRevokeAll(did) => (Silent, RevokeAll(m, did))
    case DoSweep(now) => (Silent, Live(m, now))
  }

  ghost function Run(m: Store, limits: Limits, ops: seq<Op>): (seq<Outcome>, Store)
    decreases |ops|
  {
    if ops == [] then ([], m)
    else
      var (o, next) := Step(m, limits, ops[0]);
      var (rest, last) := Run(next, limits, ops[1..]);
      (if ops[0].DoSweep? then rest else [o] + rest, last)
  }

  /** Every step keeps the global bound, the per-DID bound and the stamps. */
  lemma StepWithin(m: Store, limits: Limits, op: Op)
    requires Within(m, limits)
    ensures Within(Step(m, limits, op).1, limits)
  {
    if op.DoCreate? {
      CreateWithin(m, limits, op.did, op.token, op.sweepNow, op.now);
    } else {
      WithinSubset(Step(m, limits, op).1, m, limits);
    }
  }

  /** Over any serial run from an empty store the bounds hold. */
  lemma {:induction false} RunWithin(m: Store, limits: Limits, ops: seq<Op>)
    requires Within(m, limits)
    ensures Within(Run(m, limits, ops).1, limits)
    decreases |ops|
  {
    if ops != [] {
      StepWithin(m, limits, ops[0]);
      RunWithin(Step(m, limits, ops[0]).1, limits, ops[1..]);
    }
  }

  lemma EmptyWithin(limits: Limits)
    ensures Within(map[], limits)
  {
    forall did ensures Held(map[], did) == 0 {
      assert OfDid(map[], did) == map[];
    }
  }

  /** When an operation reads the clock; revocations do not. */
  function Begins(op: Op, t: nat): nat {
    match op
    case DoCreate(_, _, sweepNow, _) => sweepNow
    case DoValidate(_, now) => now
    case DoSweep(now) => now
    case _ => t
  }

  function Ends(op: Op, t: nat): nat {
    match op
    case DoCreate(_, _, _, now) => now
    case DoValidate(_, now) => now
    case DoSweep(now) => now
    case _ => t
  }

  /** The clock never goes back, within an operation or between two. */
  predicate Forward(ops: seq<Op>, t: nat) {
    ops == [] ||
    (t <= Begins(ops[0], t) <= Ends(ops[0], t) && Forward(ops[1..], Ends(ops[0], t)))
  }

  /**
   A live session leaves, or is replaced, only by its own revocation, its DID's, its DID's own
   create at full quota, or a create that reuses its token.
   */
  lemma LeavesOnly(m: Store, limits: Limits, op: Op, token: string)
    requires token in m && m[token].validUntil > Begins(op, 0)
    requires var after := Step(m, limits, op).1; token !in after || after[token] != m[token]
    ensures || op == DoRevoke(token)
            || op == DoRevokeAll(m[token].did)
            || (op.DoCreate? && Create(m, limits, op.did, op.token, op.sweepNow, op.now).0.Ok? &&
                (op.token == token || (op.did == m[token].did && Held(m, op.did) >= limits.maxPerDid)))
  {
    if op.DoCreate? {
      var swept := Swept(m, limits.maxSessions, op.sweepNow);
      assert token in swept;
      OfDidSubset(swept, m, op.did);
      var mine := OfDid(swept, op.did);
      if !(|mine| < limits.maxPerDid || mine == map[]) {
        FirstIn(mine);
      }
    }
  }

  // ---------- When the sweep runs does not show ----------

  lemma LiveLive(m: Store, a: nat, b: nat)
    requires a <= b
    ensures Live(Live(m, a), b) == Live(m, b)
  {
  }

  lemma SameLater(m1: Store, m2: Store, a: nat, b: nat)
    requires a <= b && Live(m1, a) == Live(m2, a)
    ensures Live(m1, b) == Live(m2, b)
  {
    LiveLive(m1, a, b);
    LiveLive(m2, a, b);
  }

  lemma InsertSame(m1: Store, m2: Store, t: string, s: Session, now: nat)
    requires Live(m1, now) == Live(m2, now)
    ensures Live(m1[t := s], now) == Live(m2[t := s], now)
  {
    InsertLive(m1, t, s, now);
    InsertLive(m2, t, s, now);
  }

  lemma InsertLive(m: Store, t: string, s: Session, now: nat)
    ensures Live(m[t := s], now) == if s.validUntil > now then Live(m, now)[t := s] else Live(m, now) - {t}
  {
  }

  /** With an expired session of its own a DID evicts an expired one, or needs to evict none. */
  lemma CapWithExpired(m: Store, did: string, limits: Limits, now: nat, e: string)
    requires Within(m, limits) && e in m && m[e].did == did && m[e].validUntil <= now
    ensures Live(EnforcePerDidCap(m, did, limits.maxPerDid), now) == Live(m, now)
    ensures EnforcePerDidCap(Live(m, now), did, limits.maxPerDid) == Live(m, now)
  {
    var mine, left := OfDid(m, did), OfDid(Live(m, now), did);
    assert e in mine && e !in left;
    FirstIn(mine);
    Removed(mine, e);
    SubMap(left, mine - {e});
    assert Held(m, did) <= PerDid(limits);
    assert limits.maxPerDid == 0 ==> |left| == 0;
  }

  lemma CapAllLive(m: Store, did: string, quota: nat, now: nat)
    requires forall t :: t in m && m[t].did == did ==> m[t].validUntil > now
    ensures Live(EnforcePerDidCap(m, did, quota), now) == EnforcePerDidCap(Live(m, now), did, quota)
  {
    assert OfDid(Live(m, now), did) == OfDid(m, did);
  }

  lemma CapCommutes(m: Store, did: string, limits: Limits, now: nat)
    requires Within(m, limits)
    ensures Live(EnforcePerDidCap(m, did, limits.maxPerDid), now) ==
            EnforcePerDidCap(Live(m, now), did, limits.maxPerDid)
  {
    if e :| e in m && m[e].did == did && m[e].validUntil <= now {
      CapWithExpired(m, did, limits, now, e);
    } else {
      CapAllLive(m, did, limits.maxPerDid, now);
    }
  }

  /** Admission looks only at what is live at the time of its sweep. */
  lemma AdmitSeesLive(m: Store, limits: Limits, s: Session, now: nat)
    requires Within(m, limits)
    ensures var a, b := Admit(Swept(m, limits.maxSessions, now), limits, s), Admit(Live(m, now), limits, s);
            a.0 == b.0 && Live(a.1, now) == Live(b.1, now)
  {
    LiveSmaller(m, now);
    LiveLive(m, now, now);
    if |m| < limits.maxSessions {
      var room := EnforcePerDidCap(m, s.did, limits.maxPerDid);
      var live := EnforcePerDidCap(Live(m, now), s.did, limits.maxPerDid);
      CapCommutes(m, s.did, limits, now);
      WithinSubset(Live(m, now), m, limits);
      CapCommutes(Live(m, now), s.did, limits, now);
      InsertSame(room, live, s.token, s, now);
    }
  }

  lemma CreateSame(m1: Store, m2: Store, limits: Limits, did: string, token: string, sweepNow: nat, now: nat)
    requires Within(m1, limits) && Within(m2, limits) && Live(m1, sweepNow) == Live(m2, sweepNow) && sweepNow <= now
    ensures var a := Create(m1, limits, did, token, sweepNow, now);
            var b := Create(m2, limits, did, token, sweepNow, now);
            a.0 == b.0 && Live(a.1, now) == Live(b.1, now)
  {
    var s := Session(did, token, now + limits.ttl, now);
    CreateIs(m1, limits, s, sweepNow, now);
    CreateIs(m2, limits, s, sweepNow, now);
    AdmitSame(m1, m2, limits, s, sweepNow, now);
  }

  lemma CreateIs(m: Store, limits: Limits, s: Session, sweepNow: nat, now: nat)
    requires s.validUntil == now + limits.ttl && s.createdAt == now
    ensures Create(m, limits, s.did, s.token, sweepNow, now) == Admit(Swept(m, limits.maxSessions, sweepNow), limits, s)
  {
  }

  lemma AdmitSame(m1: Store, m2: Store, limits: Limits, s: Session, now: nat, later: nat)
    requires Within(m1, limits) && Within(m2, limits) && Live(m1, now) == Live(m2, now) && now <= later
    ensures var a := Admit(Swept(m1, limits.maxSessions, now), limits, s);
            var b := Admit(Swept(m2, limits.maxSessions, now), limits, s);
            a.0 == b.0 && Live(a.1, later) == Live(b.1, later)
  {
    AdmitSeesLive(m1, limits, s, now);
    AdmitSeesLive(m2, limits, s, now);
    SameLater(Admit(Swept(m1, limits.maxSessions, now), limits, s).1,
              Admit(Swept(m2, limits.maxSessions, now), limits, s).1, now, later);
  }

  lemma LiveLookup(m1: Store, m2: Store, now: nat, token: string)
    requires Live(m1, now) == Live(m2, now)
    ensures token in m1 && m1[token].validUntil > now <==> token in m2 && m2[token].validUntil > now
    ensures token in m1 && m1[token].validUntil > now ==> m1[token] == m2[token]
  {
    assert token in Live(m1, now) <==> token in m1 && m1[token].validUntil > now;
    assert token in Live(m2, now) <==> token in m2 && m2[token].validUntil > now;
    assert token in Live(m1, now) ==> Live(m1, now)[token] == m1[token] && Live(m2, now)[token] == m2[token];
  }

  lemma RemoveSame(m1: Store, m2: Store, token: string, now: nat)
    requires Live(m1, now) == Live(m2, now)
    ensures Live(m1 - {token}, now) == Live(m2 - {token}, now)
  {
    assert forall m: Store :: Live(m - {token}, now) == Live(m, now) - {token};
  }

  lemma RevokeAllSame(m1: Store, m2: Store, did: string, now: nat)
    requires Live(m1, now) == Live(m2, now)
    ensures Live(RevokeAll(m1, did), now) == Live(RevokeAll(m2, did), now)
  {
    assert forall m: Store :: Live(RevokeAll(m, did), now) == RevokeAll(Live(m, now), did);
  }

  lemma ValidateSame(m1: Store, m2: Store, token: string, now: nat)
    requires Live(m1, now) == Live(m2, now)
    ensures var a, b := Validate(m1, token, now), Validate(m2, token, now);
            (a.0.Ok? <==> b.0.Ok?) && (a.0.Ok? ==> a.0 == b.0) && Live(a.1, now) == Live(b.1, now)
  {
    LiveLookup(m1, m2, now, token);
    ValidateLive(m1, token, now);
    ValidateLive(m2, token, now);
  }

  lemma ValidateLive(m: Store, token: string, now: nat)
    ensures Live(Validate(m, token, now).1, now) == Live(m, now)
  {
  }

  /** Two stores with the same live sessions answer alike and stay alike. */
  lemma StepSame(m1: Store, m2: Store, limits: Limits, op: Op, t: nat)
    requires Within(m1, limits) && Within(m2, limits) && Live(m1, t) == Live(m2, t)
    requires t <= Begins(op, t) <= Ends(op, t)
    ensures var a, b := Step(m1, limits, op), Step(m2, limits, op);
            a.0 == b.0 && Live(a.1, Ends(op, t)) == Live(b.1, Ends(op, t))
  {
    SameLater(m1, m2, t, Begins(op, t));
    match op
    case DoCreate(did, token, sweepNow, now) => CreateSame(m1, m2, limits, did, token, sweepNow, now);
    case DoValidate(token, now) => ValidateSame(m1, m2, token, now);
    case DoRevoke(token) => RemoveSame(m1, m2, token, t);
    case DoRevokeAll(did) => RevokeAllSame(m1, m2, did, t);
    case DoSweep(now) =>
      LiveLive(m1, now, now);
      LiveLive(m2, now, now);
  }

  function WithoutSweeps(ops: seq<Op>): seq<Op> {
    if ops == [] then []
    else if ops[0].DoSweep? then WithoutSweeps(ops[1..])
    else [ops[0]] + WithoutSweeps(ops[1..])
  }

  function Finish(ops: seq<Op>, t: nat): nat {
    if ops == [] then t else Finish(ops[1..], Ends(ops[0], t))
  }

  lemma {:induction false} SweepsInvisibleFrom(m1: Store, m2: Store, limits: Limits, ops: seq<Op>, t: nat)
    requires Within(m1, limits) && Within(m2, limits) && Live(m1, t) == Live(m2, t) && Forward(ops, t)
    ensures var a, b := Run(m1, limits, ops), Run(m2, limits, WithoutSweeps(ops));
            a.0 == b.0 && Live(a.1, Finish(ops, t)) == Live(b.1, Finish(ops, t))
    decreases |ops|
  {
    if ops != [] {
      var op := ops[0];
      var next := Step(m1, limits, op).1;
      StepWithin(m1, limits, op);
      if op.DoSweep? {
        LiveLive(m1, op.now, op.now);
        SameLater(m1, m2, t, op.now);
        SweepsInvisibleFrom(next, m2, limits, ops[1..], op.now);
      } else {
        StepWithin(m2, limits, op);
        StepSame(m1, m2, limits, op, t);
        SweepsInvisibleFrom(next, Step(m2, limits, op).1, limits, ops[1..], Ends(op, t));
        Uncons(op, WithoutSweeps(ops[1..]));
      }
    }
  }

  /**
   Two forward runs that differ only in their sweeps give every create and validate the same
   answer and end with the same live sessions.
   */
  lemma SweepTimingUnobservable(limits: Limits, ops1: seq<Op>, ops2: seq<Op>, end: nat)
    requires WithoutSweeps(ops1) == WithoutSweeps(ops2) && Forward(ops1, 0) && Forward(ops2, 0)
    requires Finish(ops1, 0) <= end && Finish(ops2, 0) <= end
    ensures var a, b := Run(map[], limits, ops1), Run(map[], limits, ops2);
            a.0 == b.0 && Live(a.1, end) == Live(b.1, end)
  {
    EmptyWithin(limits);
    var plain := Run(map[], limits, WithoutSweeps(ops1)).1;
    SweepsInvisibleFrom(map[], map[], limits, ops1, 0);
    SweepsInvisibleFrom(map[], map[], limits, ops2, 0);
    SameLater(Run(map[], limits, ops1).1, plain, Finish(ops1, 0), end);
    SameLater(Run(map[], limits, ops2).1, plain, Finish(ops2, 0), end);
  }

  // ---------- Whom a token names ----------

  /** There is room, if need be once the expired sessions are swept. */
  predicate Room(m: Store, limits: Limits, sweepNow: nat) {
    |m| < limits.maxSessions || |Live(m, sweepNow)| < limits.maxSessions
  }

  /** A create answers with the session asked for, or refuses for want of room. */
  lemma CreateAnswer(m: Store, limits: Limits, did: string, token: string, sweepNow: nat, now: nat)
    ensures Create(m, limits, did, token, sweepNow, now).0 ==
            if Room(m, limits, sweepNow) then Ok(Session(did, token, now + limits.ttl, now)) else Err(SessionStoreFull)
  {
  }

  /** An expired session is reported once, and then unknown; one never created is unknown from the start. */
  lemma ExpiredOnce(m: Store, token: string, now: nat, later: nat)
    ensures token in m && m[token].validUntil <= now ==>
      && Validate(m, token, now).0 == Err(SessionExpired)
      && Validate(m, token, now).1 == m - {token}
      && Validate(Validate(m, token, now).1, token, later).0 == Err(SessionNotFound)
    ensures token !in m ==> Validate(m, token, now) == (Err(SessionNotFound), m)
  {
  }

  /** Nothing of this DID was created earlier; ties go by token. */
  ghost predicate Eldest(m: Store, did: string, token: string) {
    && token in m && m[token].did == did
    && forall t :: t in m && m[t].did == did ==>
         m[token].createdAt < m[t].createdAt || (m[token].createdAt == m[t].createdAt && LexLe(token, t))
  }

  /** `op` ends the session that `did` holds under `token`: a revocation, its replacement or its eviction. */
  ghost predicate TakesAway(m: Store, limits: Limits, op: Op, token: string, did: string) {
    match op
    case DoRevoke(t) => t == token
    case DoRevokeAll(d) => d == did
    case DoCreate(d, t, sweepNow, _) =>
      Room(m, limits, sweepNow) &&
      (t == token ||
       (d == did && var left := if |m| < limits.maxSessions then m else Live(m, sweepNow);
          |OfDid(left, did)| >= limits.maxPerDid && Eldest(left, did, token)))
    case _ => false
  }

  ghost predicate HeldLive(m: Store, token: string, did: string, now: nat) {
    token in m && m[token].did == did && m[token].validUntil > now
  }

  ghost predicate Creates(m: Store, limits: Limits, op: Op, token: string, did: string, now: nat) {
    op.DoCreate? && op.did == did && op.token == token && Room(m, limits, op.sweepNow) && now < op.now + limits.ttl
  }

  lemma EldestIs(m: Store, did: string, token: string)
    requires OfDid(m, did) != map[]
    ensures Ages(OfDid(m, did)) != map[]
    ensures First(Ages(OfDid(m, did))) == token <==> Eldest(m, did, token)
  {
    var ages := Ages(OfDid(m, did));
    AgesNonEmpty(OfDid(m, did));
    if Eldest(m, did, token) {
      assert forall t :: t in ages ==> Before(ages, token, t);
      FirstUnique(ages, token, First(ages));
    } else if First(ages) == token {
      forall t | t in m && m[t].did == did
        ensures m[token].createdAt < m[t].createdAt || (m[token].createdAt == m[t].createdAt && LexLe(token, t))
      {
        assert t in ages && Before(ages, token, t);
      }
    }
  }

  /** What a DID's cap does to one of the sessions. */
  lemma CapDrops(m: Store, did: string, quota: nat, token: string)
    requires token in m
    ensures var room := EnforcePerDidCap(m, did, quota);
            && (token in room ==> room[token] == m[token])
            && (token !in room <==> |OfDid(m, did)| >= quota && Eldest(m, did, token))
  {
    if OfDid(m, did) != map[] {
      EldestIs(m, did, token);
    } else {
      assert token in m && m[token].did == did ==> token in OfDid(m, did);
    }
  }

  lemma CreateHolds(m: Store, limits: Limits, op: Op, token: string, did: string, now: nat)
    requires op.DoCreate? && op.sweepNow <= op.now <= now
    ensures HeldLive(Step(m, limits, op).1, token, did, now) <==>
            Creates(m, limits, op, token, did, now) ||
            (HeldLive(m, token, did, now) && !TakesAway(m, limits, op, token, did))
  {
    var left := Swept(m, limits.maxSessions, op.sweepNow);
    assert HeldLive(left, token, did, now) <==> HeldLive(m, token, did, now);
    if token in left {
      CapDrops(left, op.did, limits.maxPerDid, token);
    }
    CreateAnswer(m, limits, op.did, op.token, op.sweepNow, op.now);
    LiveSmaller(m, op.sweepNow);
    CreateStores(m, limits, op, left);
  }

  lemma CreateStores(m: Store, limits: Limits, op: Op, left: Store)
    requires op.DoCreate? && left == Swept(m, limits.maxSessions, op.sweepNow)
    ensures Step(m, limits, op).1 ==
            if |left| >= limits.maxSessions then left
            else EnforcePerDidCap(left, op.did, limits.maxPerDid)
                   [op.token := Session(op.did, op.token, op.now + limits.ttl, op.now)]
  {
  }

  /** A session is held after a step if the step created it, or it was held and the step did not end it. */
  lemma StepHolds(m: Store, limits: Limits, op: Op, token: string, did: string, t: nat, now: nat)
    requires Begins(op, t) <= Ends(op, t) <= now
    ensures HeldLive(Step(m, limits, op).1, token, did, now) <==>
            Creates(m, limits, op, token, did, now) ||
            (HeldLive(m, token, did, now) && !TakesAway(m, limits, op, token, did))
  {
    if op.DoCreate? {
      CreateHolds(m, limits, op, token, did, now);
    }
  }

  lemma RunOne(m: Store, limits: Limits, op: Op)
    ensures Run(m, limits, [op]) ==
            (if op.DoSweep? then [] else [Step(m, limits, op).0], Step(m, limits, op).1)
  {
    var (o, next) := Step(m, limits, op);
    assert [op][1..] == [] && Run(next, limits, []) == ([], next);
    assert [o] + [] == [o];
  }

  lemma {:induction false} RunSnoc(m: Store, limits: Limits, ops: seq<Op>, op: Op)
    ensures var (outcomes, last) := Run(m, limits, ops);
            Run(m, limits, ops + [op]) ==
            (outcomes + (if op.DoSweep? then [] else [Step(last, limits, op).0]), Step(last, limits, op).1)
    decreases |ops|
  {
    var all := ops + [op];
    if ops == [] {
      assert all == [op] && all[1..] == [];
      RunOne(m, limits, op);
      var tail := if op.DoSweep? then [] else [Step(m, limits, op).0];
      assert Run(m, limits, ops) == ([], m) && [] + tail == tail;
    } else {
      assert all[0] == ops[0] && all[1..] == ops[1..] + [op];
      var (first, next) := Step(m, limits, ops[0]);
      var (rest, last) := Run(next, limits, ops[1..]);
      RunSnoc(next, limits, ops[1..], op);
      Assoc([first], rest, if op.DoSweep? then [] else [Step(last, limits, op).0]);
    }
  }

  lemma {:induction false} ForwardSnoc(ops: seq<Op>, op: Op, t: nat)
    ensures Forward(ops + [op], t) <==>
            Forward(ops, t) && Finish(ops, t) <= Begins(op, Finish(ops, t)) <= Ends(op, Finish(ops, t))
    ensures Finish(ops + [op], t) == Ends(op, Finish(ops, t))
  {
    var all := ops + [op];
    if ops == [] {
      assert all == [op] && all[1..] == [];
    } else {
      assert all[0] == ops[0] && all[1..] == ops[1..] + [op];
      ForwardSnoc(ops[1..], op, Ends(ops[0], t));
    }
  }

  /** The store some operations lead to. */
  ghost function After(limits: Limits, ops: seq<Op>): Store {
    Run(map[], limits, ops).1
  }

  /** The `i`-th operation created the session, and no later one ended it. */
  ghost predicate Origin(limits: Limits, ops: seq<Op>, i: nat, token: string, did: string, now: nat) {
    && i < |ops| && Creates(After(limits, ops[..i]), limits, ops[i], token, did, now)
    && forall j :: i < j < |ops| ==> !TakesAway(After(limits, ops[..j]), limits, ops[j], token, did)
  }

  lemma OriginSnoc(limits: Limits, before: seq<Op>, op: Op, token: string, did: string, now: nat)
    ensures (exists i :: Origin(limits, before + [op], i, token, did, now)) <==>
            Creates(After(limits, before), limits, op, token, did, now) ||
            ((exists i :: Origin(limits, before, i, token, did, now)) &&
             !TakesAway(After(limits, before), limits, op, token, did))
  {
    var ops, n := before + [op], |before|;
    assert ops[..n] == before && forall j :: 0 <= j < n ==> ops[..j] == before[..j] && ops[j] == before[j];
    if i: nat :| Origin(limits, ops, i, token, did, now) && i < n {
      assert Origin(limits, before, i, token, did, now);
    }
    if i: nat :| Origin(limits, before, i, token, did, now) {
      assert !TakesAway(After(limits, before), limits, op, token, did) ==> Origin(limits, ops, i, token, did, now);
    }
    assert Creates(After(limits, before), limits, op, token, did, now) ==> Origin(limits, ops, n, token, did, now);
  }

  lemma {:induction false} HeldIff(limits: Limits, ops: seq<Op>, token: string, did: string, now: nat)
    requires Forward(ops, 0) && Finish(ops, 0) <= now
    ensures HeldLive(After(limits, ops), token, did, now) <==> exists i :: Origin(limits, ops, i, token, did, now)
    decreases |ops|
  {
    if ops != [] {
      var before, op := ops[..|ops| - 1], ops[|ops| - 1];
      assert ops == before + [op];
      ForwardSnoc(before, op, 0);
      FinishGrows(before, op);
      HeldIff(limits, before, token, did, now);
      RunSnoc(map[], limits, before, op);
      StepHolds(After(limits, before), limits, op, token, did, Finish(before, 0), now);
      OriginSnoc(limits, before, op, token, did, now);
    }
  }

  lemma FinishGrows(before: seq<Op>, op: Op)
    requires Forward(before + [op], 0)
    ensures Finish(before, 0) <= Finish(before + [op], 0)
  {
    ForwardSnoc(before, op, 0);
  }

  /**
   Over any forward run, a token validates to exactly the DID whose create made it: one that found
   room, less than a lifetime ago, and whose session no later operation revoked, replaced or evicted.
   */
  lemma ValidatesIff(limits: Limits, ops: seq<Op>, token: string, now: nat, did: string)
    requires Forward(ops + [DoValidate(token, now)], 0)
    ensures var outcomes := Run(map[], limits, ops + [DoValidate(token, now)]).0;
            && outcomes != []
            && (outcomes[|outcomes| - 1] == Validated(Some(did)) <==>
                exists i :: Origin(limits, ops, i, token, did, now))
  {
    ForwardSnoc(ops, DoValidate(token, now), 0);
    RunSnoc(map[], limits, ops, DoValidate(token, now));
    HeldIff(limits, ops, token, did, now);
  }
}

/** The session store over its in-memory backend. */
module SessionStore {
  import opened Wrappers
  import opened Ranking
  import opened Sessions

  class InMemoryBackend {
    var sessions: Store

    constructor ()
      ensures sessions == map[]
    {
      sessions := map[];
    }

    method Insert(session: Session)
      modifies this
      ensures sessions == old(sessions)[session.token := session]
    {
      sessions := sessions[session.token := session];
    }

    method Remove(token: string) returns (removed: bool)
      modifies this
      ensures sessions == old(sessions) - {token} && removed == (token in old(sessions))
    {
      removed := token in sessions;
      sessions := sessions - {token};
    }

    /** The values of a store in some order, each once. */
    static method ValuesOf(m: Store) returns (v: seq<Session>)
      requires forall t :: t in m ==> m[t].token == t
      ensures Lists(m, v)
    {
      v := [];
      var todo := m.Keys;
      while todo != {}
        invariant todo <= m.Keys && |v| + |todo| == |m|
        invariant Tokens(v) == m.Keys - todo
        invariant forall i :: 0 <= i < |v| ==> v[i].token in m && m[v[i].token] == v[i]
        decreases todo
      {
        var t :| t in todo;
        TokensAppend(v, m[t]);
        TakeKey(m.Keys, todo, t);
        v := v + [m[t]];
        todo := todo - {t};
      }
    }

    method SessionsForDid(did: string) returns (v: seq<Session>)
      requires forall t :: t in sessions ==> sessions[t].token == t
      ensures Lists(OfDid(sessions, did), v)
    {
      v := ValuesOf(OfDid(sessions, did));
    }

    /** Collect the DID's tokens, then remove them one by one. */
    method RemoveAllForDid(did: string) returns (count: nat)
      modifies this
      ensures sessions == RevokeAll(old(sessions), did) && count == |OfDid(old(sessions), did)|
    {
      var tokens := OfDid(sessions, did).Keys;
      count := |tokens|;
      ghost var was := sessions;
      while tokens != {}
        invariant tokens <= OfDid(was, did).Keys
        invariant sessions == was - (OfDid(was, did).Keys - tokens)
        decreases tokens
      {
        var t :| t in tokens;
        sessions := sessions - {t};
        tokens := tokens - {t};
      }
      RevokeAllIs(was, did);
    }

    /** The in-memory override: one pass of `retain`. */
    method PurgeExpired(now: nat) returns (count: nat)
      modifies this
      ensures sessions == Live(old(sessions), now) && count == |old(sessions)| - |Live(old(sessions), now)|
    {
      var before := |sessions|;
      LiveSmaller(sessions, now);
      sessions := map t | t in sessions && sessions[t].validUntil > now :: sessions[t];
      count := before - |sessions|;
    }

    /** The tokens of the expired sessions of a list. */
    static method ExpiredOf(all: seq<Session>, now: nat) returns (expired: seq<string>)
      ensures Elements(expired) == Dead(all, now)
    {
      expired := [];
      var i := 0;
      while i < |all|
        invariant 0 <= i <= |all| && Elements(expired) == Dead(all[..i], now)
      {
        DeadAppend(all, i, now);
        if all[i].validUntil <= now {
          ElementsAppend(expired, all[i].token);
          expired := expired + [all[i].token];
        }
        i := i + 1;
      }
      assert all[..i] == all;
    }

    /** Remove one token after another and count those that were there. */
    method RemoveEach(tokens: seq<string>) returns (count: nat)
      modifies this
      ensures sessions == old(sessions) - Elements(tokens) && count == |old(sessions)| - |sessions|
    {
      ghost var was, gone: set<string> := sessions, {};
      var i := 0;
      count := 0;
      assert was - gone == was;
      while i < |tokens|
        invariant 0 <= i <= |tokens| && count == |was| - |sessions|
        invariant sessions == was - gone && gone == Elements(tokens[..i])
      {
        PrefixElements(tokens, i);
        RemoveMore(was, gone, tokens[i]);
        gone := gone + {tokens[i]};
        var removed := Remove(tokens[i]);
        if removed {
          count := count + 1;
        }
        i := i + 1;
      }
      assert tokens[..i] == tokens;
    }

    /** The trait's default: collect the expired tokens, remove each, count what was removed. */
    method DefaultPurgeExpired(now: nat) returns (count: nat)
      requires forall t :: t in sessions ==> sessions[t].token == t
      modifies this
      ensures sessions == Live(old(sessions), now) && count == |old(sessions)| - |Live(old(sessions), now)|
    {
      var all := ValuesOf(sessions);
      var expired := ExpiredOf(all, now);
      AllDead(sessions, all, now);
      count := RemoveEach(expired);
    }
  }

  function Elements(s: seq<string>): set<string> {
    set t | t in s
  }

  lemma ElementsAppend(s: seq<string>, t: string)
    ensures Elements(s + [t]) == Elements(s) + {t}
  {
  }

  lemma PrefixElements(s: seq<string>, i: nat)
    requires i < |s|
    ensures Elements(s[..i + 1]) == Elements(s[..i]) + {s[i]}
  {
    assert s[..i + 1] == s[..i] + [s[i]];
    ElementsAppend(s[..i], s[i]);
  }

  function Tokens(v: seq<Session>): set<string> {
    set i | 0 <= i < |v| :: v[i].token
  }

  /** `v` is the values of `m` in some order. */
  predicate Lists(m: Store, v: seq<Session>) {
    |v| == |m| && Tokens(v) == m.Keys && forall i :: 0 <= i < |v| ==> v[i].token in m && m[v[i].token] == v[i]
  }

  lemma TakeKey(keys: set<string>, todo: set<string>, t: string)
    requires todo <= keys && t in todo
    ensures keys - (todo - {t}) == keys - todo + {t}
  {
  }

  lemma TokensAppend(v: seq<Session>, s: Session)
    ensures Tokens(v + [s]) == Tokens(v) + {s.token}
  {
    var w := v + [s];
    assert w[|v|] == s && forall i :: 0 <= i < |v| ==> w[i] == v[i];
  }

  function Dead(v: seq<Session>, now: nat): set<string> {
    set i | 0 <= i < |v| && v[i].validUntil <= now :: v[i].token
  }

  lemma DeadAppend(v: seq<Session>, i: nat, now: nat)
    requires i < |v|
    ensures Dead(v[..i + 1], now) == Dead(v[..i], now) + if v[i].validUntil <= now then {v[i].token} else {}
  {
    assert forall j :: 0 <= j < i ==> v[..i + 1][j] == v[..i][j];
    assert v[..i + 1][i] == v[i];
  }

  lemma RemoveMore(m: Store, dead: set<string>, t: string)
    ensures m - dead - {t} == m - (dead + {t})
    ensures |m - dead - {t}| == |m - dead| - if t in m - dead then 1 else 0
  {
    var left := m - dead;
    MinusTwice(m, dead, t);
    if t in left {
      Removed(left, t);
    } else {
      assert left - {t} == left;
    }
  }

  lemma MinusTwice(m: Store, dead: set<string>, t: string)
    ensures m - dead - {t} == m - (dead + {t})
  {
  }

  lemma AllDead(m: Store, v: seq<Session>, now: nat)
    requires Lists(m, v)
    ensures m - Dead(v, now) == Live(m, now)
  {
    forall t | t in m ensures t in Dead(v, now) <==> m[t].validUntil <= now {
      assert t in Tokens(v);
    }
  }

  lemma RevokeAllIs(m: Store, did: string)
    ensures m - OfDid(m, did).Keys == RevokeAll(m, did)
  {
  }

  class Manager {
    const backend: InMemoryBackend
    const limits: Limits

    constructor (limits: Limits, backend: InMemoryBackend)
      ensures this.limits == limits && this.backend == backend
    {
      this.limits := limits;
      this.backend := backend;
    }

    ghost predicate Valid()
      reads this, backend
    {
      Within(backend.sessions, limits)
    }

    method CleanupExpired(now: nat)
      modifies backend
      ensures backend.sessions == Live(old(backend.sessions), now)
    {
      var count := backend.PurgeExpired(now);
    }

    /** Sort this DID's sessions by age and token and drop the first. */
    method EnforceCap(did: string)
      requires Valid()
      modifies backend
      ensures backend.sessions == EnforcePerDidCap(old(backend.sessions), did, limits.maxPerDid)
    {
      var mine := backend.SessionsForDid(did);
      ghost var m := OfDid(backend.sessions, did);
      if |mine| < limits.maxPerDid || |mine| == 0 {
        return;
      }
      ghost var ages := Ages(m);
      assert mine[0].token in m;
      var oldest, i := mine[0], 1;
      LexReflexive(oldest.token);
      while i < |mine|
        invariant backend.sessions == old(backend.sessions)
        invariant 1 <= i <= |mine| && oldest in mine
        invariant forall j :: 0 <= j < i ==> Before(ages, oldest.token, mine[j].token)
      {
        OlderOf(ages, mine, i, oldest);
        if Older(mine[i], oldest) {
          oldest := mine[i];
        }
        i := i + 1;
      }
      OldestIsFirst(m, mine, oldest);
      var removed := backend.Remove(oldest.token);
    }

    method Create(did: string, token: string, sweepNow: nat, now: nat) returns (r: Result<Session, SessionError>)
      requires Valid()
      modifies backend
      ensures Valid()
      ensures (r, backend.sessions) == Sessions.Create(old(backend.sessions), limits, did, token, sweepNow, now)
    {
      CreateWithin(backend.sessions, limits, did, token, sweepNow, now);
      SweptWithin(backend.sessions, limits, sweepNow);
      CreateIs(backend.sessions, limits, Session(did, token, now + limits.ttl, now), sweepNow, now);
      if |backend.sessions| >= limits.maxSessions {
        CleanupExpired(sweepNow);
        if |backend.sessions| >= limits.maxSessions {
          return Err(SessionStoreFull);
        }
      }
      EnforceCap(did);
      var session := Session(did, token, now + limits.ttl, now);
      backend.Insert(session);
      return Ok(session);
    }

    method Revoke(token: string) returns (removed: bool)
      requires Valid()
      modifies backend
      ensures Valid() && backend.sessions == old(backend.sessions) - {token}
      ensures removed == (token in old(backend.sessions))
    {
      WithinSubset(backend.sessions - {token}, backend.sessions, limits);
      removed := backend.Remove(token);
    }

    method RevokeAllForDid(did: string) returns (count: nat)
      requires Valid()
      modifies backend
      ensures Valid() && backend.sessions == RevokeAll(old(backend.sessions), did)
      ensures count == |OfDid(old(backend.sessions), did)|
    {
      WithinSubset(RevokeAll(backend.sessions, did), backend.sessions, limits);
      count := backend.RemoveAllForDid(did);
    }

    method Validate(token: string, now: nat) returns (r: Result<string, SessionError>)
      requires Valid()
      modifies backend
      ensures Valid() && (r, backend.sessions) == Sessions.Validate(old(backend.sessions), token, now)
    {
      if token !in backend.sessions {
        return Err(SessionNotFound);
      }
      var session := backend.sessions[token];
      if now >= session.validUntil {
        WithinSubset(backend.sessions - {token}, backend.sessions, limits);
        var removed := backend.Remove(token);
        return Err(SessionExpired);
      }
      return Ok(session.did);
    }
  }

  predicate Older(a: Session, b: Session) {
    a.createdAt < b.createdAt || (a.createdAt == b.createdAt && LexLe(a.token, b.token))
  }

  ghost predicate ListsAges(ages: map<string, int>, v: seq<Session>) {
    forall i :: 0 <= i < |v| ==> v[i].token in ages && ages[v[i].token] == v[i].createdAt
  }

  lemma OlderOf(ages: map<string, int>, v: seq<Session>, i: nat, oldest: Session)
    requires ListsAges(ages, v) && oldest in v && i < |v|
    requires forall j :: 0 <= j < i ==> Before(ages, oldest.token, v[j].token)
    ensures var best := if Older(v[i], oldest) then v[i] else oldest;
            forall j :: 0 <= j <= i ==> Before(ages, best.token, v[j].token)
  {
    LexTotal(v[i].token, oldest.token);
    LexReflexive(v[i].token);
    if Older(v[i], oldest) {
      forall j | 0 <= j < i ensures Before(ages, v[i].token, v[j].token) {
        BeforeTransitive(ages, v[i].token, oldest.token, v[j].token);
      }
    }
  }

  lemma OldestIsFirst(m: Store, v: seq<Session>, oldest: Session)
    requires m != map[] && Lists(m, v) && oldest in v
    requires forall j :: 0 <= j < |v| ==> Before(Ages(m), oldest.token, v[j].token)
    ensures Ages(m) != map[] && First(Ages(m)) == oldest.token
  {
    AgesNonEmpty(m);
    forall t | t in Ages(m) ensures Before(Ages(m), oldest.token, t) {
      assert t in Tokens(v);
    }
    FirstUnique(Ages(m), oldest.token, First(Ages(m)));
  }
}
