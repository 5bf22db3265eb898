/** What the challenge store does to its map. */
module Challenges {
  import opened Wrappers
  import opened Text
  import opened Ranking

  datatype Challenge = Challenge(did: string, nonce: string, message: string, expiresAt: nat)

  type Pending = map<string, Challenge>

  datatype ChallengeError = MalformedDid | ChallengeNotFound | ChallengeExpired

  /** The DID check and the message builder, both functions of their arguments. */
  datatype Config = Config(
    ttl: nat, maxChallenges: nat,
    wellFormed: string -> bool,
    message: (string, string, nat, nat) -> Option<string>)

  function Live(m: Pending, now: nat): Pending {
    map n | n in m && m[n].expiresAt > now :: m[n]
  }

  function Expiries(m: Pending): map<string, int> {
    map n | n in m :: m[n].expiresAt
  }

  lemma ExpiriesNonEmpty(m: Pending)
    requires m != map[]
    ensures Expiries(m) != map[]
  {
    var n :| n in m;
    assert n in Expiries(m);
  }

  /** Drop the entry that expires first, which under one TTL is the oldest. */
  ghost function EvictOldest(m: Pending): Pending {
    if m == map[] then m else
      ExpiriesNonEmpty(m);
      m - {First(Expiries(m))}
  }

  ghost function MakeRoom(m: Pending, maxChallenges: nat, now: nat): Pending {
    if |m| < maxChallenges then m
    else if |Live(m, now)| < maxChallenges then Live(m, now)
    else EvictOldest(Live(m, now))
  }

  /** Build the message and keep the challenge under its nonce. */
  function Issue(room: Pending, cfg: Config, did: string, nonce: string, now: nat)
    : (Result<Challenge, ChallengeError>, Pending)
  {
    match cfg.message(did, nonce, now, now + cfg.ttl)
    case None => (Err(MalformedDid), room)
    case Some(text) =>
      var c := Challenge(did, nonce, text, now + cfg.ttl);
      (Ok(c), room[nonce := c])
  }

  /** Room is made before the message is built; a malformed DID touches nothing. */
  ghost function Create(m: Pending, cfg: Config, did: string, nonce: string, sweepNow: nat, now: nat)
    : (Result<Challenge, ChallengeError>, Pending)
  {
    if !cfg.wellFormed(did) then (Err(MalformedDid), m)
    else Issue(MakeRoom(m, cfg.maxChallenges, sweepNow), cfg, did, nonce, now)
  }

  /** A challenge is removed whether or not it is still valid. */
  function Validate(m: Pending, nonce: string, now: nat): (Result<Challenge, ChallengeError>, Pending) {
    if nonce !in m then (Err(ChallengeNotFound), m)
    else if now >= m[nonce].expiresAt then (Err(ChallengeExpired), m - {nonce})
    else (Ok(m[nonce]), m - {nonce})
  }

  // ---------- Bounds ----------

  /** A cap of zero still lets one challenge in. */
  function Cap(cfg: Config): nat {
    if cfg.maxChallenges == 0 then 1 else cfg.maxChallenges
  }

  lemma LiveSmaller(m: Pending, now: nat)
    ensures |Live(m, now)| <= |m|
  {
    Fewer(Live(m, now).Keys, m.Keys);
  }

  lemma EvictSmaller(m: Pending)
    ensures m != map[] ==> |EvictOldest(m)| == |m| - 1
    ensures |EvictOldest(m)| <= |m|
  {
    if m != map[] {
      ExpiriesNonEmpty(m);
      var v := First(Expiries(m));
      assert (m - {v}).Keys == m.Keys - {v};
    }
  }

  lemma RoomMade(m: Pending, cfg: Config, now: nat)
    requires |m| <= Cap(cfg)
    ensures |MakeRoom(m, cfg.maxChallenges, now)| < Cap(cfg)
  {
    LiveSmaller(m, now);
    EvictSmaller(Live(m, now));
  }

  // ---------- Runs ----------

  datatype Op =
    | DoCreate(did: string, nonce: string, sweepNow: nat, now: nat)
    | DoValidate(nonce: string, now: nat)
    | DoSweep(now: nat)

  datatype Outcome = Created(challenge: Option<Challenge>) | Validated(challenge: Option<Challenge>) | Silent

  function ToOption(r: Result<Challenge, ChallengeError>): Option<Challenge> {
    if r.Ok? then Some(r.value) else None
  }

  ghost function Step(m: Pending, cfg: Config, op: Op): (Outcome, Pending) {
    match op
    case DoCreate(did, nonce, sweepNow, now) =>
      var (r, after) := Create(m, cfg, did, nonce, sweepNow, now);
      (Created(ToOption(r)), after)
    case DoValidate(nonce, now) =>
      var (r, after) := Validate(m, nonce, now);
      (Validated(ToOption(r)), after)
    case DoSweep(now) => (Silent, Live(m, now))
  }

  ghost function Run(m: Pending, cfg: Config, ops: seq<Op>): (seq<Outcome>, Pending)
    decreases |ops|
  {
    if ops == [] then ([], m)
    else
      var (o, next) := Step(m, cfg, ops[0]);
      var (rest, last) := Run(next, cfg, ops[1..]);
      (if ops[0].DoSweep? then rest else [o] + rest, last)
  }

  lemma Inserted(m: Pending, n: string, c: Challenge)
    ensures |m[n := c]| <= |m| + 1
  {
    assert m[n := c].Keys == m.Keys + {n};
  }

  lemma CreateBounded(m: Pending, cfg: Config, did: string, nonce: string, sweepNow: nat, now: nat)
    requires |m| <= Cap(cfg)
    ensures |Create(m, cfg, did, nonce, sweepNow, now).1| <= Cap(cfg)
  {
    RoomMade(m, cfg, sweepNow);
    var text := cfg.message(did, nonce, now, now + cfg.ttl);
    if text.Some? {
      Inserted(MakeRoom(m, cfg.maxChallenges, sweepNow), nonce, Challenge(did, nonce, text.value, now + cfg.ttl));
    }
  }

  lemma StepBounded(m: Pending, cfg: Config, op: Op)
    requires |m| <= Cap(cfg)
    ensures |Step(m, cfg, op).1| <= Cap(cfg)
  {
    match op
    case DoCreate(did, nonce, sweepNow, now) => CreateBounded(m, cfg, did, nonce, sweepNow, now);
    case DoValidate(nonce, now) => Fewer((m - {nonce}).Keys, m.Keys);
    case DoSweep(now) => LiveSmaller(m, now);
  }

  /** Over any serial run the store never exceeds its cap. */
  lemma {:induction false} RunBounded(m: Pending, cfg: Config, ops: seq<Op>)
    requires |m| <= Cap(cfg)
    ensures |Run(m, cfg, ops).1| <= Cap(cfg)
    decreases |ops|
  {
    if ops != [] {
      StepBounded(m, cfg, ops[0]);
      RunBounded(Step(m, cfg, ops[0]).1, cfg, ops[1..]);
    }
  }

  // ---------- When the sweep runs does not show ----------

  function Begins(op: Op): nat {
    if op.DoCreate? then op.sweepNow else op.now
  }

  predicate Forward(ops: seq<Op>, t: nat) {
    ops == [] || (t <= Begins(ops[0]) <= ops[0].now && Forward(ops[1..], ops[0].now))
  }

  lemma LiveLive(m: Pending, a: nat, b: nat)
    requires a <= b
    ensures Live(Live(m, a), b) == Live(m, b)
  {
  }

  lemma SameLater(m1: Pending, m2: Pending, a: nat, b: nat)
    requires a <= b && Live(m1, a) == Live(m2, a)
    ensures Live(m1, b) == Live(m2, b)
  {
    LiveLive(m1, a, b);
    LiveLive(m2, a, b);
  }

  lemma InsertLive(m: Pending, n: string, c: Challenge, now: nat)
    ensures Live(m[n := c], now) == if c.expiresAt > now then Live(m, now)[n := c] else Live(m, now) - {n}
  {
  }

  lemma RemoveLive(m: Pending, n: string, now: nat)
    ensures Live(m - {n}, now) == Live(m, now) - {n}
  {
  }

  /** Making room looks only at what is live. */
  lemma RoomSeesLive(m: Pending, maxChallenges: nat, now: nat)
    ensures Live(MakeRoom(m, maxChallenges, now), now) == MakeRoom(Live(m, now), maxChallenges, now)
  {
    LiveSmaller(m, now);
    LiveLive(m, now, now);
    var live := Live(m, now);
    if |live| >= maxChallenges && live != map[] {
      ExpiriesNonEmpty(live);
      RemoveLive(live, First(Expiries(live)), now);
    }
  }

  lemma CreateSame(m1: Pending, m2: Pending, cfg: Config, did: string, nonce: string, sweepNow: nat, now: nat)
    requires Live(m1, sweepNow) == Live(m2, sweepNow) && sweepNow <= now
    ensures var a, b := Create(m1, cfg, did, nonce, sweepNow, now), Create(m2, cfg, did, nonce, sweepNow, now);
            a.0 == b.0 && Live(a.1, now) == Live(b.1, now)
  {
    RoomSeesLive(m1, cfg.maxChallenges, sweepNow);
    RoomSeesLive(m2, cfg.maxChallenges, sweepNow);
    var room1, room2 := MakeRoom(m1, cfg.maxChallenges, sweepNow), MakeRoom(m2, cfg.maxChallenges, sweepNow);
    SameLater(room1, room2, sweepNow, now);
    SameLater(m1, m2, sweepNow, now);
    IssueSame(room1, room2, cfg, did, nonce, now);
  }

  lemma IssueSame(room1: Pending, room2: Pending, cfg: Config, did: string, nonce: string, now: nat)
    requires Live(room1, now) == Live(room2, now)
    ensures var a, b := Issue(room1, cfg, did, nonce, now), Issue(room2, cfg, did, nonce, now);
            a.0 == b.0 && Live(a.1, now) == Live(b.1, now)
  {
    var text := cfg.message(did, nonce, now, now + cfg.ttl);
    if text.Some? {
      var c := Challenge(did, nonce, text.value, now + cfg.ttl);
      InsertLive(room1, nonce, c, now);
      InsertLive(room2, nonce, c, now);
    }
  }

  lemma ValidateSame(m1: Pending, m2: Pending, nonce: string, now: nat)
    requires Live(m1, now) == Live(m2, now)
    ensures var a, b := Validate(m1, nonce, now), Validate(m2, nonce, now);
            ToOption(a.0) == ToOption(b.0) && Live(a.1, now) == Live(b.1, now)
  {
    ValidateLive(m1, nonce, now);
    ValidateLive(m2, nonce, now);
  }

  lemma ValidateLive(m: Pending, nonce: string, now: nat)
    ensures Live(Validate(m, nonce, now).1, now) == Live(m, now) - {nonce}
    ensures ToOption(Validate(m, nonce, now).0) == if nonce in Live(m, now) then Some(Live(m, now)[nonce]) else None
  {
    RemoveLive(m, nonce, now);
  }

  function WithoutSweeps(ops: seq<Op>): seq<Op> {
    if ops == [] then []
    else if ops[0].DoSweep? then WithoutSweeps(ops[1..])
    else [ops[0]] + WithoutSweeps(ops[1..])
  }

  function Finish(ops: seq<Op>, t: nat): nat {
    if ops == [] then t else Finish(ops[1..], ops[0].now)
  }

  lemma StepSame(m1: Pending, m2: Pending, cfg: Config, op: Op, t: nat)
    requires Live(m1, t) == Live(m2, t) && t <= Begins(op) <= op.now && !op.DoSweep?
    ensures var a, b := Step(m1, cfg, op), Step(m2, cfg, op); a.0 == b.0 && Live(a.1, op.now) == Live(b.1, op.now)
  {
    SameLater(m1, m2, t, Begins(op));
    if op.DoCreate? {
      CreateSame(m1, m2, cfg, op.did, op.nonce, op.sweepNow, op.now);
    } else {
      ValidateSame(m1, m2, op.nonce, op.now);
    }
  }

  lemma {:induction false} SweepsInvisibleFrom(m1: Pending, m2: Pending, cfg: Config, ops: seq<Op>, t: nat)
    requires Live(m1, t) == Live(m2, t) && Forward(ops, t)
    ensures var a, b := Run(m1, cfg, ops), Run(m2, cfg, WithoutSweeps(ops));
            a.0 == b.0 && Live(a.1, Finish(ops, t)) == Live(b.1, Finish(ops, t))
    decreases |ops|
  {
    if ops != [] {
      var op := ops[0];
      if op.DoSweep? {
        LiveLive(m1, op.now, op.now);
        SameLater(m1, m2, t, op.now);
        SweepsInvisibleFrom(Step(m1, cfg, op).1, m2, cfg, ops[1..], op.now);
      } else {
        StepSame(m1, m2, cfg, op, t);
        SweepsInvisibleFrom(Step(m1, cfg, op).1, Step(m2, cfg, op).1, cfg, ops[1..], op.now);
        assert ([op] + WithoutSweeps(ops[1..]))[1..] == WithoutSweeps(ops[1..]);
      }
    }
  }

  /** Two forward runs that differ only in their sweeps answer alike and end with the same live challenges. */
  lemma SweepTimingUnobservable(cfg: Config, ops1: seq<Op>, ops2: seq<Op>, end: nat)
    requires WithoutSweeps(ops1) == WithoutSweeps(ops2) && Forward(ops1, 0) && Forward(ops2, 0)
    requires Finish(ops1, 0) <= end && Finish(ops2, 0) <= end
    ensures var a, b := Run(map[], cfg, ops1), Run(map[], cfg, ops2);
            a.0 == b.0 && Live(a.1, end) == Live(b.1, end)
  {
    var plain := Run(map[], cfg, WithoutSweeps(ops1)).1;
    SweepsInvisibleFrom(map[], map[], cfg, ops1, 0);
    SweepsInvisibleFrom(map[], map[], cfg, ops2, 0);
    SameLater(Run(map[], cfg, ops1).1, plain, Finish(ops1, 0), end);
    SameLater(Run(map[], cfg, ops2).1, plain, Finish(ops2, 0), end);
  }

  // ---------- Single use ----------

  predicate Validates(op: Op, nonce: string, o: Outcome) {
    op.DoValidate? && op.nonce == nonce && o.Validated? && o.challenge.Some?
  }

  predicate Issues(op: Op, nonce: string, o: Outcome) {
    op.DoCreate? && op.nonce == nonce && o.Created? && o.challenge.Some?
  }

  /** How many validations of `nonce` succeed along a run. */
  ghost function Uses(m: Pending, cfg: Config, ops: seq<Op>, nonce: string): nat
    decreases |ops|
  {
    if ops == [] then 0 else
    var (o, next) := Step(m, cfg, ops[0]);
    (if Validates(ops[0], nonce, o) then 1 else 0) + Uses(next, cfg, ops[1..], nonce)
  }

  /** How many challenges are issued under `nonce` along a run. */
  ghost function Issued(m: Pending, cfg: Config, ops: seq<Op>, nonce: string): nat
    decreases |ops|
  {
    if ops == [] then 0 else
    var (o, next) := Step(m, cfg, ops[0]);
    (if Issues(ops[0], nonce, o) then 1 else 0) + Issued(next, cfg, ops[1..], nonce)
  }

  function Held(m: Pending, nonce: string): nat {
    if nonce in m then 1 else 0
  }

  lemma StepUses(m: Pending, cfg: Config, op: Op, nonce: string)
    ensures var (o, next) := Step(m, cfg, op);
            (if Validates(op, nonce, o) then 1 else 0) + Held(next, nonce) <=
            (if Issues(op, nonce, o) then 1 else 0) + Held(m, nonce)
  {
  }

  /**
   Whatever creates, evictions and sweeps lie between, each successful validation of a nonce uses
   up a challenge that was issued under it, or that was pending at the start.
   */
  lemma {:induction false} SingleUse(m: Pending, cfg: Config, ops: seq<Op>, nonce: string)
    ensures Uses(m, cfg, ops, nonce) <= Issued(m, cfg, ops, nonce) + Held(m, nonce)
    decreases |ops|
  {
    if ops != [] {
      StepUses(m, cfg, ops[0], nonce);
      SingleUse(Step(m, cfg, ops[0]).1, cfg, ops[1..], nonce);
    }
  }

  /** So a nonce that no later create reuses validates at most once, however often it is presented. */
  lemma {:induction false} AtMostOneUse(m: Pending, cfg: Config, ops: seq<Op>, nonce: string)
    requires forall i :: 0 <= i < |ops| && ops[i].DoCreate? ==> ops[i].nonce != nonce
    ensures Uses(m, cfg, ops, nonce) <= 1
  {
    SingleUse(m, cfg, ops, nonce);
    NoneIssued(m, cfg, ops, nonce);
  }

  lemma {:induction false} NoneIssued(m: Pending, cfg: Config, ops: seq<Op>, nonce: string)
    requires forall i :: 0 <= i < |ops| && ops[i].DoCreate? ==> ops[i].nonce != nonce
    ensures Issued(m, cfg, ops, nonce) == 0
    decreases |ops|
  {
    if ops != [] {
      assert forall i :: 0 <= i < |ops[1..]| ==> ops[1..][i] == ops[i + 1];
      NoneIssued(Step(m, cfg, ops[0]).1, cfg, ops[1..], nonce);
    }
  }

  // ---------- What a nonce validates to ----------

  /** The second validation of a nonce finds nothing, whatever the first answered. */
  lemma SecondUseRefused(m: Pending, nonce: string, now: nat, later: nat)
    ensures Validate(Validate(m, nonce, now).1, nonce, later) == (Err(ChallengeNotFound), Validate(m, nonce, now).1)
    ensures nonce in m && m[nonce].expiresAt <= now ==> Validate(m, nonce, now).0 == Err(ChallengeExpired)
    ensures nonce !in m ==> Validate(m, nonce, now).0 == Err(ChallengeNotFound)
  {
  }

  /** A DID that is not well-formed changes nothing; one no message can be built for may still cost an eviction. */
  lemma CreateRefused(m: Pending, cfg: Config, did: string, nonce: string, sweepNow: nat, now: nat)
    ensures !cfg.wellFormed(did) ==> Create(m, cfg, did, nonce, sweepNow, now) == (Err(MalformedDid), m)
    ensures cfg.wellFormed(did) && cfg.message(did, nonce, now, now + cfg.ttl).None? ==>
      Create(m, cfg, did, nonce, sweepNow, now) == (Err(MalformedDid), MakeRoom(m, cfg.maxChallenges, sweepNow))
  {
  }

  /** Nothing pending expires earlier; ties go by nonce. */
  ghost predicate Soonest(m: Pending, nonce: string) {
    && nonce in m
    && forall n :: n in m ==>
         m[nonce].expiresAt < m[n].expiresAt || (m[nonce].expiresAt == m[n].expiresAt && LexLe(nonce, n))
  }

  /** Making room costs this challenge its place: the store is full of live ones and it is the first to expire. */
  ghost predicate Evicts(m: Pending, cfg: Config, op: Op, nonce: string) {
    && op.DoCreate? && cfg.wellFormed(op.did)
    && |m| >= cfg.maxChallenges && |Live(m, op.sweepNow)| >= cfg.maxChallenges
    && Soonest(Live(m, op.sweepNow), nonce)
  }

  /** `op` ends what is pending under `nonce`: it is used, replaced or evicted. */
  ghost predicate TakesAway(m: Pending, cfg: Config, op: Op, nonce: string) {
    || (op.DoValidate? && op.nonce == nonce)
    || (op.DoCreate? && op.nonce == nonce && cfg.wellFormed(op.did) &&
        cfg.message(op.did, nonce, op.now, op.now + cfg.ttl).Some?)
    || Evicts(m, cfg, op, nonce)
  }

  /** `op` issues `c`: its message is the one built for its DID and nonce at the time of issue. */
  predicate Makes(cfg: Config, op: Op, c: Challenge) {
    && op.DoCreate? && op.did == c.did && op.nonce == c.nonce && cfg.wellFormed(c.did)
    && c.expiresAt == op.now + cfg.ttl
    && cfg.message(c.did, c.nonce, op.now, op.now + cfg.ttl) == Some(c.message)
  }

  predicate PendingLive(m: Pending, nonce: string, c: Challenge, now: nat) {
    nonce in m && m[nonce] == c && now < c.expiresAt
  }

  lemma SoonestIs(m: Pending, nonce: string)
    requires m != map[]
    ensures Expiries(m) != map[] && (First(Expiries(m)) == nonce <==> Soonest(m, nonce))
  {
    var ends := Expiries(m);
    ExpiriesNonEmpty(m);
    if Soonest(m, nonce) {
      assert forall n :: n in ends ==> Before(ends, nonce, n);
      FirstUnique(ends, nonce, First(ends));
    } else if First(ends) == nonce {
      forall n | n in m
        ensures m[nonce].expiresAt < m[n].expiresAt || (m[nonce].expiresAt == m[n].expiresAt && LexLe(nonce, n))
      {
        assert n in ends && Before(ends, nonce, n);
      }
    }
  }

  /** What making room does to a challenge that is still live. */
  lemma RoomDrops(m: Pending, cfg: Config, op: Op, nonce: string, c: Challenge, now: nat)
    requires op.DoCreate? && cfg.wellFormed(op.did) && op.sweepNow <= now
    ensures var room := MakeRoom(m, cfg.maxChallenges, op.sweepNow);
            PendingLive(room, nonce, c, now) <==> PendingLive(m, nonce, c, now) && !Evicts(m, cfg, op, nonce)
  {
    var live := Live(m, op.sweepNow);
    LiveSmaller(m, op.sweepNow);
    if live != map[] {
      SoonestIs(live, nonce);
    }
  }

  lemma CreateHolds(m: Pending, cfg: Config, op: Op, nonce: string, c: Challenge, now: nat)
    requires op.DoCreate? && op.sweepNow <= op.now <= now && c.nonce == nonce
    ensures PendingLive(Step(m, cfg, op).1, nonce, c, now) <==>
            (Makes(cfg, op, c) && now < c.expiresAt) ||
            (PendingLive(m, nonce, c, now) && !TakesAway(m, cfg, op, nonce))
  {
    if cfg.wellFormed(op.did) {
      RoomDrops(m, cfg, op, nonce, c, now);
      IssueHolds(MakeRoom(m, cfg.maxChallenges, op.sweepNow), cfg, op, nonce, c, now);
    }
  }

  lemma IssueHolds(room: Pending, cfg: Config, op: Op, nonce: string, c: Challenge, now: nat)
    requires op.DoCreate? && cfg.wellFormed(op.did) && c.nonce == nonce
    ensures var text := cfg.message(op.did, op.nonce, op.now, op.now + cfg.ttl);
            PendingLive(Issue(room, cfg, op.did, op.nonce, op.now).1, nonce, c, now) <==>
            (Makes(cfg, op, c) && now < c.expiresAt) ||
            (PendingLive(room, nonce, c, now) && !(op.nonce == nonce && text.Some?))
  {
  }

  lemma StepHolds(m: Pending, cfg: Config, op: Op, nonce: string, c: Challenge, now: nat)
    requires Begins(op) <= op.now <= now && c.nonce == nonce
    ensures PendingLive(Step(m, cfg, op).1, nonce, c, now) <==>
            (Makes(cfg, op, c) && now < c.expiresAt) ||
            (PendingLive(m, nonce, c, now) && !TakesAway(m, cfg, op, nonce))
  {
    if op.DoCreate? {
      CreateHolds(m, cfg, op, nonce, c, now);
    }
  }

  lemma RunOne(m: Pending, cfg: Config, op: Op)
    ensures Run(m, cfg, [op]) == (if op.DoSweep? then [] else [Step(m, cfg, op).0], Step(m, cfg, op).1)
  {
    var (o, next) := Step(m, cfg, op);
    assert [op][1..] == [] && Run(next, cfg, []) == ([], next);
    assert [o] + [] == [o];
  }

  lemma {:induction false} RunSnoc(m: Pending, cfg: Config, ops: seq<Op>, op: Op)
    ensures var (outcomes, last) := Run(m, cfg, ops);
            Run(m, cfg, ops + [op]) ==
            (outcomes + (if op.DoSweep? then [] else [Step(last, cfg, op).0]), Step(last, cfg, op).1)
    decreases |ops|
  {
    var all := ops + [op];
    if ops == [] {
      assert all == [op];
      RunOne(m, cfg, op);
      var tail := if op.DoSweep? then [] else [Step(m, cfg, op).0];
      assert Run(m, cfg, ops) == ([], m) && [] + tail == tail;
    } else {
      assert all[0] == ops[0] && all[1..] == ops[1..] + [op];
      var (first, next) := Step(m, cfg, ops[0]);
      var (rest, last) := Run(next, cfg, ops[1..]);
      RunSnoc(next, cfg, ops[1..], op);
      Assoc([first], rest, if op.DoSweep? then [] else [Step(last, cfg, op).0]);
    }
  }

  lemma {:induction false} ForwardSnoc(ops: seq<Op>, op: Op, t: nat)
    ensures Forward(ops + [op], t) <==> Forward(ops, t) && Finish(ops, t) <= Begins(op) <= op.now
    ensures Finish(ops + [op], t) == op.now
  {
    var all := ops + [op];
    if ops == [] {
      assert all == [op] && all[1..] == [];
    } else {
      assert all[0] == ops[0] && all[1..] == ops[1..] + [op];
      ForwardSnoc(ops[1..], op, ops[0].now);
    }
  }

  ghost function After(cfg: Config, ops: seq<Op>): Pending {
    Run(map[], cfg, ops).1
  }

  /** The `i`-th operation issued the challenge, and no later one ended it. */
  ghost predicate Origin(cfg: Config, ops: seq<Op>, i: nat, c: Challenge) {
    && i < |ops| && Makes(cfg, ops[i], c)
    && forall j :: i < j < |ops| ==> !TakesAway(After(cfg, ops[..j]), cfg, ops[j], c.nonce)
  }

  lemma OriginSnoc(cfg: Config, before: seq<Op>, op: Op, c: Challenge)
    ensures (exists i :: Origin(cfg, before + [op], i, c)) <==>
            Makes(cfg, op, c) ||
            ((exists i :: Origin(cfg, before, i, c)) && !TakesAway(After(cfg, before), cfg, op, c.nonce))
  {
    var ops, n := before + [op], |before|;
    assert ops[..n] == before && forall j :: 0 <= j < n ==> ops[..j] == before[..j] && ops[j] == before[j];
    if i: nat :| Origin(cfg, ops, i, c) && i < n {
      assert Origin(cfg, before, i, c);
    }
    if i: nat :| Origin(cfg, before, i, c) {
      assert !TakesAway(After(cfg, before), cfg, op, c.nonce) ==> Origin(cfg, ops, i, c);
    }
    assert Makes(cfg, op, c) ==> Origin(cfg, ops, n, c);
  }

  lemma {:induction false} PendingIff(cfg: Config, ops: seq<Op>, c: Challenge, now: nat)
    requires Forward(ops, 0) && Finish(ops, 0) <= now
    ensures PendingLive(After(cfg, ops), c.nonce, c, now) <==>
            now < c.expiresAt && exists i :: Origin(cfg, ops, i, c)
    decreases |ops|
  {
    if ops != [] {
      var before, op := ops[..|ops| - 1], ops[|ops| - 1];
      assert ops == before + [op];
      ForwardSnoc(before, op, 0);
      PendingIff(cfg, before, c, now);
      RunSnoc(map[], cfg, before, op);
      StepHolds(After(cfg, before), cfg, op, c.nonce, c, now);
      OriginSnoc(cfg, before, op, c);
    }
  }

  /** Every pending challenge sits under its own nonce. */
  lemma {:induction false} OwnNonce(cfg: Config, ops: seq<Op>)
    ensures forall n :: n in After(cfg, ops) ==> After(cfg, ops)[n].nonce == n
    decreases |ops|
  {
    if ops != [] {
      var before, op := ops[..|ops| - 1], ops[|ops| - 1];
      assert ops == before + [op];
      OwnNonce(cfg, before);
      RunSnoc(map[], cfg, before, op);
      StepOwn(After(cfg, before), cfg, op);
    }
  }

  lemma StepOwn(m: Pending, cfg: Config, op: Op)
    requires forall n :: n in m ==> m[n].nonce == n
    ensures var after := Step(m, cfg, op).1; forall n :: n in after ==> after[n].nonce == n
  {
    if op.DoCreate? {
      var room := MakeRoom(m, cfg.maxChallenges, op.sweepNow);
      assert forall n :: n in room ==> n in m && room[n] == m[n];
    }
  }

  /**
   Over any forward run, a nonce validates to exactly the challenge issued under it, with the message
   built when it was issued: one still in time that no later operation used, replaced or evicted.
   */
  lemma ValidatesIff(cfg: Config, ops: seq<Op>, nonce: string, now: nat, c: Challenge)
    requires Forward(ops + [DoValidate(nonce, now)], 0)
    ensures var outcomes := Run(map[], cfg, ops + [DoValidate(nonce, now)]).0;
            && outcomes != []
            && (outcomes[|outcomes| - 1] == Validated(Some(c)) <==>
                c.nonce == nonce && now < c.expiresAt && exists i :: Origin(cfg, ops, i, c))
  {
    ForwardSnoc(ops, DoValidate(nonce, now), 0);
    RunSnoc(map[], cfg, ops, DoValidate(nonce, now));
    OwnNonce(cfg, ops);
    PendingIff(cfg, ops, c, now);
  }
}

/** The challenge store with its map updated in place. */
module ChallengeStore {
  import opened Wrappers
  import opened Ranking
  import opened Challenges

  class Issuer {
    var challenges: Pending
    const cfg: Config

    constructor (cfg: Config)
      ensures challenges == map[] && this.cfg == cfg
    {
      challenges := map[];
      this.cfg := cfg;
    }

    method CleanupExpired(now: nat)
      modifies this
      ensures challenges == Live(old(challenges), now)
    {
      challenges := map n | n in challenges && challenges[n].expiresAt > now :: challenges[n];
    }

    method EvictFirst()
      modifies this
      ensures challenges == EvictOldest(old(challenges))
    {
      if challenges != map[] {
        ExpiriesNonEmpty(challenges);
        var victim := FindFirst(map n | n in challenges :: challenges[n].expiresAt);
        assert Expiries(challenges) == map n | n in challenges :: challenges[n].expiresAt;
        challenges := challenges - {victim};
      }
    }

    method Create(did: string, nonce: string, sweepNow: nat, now: nat) returns (r: Result<Challenge, ChallengeError>)
      modifies this
      ensures (r, challenges) == Challenges.Create(old(challenges), cfg, did, nonce, sweepNow, now)
      ensures |old(challenges)| <= Cap(cfg) ==> |challenges| <= Cap(cfg)
    {
      if |challenges| <= Cap(cfg) {
        CreateBounded(challenges, cfg, did, nonce, sweepNow, now);
      }
      if !cfg.wellFormed(did) {
        return Err(MalformedDid);
      }
      if |challenges| >= cfg.maxChallenges {
        CleanupExpired(sweepNow);
        if |challenges| >= cfg.maxChallenges {
          EvictFirst();
        }
      }
      var text := cfg.message(did, nonce, now, now + cfg.ttl);
      if text.None? {
        return Err(MalformedDid);
      }
      var c := Challenge(did, nonce, text.value, now + cfg.ttl);
      challenges := challenges[nonce := c];
      return Ok(c);
    }

    method Validate(nonce: string, now: nat) returns (r: Result<Challenge, ChallengeError>)
      modifies this
      ensures (r, challenges) == Challenges.Validate(old(challenges), nonce, now)
    {
      if nonce !in challenges {
        return Err(ChallengeNotFound);
      }
      var c := challenges[nonce];
      challenges := challenges - {nonce};
      if now >= c.expiresAt {
        return Err(ChallengeExpired);
      }
      return Ok(c);
    }
  }
}
