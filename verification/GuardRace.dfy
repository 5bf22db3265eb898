/**
 Concurrent presentations at one replay guard, as a step relation. Each step is one operation on the
 shared map or one clock read; presentations, sweeps and the clock interleave freely. A presentation
 works with the clock it read when it arrived.
 */
module GuardRace {
  import opened Wrappers
  import opened ReplayGuard
  import Ranking

  /** Where a `check_and_record_at` call stands. */
  datatype Stage = Arrived | Absent | Full | Purged | Overfull | Ready | Accepted | Refused

  datatype Call = Call(nonce: string, expires: int, now: int, stage: Stage)

  /** `admitted` is a history: every (nonce, expires) pair ever recorded. */
  datatype State = State(clock: int, seen: map<string, int>, calls: map<nat, Call>, admitted: seq<(string, int)>)

  datatype Event =
    | Tick(clock: int)
    | Arrive(pid: nat, nonce: string, expires: int)
    | LookUp(pid: nat)
    | Measure(pid: nat)
    | Purge(pid: nat)
    | MeasureAgain(pid: nat)
    | Evict(pid: nat, victim: string)
    | Record(pid: nat)
    | Sweep(nonces: set<string>)

  predicate At(s: State, pid: nat, stage: Stage) {
    pid in s.calls && s.calls[pid].stage == stage
  }

  function Move(s: State, pid: nat, stage: Stage): State
    requires pid in s.calls
  {
    s.(calls := s.calls[pid := s.calls[pid].(stage := stage)])
  }

  /** The state after an event, if the event can happen. */
  function Apply(capacity: nat, s: State, e: Event): Option<State> {
    match e
    case Tick(clock) => if s.clock <= clock then Some(s.(clock := clock)) else None
    case Arrive(pid, nonce, expires) =>
      if pid in s.calls || expires <= s.clock then None
      else Some(s.(calls := s.calls[pid := Call(nonce, expires, s.clock, Arrived)]))
    case LookUp(pid) =>
      if !At(s, pid, Arrived) then None
      else Some(Move(s, pid, if s.calls[pid].nonce in s.seen then Refused else Absent))
    case Measure(pid) =>
      if !At(s, pid, Absent) then None else Some(Move(s, pid, if |s.seen| >= capacity then Full else Ready))
    case Purge(pid) =>
      if !At(s, pid, Full) then None else Some(Move(s, pid, Purged).(seen := Live(s.seen, s.calls[pid].now)))
    case MeasureAgain(pid) =>
      if !At(s, pid, Purged) then None else Some(Move(s, pid, if |s.seen| >= capacity then Overfull else Ready))
    case Evict(pid, victim) =>
      if !At(s, pid, Overfull) then None else Some(Move(s, pid, Ready).(seen := s.seen - {victim}))
    case Record(pid) => ApplyRecord(s, pid)
    case Sweep(nonces) =>
      if exists n :: n in nonces && n in s.seen && s.seen[n] > s.clock then None
      else Some(s.(seen := s.seen - nonces))
  }

  /** The entry lock: looking the nonce up again and inserting it is one step. */
  function ApplyRecord(s: State, pid: nat): Option<State> {
    if !At(s, pid, Ready) then None else
    var c := s.calls[pid];
    if c.nonce in s.seen then Some(Move(s, pid, Refused))
    else Some(Move(s, pid, Accepted).(seen := s.seen[c.nonce := c.expires],
                                      admitted := s.admitted + [(c.nonce, c.expires)]))
  }

  const INITIAL := State(0, map[], map[], [])

  /** The state some events lead to. */
  function From(capacity: nat, start: State, events: seq<Event>): Option<State> {
    if events == [] then Some(start)
    else
      match From(capacity, start, events[..|events| - 1])
      case None => None
      case Some(s) => Apply(capacity, s, events[|events| - 1])
  }

  function Reach(capacity: nat, events: seq<Event>): Option<State> {
    From(capacity, INITIAL, events)
  }

  // What may have to hold at every step of a run.

  /** A call records before its own signature expires. */
  predicate Prompt(s: State, e: Event) {
    e.Record? && At(s, e.pid, Ready) ==> s.clock < s.calls[e.pid].expires
  }

  /** A call that measures again after purging finds the unexpired nonces below the capacity. */
  ghost predicate Roomy(capacity: nat, s: State, e: Event) {
    e.MeasureAgain? && At(s, e.pid, Purged) ==> |Unexpired(s.admitted, s.calls[e.pid].now)| < capacity
  }

  /** Only an expired entry is evicted. */
  predicate SparesLive(s: State, e: Event) {
    e.Evict? && e.victim in s.seen ==> s.seen[e.victim] <= s.clock
  }

  ghost predicate Throughout(capacity: nat, events: seq<Event>, ok: (State, Event) -> bool) {
    events != [] ==>
      && Throughout(capacity, events[..|events| - 1], ok)
      && (Reach(capacity, events[..|events| - 1]).Some? ==>
            ok(Reach(capacity, events[..|events| - 1]).value, events[|events| - 1]))
  }

  ghost predicate RoomThroughout(capacity: nat, events: seq<Event>) {
    Throughout(capacity, events, (s, e) => Roomy(capacity, s, e))
  }

  // The invariant.

  /** Every admitted pair that has not expired is in the map, and nothing else ever was. */
  ghost predicate Remembers(s: State) {
    && (forall i :: 0 <= i < |s.admitted| && s.admitted[i].1 > s.clock ==>
          s.admitted[i].0 in s.seen && s.seen[s.admitted[i].0] == s.admitted[i].1)
    && (forall n :: n in s.seen ==> (n, s.seen[n]) in s.admitted)
  }

  predicate CallOk(s: State, c: Call) {
    && c.now <= s.clock
    && (c.stage == Purged ==> forall n :: n in s.seen ==> s.seen[n] > c.now)
  }

  ghost predicate Inv(s: State) {
    Remembers(s) && Distinct(s.admitted) && forall pid :: pid in s.calls ==> CallOk(s, s.calls[pid])
  }

  /** Removing entries that have expired, and nothing else, keeps the invariant. */
  lemma ShrinkKeeps(s: State, after: State)
    requires Inv(s) && after.clock == s.clock && after.admitted == s.admitted && after.calls == s.calls
    requires forall n :: n in after.seen ==> n in s.seen && after.seen[n] == s.seen[n]
    requires forall n :: n in s.seen && n !in after.seen ==> s.seen[n] <= s.clock
    ensures Inv(after)
  {
    forall pid | pid in after.calls ensures CallOk(after, after.calls[pid]) {
      assert CallOk(s, s.calls[pid]);
    }
  }

  /** A call moving on keeps the invariant if its new stage is in order. */
  lemma MoveKeeps(s: State, pid: nat, stage: Stage)
    requires Inv(s) && pid in s.calls && CallOk(s, s.calls[pid].(stage := stage))
    ensures Inv(Move(s, pid, stage))
  {
    var after := Move(s, pid, stage);
    forall a | a in after.calls ensures CallOk(after, after.calls[a]) {
      assert a != pid ==> CallOk(s, s.calls[a]);
    }
  }

  lemma PurgeKeeps(s: State, pid: nat)
    requires Inv(s) && At(s, pid, Full)
    ensures Inv(Move(s, pid, Purged).(seen := Live(s.seen, s.calls[pid].now)))
  {
    var now := s.calls[pid].now;
    assert CallOk(s, s.calls[pid]);
    var swept := s.(seen := Live(s.seen, now));
    ShrinkKeeps(s, swept);
    MoveKeeps(swept, pid, Purged);
    assert Move(swept, pid, Purged) == Move(s, pid, Purged).(seen := Live(s.seen, now));
  }

  /** After a purge everything in the map is unexpired, so with room the second measurement passes. */
  lemma RoomFound(capacity: nat, s: State, pid: nat)
    requires Inv(s) && At(s, pid, Purged) && |Unexpired(s.admitted, s.calls[pid].now)| < capacity
    ensures |s.seen| < capacity
  {
    var now := s.calls[pid].now;
    assert CallOk(s, s.calls[pid]);
    forall n | n in s.seen ensures n in Unexpired(s.admitted, now) {
      var i :| 0 <= i < |s.admitted| && s.admitted[i] == (n, s.seen[n]);
    }
    Ranking.Fewer(s.seen.Keys, Unexpired(s.admitted, now));
  }

  lemma RecordRemembers(s: State, nonce: string, expires: int)
    requires Remembers(s) && Distinct(s.admitted) && nonce !in s.seen && s.clock < expires
    ensures var after := s.(seen := s.seen[nonce := expires], admitted := s.admitted + [(nonce, expires)]);
            Remembers(after) && Distinct(after.admitted)
  {
    Append(s.admitted, (nonce, expires));
  }

  lemma RecordKeeps(s: State, pid: nat)
    requires Inv(s) && ApplyRecord(s, pid).Some? && s.clock < s.calls[pid].expires
    ensures Inv(ApplyRecord(s, pid).value)
  {
    var c := s.calls[pid];
    assert CallOk(s, c);
    if c.nonce in s.seen {
      MoveKeeps(s, pid, Refused);
    } else {
      RecordRemembers(s, c.nonce, c.expires);
      MoveKeeps(s, pid, Accepted);
      RecordCalls(Move(s, pid, Accepted), ApplyRecord(s, pid).value, c.nonce, c.expires);
    }
  }

  lemma RecordCalls(s: State, after: State, nonce: string, expires: int)
    requires forall pid :: pid in s.calls ==> CallOk(s, s.calls[pid])
    requires after.calls == s.calls && after.clock == s.clock < expires && after.seen == s.seen[nonce := expires]
    ensures forall pid :: pid in after.calls ==> CallOk(after, after.calls[pid])
  {
    forall pid | pid in after.calls ensures CallOk(after, after.calls[pid]) {
      assert CallOk(s, s.calls[pid]);
    }
  }

  lemma TickKeeps(s: State, clock: int)
    requires Inv(s) && s.clock <= clock
    ensures Inv(s.(clock := clock))
  {
    var after := s.(clock := clock);
    forall pid | pid in after.calls ensures CallOk(after, after.calls[pid]) {
      assert CallOk(s, s.calls[pid]);
    }
  }

  lemma ArriveKeeps(s: State, pid: nat, nonce: string, expires: int)
    requires Inv(s) && pid !in s.calls
    ensures Inv(s.(calls := s.calls[pid := Call(nonce, expires, s.clock, Arrived)]))
  {
    var after := s.(calls := s.calls[pid := Call(nonce, expires, s.clock, Arrived)]);
    forall a | a in after.calls ensures CallOk(after, after.calls[a]) {
      assert a != pid ==> CallOk(s, s.calls[a]);
    }
  }

  lemma EvictKeeps(s: State, pid: nat, victim: string)
    requires Inv(s) && At(s, pid, Overfull) && SparesLive(s, Evict(pid, victim))
    ensures Inv(Move(s, pid, Ready).(seen := s.seen - {victim}))
  {
    var shrunk := s.(seen := s.seen - {victim});
    ShrinkKeeps(s, shrunk);
    assert CallOk(s, s.calls[pid]);
    MoveKeeps(shrunk, pid, Ready);
    assert Move(shrunk, pid, Ready) == Move(s, pid, Ready).(seen := s.seen - {victim});
  }

  /** Every step at which calls are prompt and live entries spared keeps the invariant. */
  lemma StepKeeps(capacity: nat, s: State, e: Event)
    requires Inv(s) && Apply(capacity, s, e).Some? && Prompt(s, e) && SparesLive(s, e)
    ensures Inv(Apply(capacity, s, e).value)
  {
    match e
    case Tick(clock) => TickKeeps(s, clock);
    case Arrive(pid, nonce, expires) => ArriveKeeps(s, pid, nonce, expires);
    case LookUp(pid) => NextKeeps(capacity, s, pid, e);
    case Measure(pid) => NextKeeps(capacity, s, pid, e);
    case Purge(pid) => PurgeKeeps(s, pid);
    case MeasureAgain(pid) => NextKeeps(capacity, s, pid, e);
    case Evict(pid, victim) => EvictKeeps(s, pid, victim);
    case Record(pid) => RecordKeeps(s, pid);
    case Sweep(nonces) => ShrinkKeeps(s, s.(seen := s.seen - nonces));
  }

  /** Steps that only move one call on. */
  lemma NextKeeps(capacity: nat, s: State, pid: nat, e: Event)
    requires Inv(s) && Apply(capacity, s, e).Some?
    requires e == LookUp(pid) || e == Measure(pid) || e == MeasureAgain(pid)
    ensures Inv(Apply(capacity, s, e).value)
  {
    assert CallOk(s, s.calls[pid]);
    MoveKeeps(s, pid, Apply(capacity, s, e).value.calls[pid].stage);
  }

  lemma {:induction false} ReachKeeps(capacity: nat, events: seq<Event>)
    requires Reach(capacity, events).Some?
    requires Throughout(capacity, events, Prompt) && Throughout(capacity, events, SparesLive)
    ensures Inv(Reach(capacity, events).value)
  {
    if events != [] {
      ReachKeeps(capacity, events[..|events| - 1]);
      StepKeeps(capacity, Reach(capacity, events[..|events| - 1]).value, events[|events| - 1]);
    }
  }

  // With room nothing live is evicted.

  predicate NoneOverfull(s: State) {
    forall pid :: pid in s.calls ==> s.calls[pid].stage != Overfull
  }

  lemma NoneOverfullKeeps(capacity: nat, s: State, e: Event)
    requires Inv(s) && NoneOverfull(s) && Apply(capacity, s, e).Some? && Roomy(capacity, s, e)
    ensures !e.Evict? && NoneOverfull(Apply(capacity, s, e).value)
  {
    if e.MeasureAgain? {
      RoomFound(capacity, s, e.pid);
    }
  }

  lemma {:induction false} RoomSparesLive(capacity: nat, events: seq<Event>)
    requires Reach(capacity, events).Some?
    requires Throughout(capacity, events, Prompt) && RoomThroughout(capacity, events)
    ensures Throughout(capacity, events, SparesLive) && NoneOverfull(Reach(capacity, events).value)
  {
    if events != [] {
      var before := events[..|events| - 1];
      RoomSparesLive(capacity, before);
      ReachKeeps(capacity, before);
      NoneOverfullKeeps(capacity, Reach(capacity, before).value, events[|events| - 1]);
    }
  }

  /**
   In every interleaving of prompt presentations with room for the unexpired nonces no
   (nonce, expires) pair is admitted twice, although several calls may find the nonce absent.
   */
  lemma NeverAdmittedTwice(capacity: nat, events: seq<Event>)
    requires Reach(capacity, events).Some?
    requires Throughout(capacity, events, Prompt) && RoomThroughout(capacity, events)
    ensures Distinct(Reach(capacity, events).value.admitted)
  {
    RoomSparesLive(capacity, events);
    ReachKeeps(capacity, events);
  }

  // How far the two conditions are needed.

  /** A request admitted before and still in time is refused if it is presented at once, alone. */
  ghost predicate RefusesRepeats(capacity: nat, s: State)
    requires capacity > 0
  {
    forall i :: 0 <= i < |s.admitted| && s.admitted[i].1 > s.clock ==>
      ReplayGuard.Record(s.seen, capacity, s.admitted[i].0, s.admitted[i].1, s.clock).0.Err?
  }

  ghost predicate RefusesThroughout(capacity: nat, events: seq<Event>)
    requires capacity > 0
  {
    && (events != [] ==> RefusesThroughout(capacity, events[..|events| - 1]))
    && (Reach(capacity, events).Some? ==> RefusesRepeats(capacity, Reach(capacity, events).value))
  }

  lemma EvictedForgotten(capacity: nat, s: State, e: Event)
    requires 0 < capacity && Inv(s) && Apply(capacity, s, e).Some? && !SparesLive(s, e)
    ensures !RefusesRepeats(capacity, Apply(capacity, s, e).value)
  {
    var after := Apply(capacity, s, e).value;
    var i :| 0 <= i < |s.admitted| && s.admitted[i] == (e.victim, s.seen[e.victim]);
    assert after.admitted[i].0 !in after.seen;
  }

  /**
   The bound is exact at every capacity: among prompt runs, live entries are spared throughout if and
   only if after no step an admitted request that is presented at once, alone, is admitted again.
   */
  lemma {:induction false} SparesLiveIff(capacity: nat, events: seq<Event>)
    requires 0 < capacity && Reach(capacity, events).Some? && Throughout(capacity, events, Prompt)
    ensures Throughout(capacity, events, SparesLive) <==> RefusesThroughout(capacity, events)
  {
    if events != [] {
      var before, e := events[..|events| - 1], events[|events| - 1];
      SparesLiveIff(capacity, before);
      if Throughout(capacity, before, SparesLive) {
        ReachKeeps(capacity, before);
        if SparesLive(Reach(capacity, before).value, e) {
          ReachKeeps(capacity, events);
        } else {
          EvictedForgotten(capacity, Reach(capacity, before).value, e);
        }
      }
    }
  }

  lemma FromAppend(capacity: nat, start: State, events: seq<Event>, e: Event)
    requires From(capacity, start, events).Some?
    ensures From(capacity, start, events + [e]) == Apply(capacity, From(capacity, start, events).value, e)
  {
    var all := events + [e];
    assert all[..|all| - 1] == events && all[|all| - 1] == e;
  }

  /** A call alone at the guard: the steps it takes, given the memory it finds. */
  ghost function Alone(capacity: nat, s: State, pid: nat, nonce: string, expires: int): seq<Event>
    requires capacity > 0
  {
    var asked := [Arrive(pid, nonce, expires)] + [LookUp(pid)];
    if nonce in s.seen then asked
    else if |s.seen| < capacity then asked + [Measure(pid)] + [Record(pid)]
    else
      var purged := asked + [Measure(pid)] + [Purge(pid)] + [MeasureAgain(pid)];
      if |Live(s.seen, s.clock)| < capacity then purged + [Record(pid)]
      else
        purged + [Evict(pid, Ranking.First(Live(s.seen, s.clock)))] + [Record(pid)]
  }

  /** The state with one more call. */
  function With(s: State, pid: nat, nonce: string, expires: int, stage: Stage): State {
    s.(calls := s.calls[pid := Call(nonce, expires, s.clock, stage)])
  }

  lemma WithMoves(s: State, pid: nat, nonce: string, expires: int, stage: Stage, next: Stage)
    ensures Move(With(s, pid, nonce, expires, stage), pid, next) == With(s, pid, nonce, expires, next)
  {
  }

  lemma AloneAsks(capacity: nat, s: State, pid: nat, nonce: string, expires: int)
    requires 0 < capacity && pid !in s.calls && s.clock < expires
    ensures From(capacity, s, [Arrive(pid, nonce, expires)] + [LookUp(pid)]) ==
            Some(With(s, pid, nonce, expires, if nonce in s.seen then Refused else Absent))
  {
    var arrive: seq<Event> := [Arrive(pid, nonce, expires)];
    assert [] + arrive == arrive;
    FromAppend(capacity, s, [], Arrive(pid, nonce, expires));
    FromAppend(capacity, s, arrive, LookUp(pid));
    WithMoves(s, pid, nonce, expires, Arrived, if nonce in s.seen then Refused else Absent);
  }

  lemma AlonePurges(capacity: nat, s: State, pid: nat, nonce: string, expires: int, asked: seq<Event>)
    requires 0 < capacity <= |s.seen|
    requires From(capacity, s, asked) == Some(With(s, pid, nonce, expires, Absent))
    ensures From(capacity, s, asked + [Measure(pid)] + [Purge(pid)] + [MeasureAgain(pid)]) ==
            Some(With(s.(seen := Live(s.seen, s.clock)), pid, nonce, expires,
                      if |Live(s.seen, s.clock)| < capacity then Ready else Overfull))
  {
    var live := s.(seen := Live(s.seen, s.clock));
    FromAppend(capacity, s, asked, Measure(pid));
    WithMoves(s, pid, nonce, expires, Absent, Full);
    FromAppend(capacity, s, asked + [Measure(pid)], Purge(pid));
    WithMoves(s, pid, nonce, expires, Full, Purged);
    assert With(s, pid, nonce, expires, Purged).(seen := live.seen) == With(live, pid, nonce, expires, Purged);
    FromAppend(capacity, s, asked + [Measure(pid)] + [Purge(pid)], MeasureAgain(pid));
    WithMoves(live, pid, nonce, expires, Purged, if |live.seen| < capacity then Ready else Overfull);
  }

  lemma AloneRecords(capacity: nat, s: State, room: State, pid: nat, nonce: string, expires: int, ready: seq<Event>)
    requires From(capacity, s, ready) == Some(With(room, pid, nonce, expires, Ready)) && nonce !in room.seen
    ensures From(capacity, s, ready + [Record(pid)]) ==
            Some(With(room, pid, nonce, expires, Accepted).(
                   seen := room.seen[nonce := expires], admitted := room.admitted + [(nonce, expires)]))
  {
    FromAppend(capacity, s, ready, Record(pid));
    WithMoves(room, pid, nonce, expires, Ready, Accepted);
  }

  /** Nothing interleaved, the steps of a call are the guard's `CheckAndRecordAt`. */
  lemma AloneIsRecord(capacity: nat, s: State, pid: nat, nonce: string, expires: int)
    requires 0 < capacity && pid !in s.calls && s.clock < expires
    ensures var r := From(capacity, s, Alone(capacity, s, pid, nonce, expires));
            && r.Some? && pid in r.value.calls
            && r.value.seen == ReplayGuard.Record(s.seen, capacity, nonce, expires, s.clock).1
            && r.value.calls[pid].stage ==
                 (if ReplayGuard.Record(s.seen, capacity, nonce, expires, s.clock).0.Ok? then Accepted else Refused)
  {
    var asked := [Arrive(pid, nonce, expires)] + [LookUp(pid)];
    AloneAsks(capacity, s, pid, nonce, expires);
    if nonce !in s.seen {
      if |s.seen| < capacity {
        FromAppend(capacity, s, asked, Measure(pid));
        WithMoves(s, pid, nonce, expires, Absent, Ready);
        AloneRecords(capacity, s, s, pid, nonce, expires, asked + [Measure(pid)]);
      } else {
        AlonePurges(capacity, s, pid, nonce, expires, asked);
        AloneMakesRoom(capacity, s, pid, nonce, expires, asked + [Measure(pid)] + [Purge(pid)] + [MeasureAgain(pid)]);
      }
    }
  }

  lemma AloneMakesRoom(capacity: nat, s: State, pid: nat, nonce: string, expires: int, purged: seq<Event>)
    requires 0 < capacity <= |s.seen| && nonce !in s.seen
    requires From(capacity, s, purged) ==
             Some(With(s.(seen := Live(s.seen, s.clock)), pid, nonce, expires,
                       if |Live(s.seen, s.clock)| < capacity then Ready else Overfull))
    ensures var live := Live(s.seen, s.clock);
            var r := From(capacity, s, if |live| < capacity then purged + [Record(pid)]
                                       else purged + [Evict(pid, Ranking.First(live))] + [Record(pid)]);
            && r.Some? && pid in r.value.calls && r.value.calls[pid].stage == Accepted
            && r.value.seen == MakeRoom(s.seen, capacity, s.clock)[nonce := expires]
  {
    var live := s.(seen := Live(s.seen, s.clock));
    if |live.seen| < capacity {
      AloneRecords(capacity, s, live, pid, nonce, expires, purged);
    } else {
      var victim := Ranking.First(live.seen);
      var room := live.(seen := live.seen - {victim});
      FromAppend(capacity, s, purged, Evict(pid, victim));
      WithMoves(live, pid, nonce, expires, Overfull, Ready);
      assert With(live, pid, nonce, expires, Ready).(seen := room.seen) == With(room, pid, nonce, expires, Ready);
      AloneRecords(capacity, s, room, pid, nonce, expires, purged + [Evict(pid, victim)]);
    }
  }

  /** A call that has still to record waits until `clock`, some entries are swept, and it records. */
  function Late(capacity: nat, s: State, pid: nat, clock: int, nonces: set<string>): Option<State> {
    From(capacity, s, [Tick(clock)] + [Sweep(nonces)] + [Record(pid)])
  }

  /**
   A waiting call whose request was admitted by another can be admitted too exactly when it waits
   until neither its own signature nor the entry under its nonce is live.
   */
  lemma LateIff(capacity: nat, s: State, pid: nat, clock: int)
    requires Inv(s) && At(s, pid, Ready) && s.clock <= clock
    requires (s.calls[pid].nonce, s.calls[pid].expires) in s.admitted
    ensures var c := s.calls[pid];
            (exists nonces :: Late(capacity, s, pid, clock, nonces).Some? &&
                              Late(capacity, s, pid, clock, nonces).value.calls[pid].stage == Accepted)
              <==> c.expires <= clock && (c.nonce in s.seen ==> s.seen[c.nonce] <= clock)
  {
    var c := s.calls[pid];
    if c.expires <= clock && (c.nonce in s.seen ==> s.seen[c.nonce] <= clock) {
      LateStep(capacity, s, pid, clock, {c.nonce});
    }
    forall nonces | Late(capacity, s, pid, clock, nonces).Some? &&
                    Late(capacity, s, pid, clock, nonces).value.calls[pid].stage == Accepted
      ensures c.expires <= clock && (c.nonce in s.seen ==> s.seen[c.nonce] <= clock)
    {
      LateStep(capacity, s, pid, clock, nonces);
    }
  }

  lemma LateStep(capacity: nat, s: State, pid: nat, clock: int, nonces: set<string>)
    requires At(s, pid, Ready) && s.clock <= clock
    ensures var r := Late(capacity, s, pid, clock, nonces);
            && r.Some? == (forall n :: n in nonces && n in s.seen ==> s.seen[n] <= clock)
            && (r.Some? ==> r == ApplyRecord(s.(clock := clock, seen := s.seen - nonces), pid))
  {
    var tick: seq<Event> := [Tick(clock)];
    assert [] + tick == tick;
    FromAppend(capacity, s, [], Tick(clock));
    FromAppend(capacity, s, tick, Sweep(nonces));
    var all := tick + [Sweep(nonces)] + [Record(pid)];
    assert all[..|all| - 1] == tick + [Sweep(nonces)] && all[|all| - 1] == Record(pid);
  }

  // Runs in which a request is admitted twice.

  /** Two calls for one nonce, at these stages. */
  function Twins(nonce: string, expires: int, seen: map<string, int>, first: Stage, second: Stage,
                 admitted: seq<(string, int)>): State
  {
    State(0, seen, map[1 := Call(nonce, expires, 0, first), 2 := Call(nonce, expires, 0, second)], admitted)
  }

  lemma TwinMoves(nonce: string, expires: int, seen: map<string, int>, first: Stage, second: Stage,
                  admitted: seq<(string, int)>, stage: Stage)
    ensures Move(Twins(nonce, expires, seen, first, second, admitted), 1, stage) ==
            Twins(nonce, expires, seen, stage, second, admitted)
    ensures Move(Twins(nonce, expires, seen, first, second, admitted), 2, stage) ==
            Twins(nonce, expires, seen, first, stage, admitted)
  {
  }

  function TwinArrivals(nonce: string, expires: int): seq<Event> {
    [Arrive(1, nonce, expires), Arrive(2, nonce, expires)]
  }

  lemma TwinsArrive(capacity: nat, nonce: string, expires: int)
    requires 0 < expires
    ensures Reach(capacity, TwinArrivals(nonce, expires)) == Some(Twins(nonce, expires, map[], Arrived, Arrived, []))
  {
    var e1: seq<Event> := [Arrive(1, nonce, expires)];
    assert [] + e1 == e1 && e1 + [Arrive(2, nonce, expires)] == TwinArrivals(nonce, expires);
    FromAppend(capacity, INITIAL, [], Arrive(1, nonce, expires));
    FromAppend(capacity, INITIAL, e1, Arrive(2, nonce, expires));
  }

  /** Both find the nonce absent; the first is admitted. */
  function TwinEvents(nonce: string, expires: int): seq<Event> {
    TwinArrivals(nonce, expires) + [LookUp(1)] + [LookUp(2)] + [Measure(1)] + [Record(1)]
  }

  lemma FirstAdmitted(capacity: nat, nonce: string, expires: int)
    requires 0 < capacity && 0 < expires
    ensures Reach(capacity, TwinEvents(nonce, expires)) ==
            Some(Twins(nonce, expires, map[nonce := expires], Accepted, Absent, [(nonce, expires)]))
  {
    var e0 := TwinArrivals(nonce, expires);
    TwinsArrive(capacity, nonce, expires);
    TwinMoves(nonce, expires, map[], Arrived, Arrived, [], Absent);
    TwinMoves(nonce, expires, map[], Absent, Arrived, [], Absent);
    TwinMoves(nonce, expires, map[], Absent, Absent, [], Ready);
    TwinMoves(nonce, expires, map[], Ready, Absent, [], Accepted);
    assert [] + [(nonce, expires)] == [(nonce, expires)] && map[][nonce := expires] == map[nonce := expires];
    FromAppend(capacity, INITIAL, e0, LookUp(1));
    FromAppend(capacity, INITIAL, e0 + [LookUp(1)], LookUp(2));
    FromAppend(capacity, INITIAL, e0 + [LookUp(1)] + [LookUp(2)], Measure(1));
    FromAppend(capacity, INITIAL, e0 + [LookUp(1)] + [LookUp(2)] + [Measure(1)], Record(1));
  }

  /** With no room to spare the second call evicts the entry of the first and is admitted as well. */
  lemma TwinEvicts(nonce: string, expires: int)
    requires 0 < expires
    ensures var events := TwinEvents(nonce, expires) + [Measure(2)] + [Purge(2)] + [MeasureAgain(2)] +
                          [Evict(2, nonce)] + [Record(2)];
            Reach(1, events).Some? && Reach(1, events).value.admitted == [(nonce, expires), (nonce, expires)]
  {
    var e0 := TwinEvents(nonce, expires);
    FirstAdmitted(1, nonce, expires);
    OverfullTwin(nonce, expires, e0);
    AdmittedTwin(nonce, expires, e0 + [Measure(2)] + [Purge(2)] + [MeasureAgain(2)]);
  }

  lemma AdmittedTwin(nonce: string, expires: int, e3: seq<Event>)
    requires Reach(1, e3) == Some(Twins(nonce, expires, map[nonce := expires], Accepted, Overfull, [(nonce, expires)]))
    ensures var r := Reach(1, e3 + [Evict(2, nonce)] + [Record(2)]);
            r.Some? && r.value.admitted == [(nonce, expires), (nonce, expires)]
  {
    TwinMoves(nonce, expires, map[nonce := expires], Accepted, Overfull, [(nonce, expires)], Ready);
    assert map[nonce := expires] - {nonce} == map[];
    FromAppend(1, INITIAL, e3, Evict(2, nonce));
    FromAppend(1, INITIAL, e3 + [Evict(2, nonce)], Record(2));
    assert [(nonce, expires)] + [(nonce, expires)] == [(nonce, expires), (nonce, expires)];
  }

  lemma OverfullTwin(nonce: string, expires: int, e0: seq<Event>)
    requires 0 < expires
    requires Reach(1, e0) == Some(Twins(nonce, expires, map[nonce := expires], Accepted, Absent, [(nonce, expires)]))
    ensures Reach(1, e0 + [Measure(2)] + [Purge(2)] + [MeasureAgain(2)]) ==
            Some(Twins(nonce, expires, map[nonce := expires], Accepted, Overfull, [(nonce, expires)]))
  {
    var seen := map[nonce := expires];
    assert Live(seen, 0) == seen && |seen| == 1;
    TwinMoves(nonce, expires, seen, Accepted, Absent, [(nonce, expires)], Full);
    TwinMoves(nonce, expires, seen, Accepted, Full, [(nonce, expires)], Purged);
    TwinMoves(nonce, expires, seen, Accepted, Purged, [(nonce, expires)], Overfull);
    FromAppend(1, INITIAL, e0, Measure(2));
    FromAppend(1, INITIAL, e0 + [Measure(2)], Purge(2));
    FromAppend(1, INITIAL, e0 + [Measure(2)] + [Purge(2)], MeasureAgain(2));
  }

  /** At any capacity above one a call that stalls past the expiry is admitted after a sweep. */
  lemma TwinStalls(capacity: nat, nonce: string, expires: int)
    requires 1 < capacity && 0 < expires
    ensures var events := TwinEvents(nonce, expires) + [Measure(2)] + [Tick(expires)] + [Sweep({nonce})] + [Record(2)];
            Reach(capacity, events).Some? &&
            Reach(capacity, events).value.admitted == [(nonce, expires), (nonce, expires)]
  {
    var e0 := TwinEvents(nonce, expires);
    FirstAdmitted(capacity, nonce, expires);
    TwinMoves(nonce, expires, map[nonce := expires], Accepted, Absent, [(nonce, expires)], Ready);
    FromAppend(capacity, INITIAL, e0, Measure(2));
    StalledTwin(capacity, nonce, expires, e0 + [Measure(2)]);
  }

  lemma StalledTwin(capacity: nat, nonce: string, expires: int, e1: seq<Event>)
    requires 0 < expires
    requires Reach(capacity, e1) ==
             Some(Twins(nonce, expires, map[nonce := expires], Accepted, Ready, [(nonce, expires)]))
    ensures var r := Reach(capacity, e1 + [Tick(expires)] + [Sweep({nonce})] + [Record(2)]);
            r.Some? && r.value.admitted == [(nonce, expires), (nonce, expires)]
  {
    FromAppend(capacity, INITIAL, e1, Tick(expires));
    FromAppend(capacity, INITIAL, e1 + [Tick(expires)], Sweep({nonce}));
    FromAppend(capacity, INITIAL, e1 + [Tick(expires)] + [Sweep({nonce})], Record(2));
    assert [(nonce, expires)] + [(nonce, expires)] == [(nonce, expires), (nonce, expires)];
  }
}
