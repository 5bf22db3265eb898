/** Single use of signature nonces: the bounded memory a verifier keeps. */
module ReplayGuard {
  import opened Wrappers
  import opened HttpSigErrors
  import opened Ranking

  /** The entries whose signature has not expired; `expires` is exclusive. */
  function Live(seen: map<string, int>, now: int): map<string, int> {
    map n | n in seen && seen[n] > now :: seen[n]
  }

  /** Below capacity nothing goes; else what has expired goes; else the soonest to expire goes. */
  ghost function MakeRoom(seen: map<string, int>, capacity: nat, now: int): map<string, int>
    requires capacity > 0
  {
    if |seen| < capacity then seen
    else if |Live(seen, now)| < capacity then Live(seen, now)
    else
      Live(seen, now) - {First(Live(seen, now))}
  }

  /** The guard's answer and its memory afterwards. */
  ghost function Record(seen: map<string, int>, capacity: nat, nonce: string, expires: int, now: int)
    : (Result<(), HttpSigError>, map<string, int>)
    requires capacity > 0
  {
    if nonce in seen then (Err(NonceReplayed), seen)
    else (Ok(()), MakeRoom(seen, capacity, now)[nonce := expires])
  }

  class NonceReplayGuard {
    var seen: map<string, int>
    const capacity: nat

    constructor (cap: nat)
      ensures seen == map[] && capacity == if cap == 0 then 1 else cap
    {
      seen := map[];
      capacity := if cap == 0 then 1 else cap;
    }

    method CleanupExpiredAt(now: int)
      modifies this
      ensures seen == Live(old(seen), now)
    {
      seen := map n | n in seen && seen[n] > now :: seen[n];
    }

    method EvictSoonestExpiring()
      modifies this
      ensures old(seen) == map[] ==> seen == old(seen)
      ensures old(seen) != map[] ==> seen == old(seen) - {First(old(seen))}
    {
      if seen != map[] {
        var victim := FindFirst(seen);
        seen := seen - {victim};
      }
    }

    /** Replays are looked for before making room, so making room cannot forget the replay. */
    method CheckAndRecordAt(nonce: string, expires: int, now: int) returns (r: Result<(), HttpSigError>)
      requires capacity > 0
      modifies this
      ensures (r, seen) == Record(old(seen), capacity, nonce, expires, now)
    {
      if nonce in seen {
        return Err(NonceReplayed);
      }
      if |seen| >= capacity {
        CleanupExpiredAt(now);
        if |seen| >= capacity {
          EvictSoonestExpiring();
        }
      }
      seen := seen[nonce := expires];
      return Ok(());
    }
  }

  /** Nothing in the map expires earlier; ties go by nonce. */
  ghost predicate Soonest(seen: map<string, int>, n: string) {
    n in seen && forall k :: k in seen ==> seen[n] < seen[k] || (seen[n] == seen[k] && LexLe(n, k))
  }

  /** What is kept to make room: everything below capacity, else the live entries, but for one if those fill it. */
  lemma RoomExact(seen: map<string, int>, capacity: nat, now: int, n: string)
    requires capacity > 0
    ensures var room := MakeRoom(seen, capacity, now);
            && (n in room ==> n in seen && room[n] == seen[n])
            && (n in room <==>
                  n in seen &&
                  (|seen| < capacity ||
                   (seen[n] > now && (|Live(seen, now)| < capacity || !Soonest(Live(seen, now), n)))))
  {
    var live := Live(seen, now);
    if |live| >= capacity {
      SoonestIs(live, n);
    }
  }

  lemma SoonestIs(seen: map<string, int>, n: string)
    requires seen != map[]
    ensures First(seen) == n <==> Soonest(seen, n)
  {
    if Soonest(seen, n) {
      assert forall k :: k in seen ==> Before(seen, n, k);
      FirstUnique(seen, n, First(seen));
    }
  }

  lemma RoomBounded(seen: map<string, int>, capacity: nat, now: int)
    requires 0 < capacity && |seen| <= capacity
    ensures |MakeRoom(seen, capacity, now)| < capacity
    ensures MakeRoom(seen, capacity, now).Keys <= seen.Keys
  {
    var live := Live(seen, now);
    if |seen| >= capacity && |live| >= capacity {
      assert live.Keys <= seen.Keys;
      Fewer(live.Keys, seen.Keys);
      var v := First(live);
      assert (live - {v}).Keys == live.Keys - {v};
    }
  }

  /** The cap holds after every presentation. */
  lemma CapacityKept(seen: map<string, int>, capacity: nat, nonce: string, expires: int, now: int)
    requires 0 < capacity && |seen| <= capacity
    ensures |Record(seen, capacity, nonce, expires, now).1| <= capacity
  {
    if nonce !in seen {
      RoomBounded(seen, capacity, now);
      var room := MakeRoom(seen, capacity, now);
      assert room[nonce := expires].Keys == room.Keys + {nonce};
    }
  }

  /** When the unexpired entries leave a slot, making room drops only expired ones. */
  lemma RoomKeepsLive(seen: map<string, int>, capacity: nat, now: int)
    requires 0 < capacity && |Live(seen, now)| < capacity
    ensures forall n :: n in seen && seen[n] > now ==>
      n in MakeRoom(seen, capacity, now) && MakeRoom(seen, capacity, now)[n] == seen[n]
    ensures forall n :: n in MakeRoom(seen, capacity, now) ==>
      n in seen && MakeRoom(seen, capacity, now)[n] == seen[n]
  {
  }

  // Histories of (nonce, expires) pairs.

  /** The nonces of a history that have not expired at `now`. */
  ghost function Unexpired(accepted: seq<(string, int)>, now: int): set<string> {
    set i | 0 <= i < |accepted| && accepted[i].1 > now :: accepted[i].0
  }

  ghost predicate Distinct(accepted: seq<(string, int)>) {
    forall i, j :: 0 <= i < j < |accepted| ==> accepted[i] != accepted[j]
  }

  lemma Append<T>(s: seq<T>, x: T)
    ensures forall i :: 0 <= i < |s + [x]| ==> (s + [x])[i] == if i < |s| then s[i] else x
    ensures forall y :: y in s + [x] <==> y in s || y == x
  {
  }

  lemma DistinctAppend(accepted: seq<(string, int)>, pair: (string, int))
    requires Distinct(accepted) && pair !in accepted
    ensures Distinct(accepted + [pair])
  {
    Append(accepted, pair);
  }
}
