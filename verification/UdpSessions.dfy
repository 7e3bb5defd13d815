/** The table of live UDP sessions: what is admitted, what is dropped as idle, and how many fit. */
module UdpSessions {
  import opened Bytes

  datatype Key = Key(source: u64, targetService: u64, sourcePort: u16, targetPort: u16)
  datatype Session = Session(key: Key, lastSeen: u64)
  datatype Admission = Allow | RateLimit
  datatype Limits = Limits(maxSessions: u32, idleTimeout: u64)
  datatype Call = Call(key: Key, now: u64)

  /** The table seen as what it means: when each key was last heard. */
  type Heard = map<Key, u64>

  predicate Idle(limits: Limits, lastSeen: u64, now: u64) {
    now > lastSeen && now - lastSeen > limits.idleTimeout
  }

  ghost function Live(limits: Limits, heard: Heard, now: u64): Heard {
    map k | k in heard && !Idle(limits, heard[k], now) :: heard[k]
  }

  ghost function Decision(limits: Limits, heard: Heard, call: Call): Admission {
    var live := Live(limits, heard, call.now);
    if call.key in live || |live| < limits.maxSessions then Allow else RateLimit
  }

  ghost function After(limits: Limits, heard: Heard, call: Call): Heard {
    var live := Live(limits, heard, call.now);
    if Decision(limits, heard, call).Allow? then live[call.key := call.now] else live
  }

  // ---- the sequence that holds the table -----------------------------------------------------

  ghost predicate Distinct(sessions: seq<Session>) {
    forall i, j | 0 <= i < j < |sessions| :: sessions[i].key != sessions[j].key
  }

  ghost function Table(sessions: seq<Session>): Heard {
    if sessions == [] then map[]
    else
      var last := |sessions| - 1;
      Table(sessions[..last])[sessions[last].key := sessions[last].lastSeen]
  }

  lemma {:induction false} TableAt(sessions: seq<Session>, i: nat)
    requires Distinct(sessions) && i < |sessions|
    ensures sessions[i].key in Table(sessions) && Table(sessions)[sessions[i].key] == sessions[i].lastSeen
  {
    var last := |sessions| - 1;
    if i < last { TableAt(sessions[..last], i); }
  }

  lemma {:induction false} TableFrom(sessions: seq<Session>, key: Key) returns (i: nat)
    requires key in Table(sessions)
    ensures i < |sessions| && sessions[i].key == key
  {
    var last := |sessions| - 1;
    if sessions[last].key == key { return last; }
    i := TableFrom(sessions[..last], key);
  }

  lemma {:induction false} TableSize(sessions: seq<Session>)
    requires Distinct(sessions)
    ensures |Table(sessions)| == |sessions|
  {
    if sessions != [] {
      var last := |sessions| - 1;
      var before := sessions[..last];
      TableSize(before);
      if sessions[last].key in Table(before) {
        var i := TableFrom(before, sessions[last].key);
        assert false;
      }
      assert Table(sessions).Keys == Table(before).Keys + {sessions[last].key};
    }
  }

  lemma TableHolds(sessions: seq<Session>)
    requires Distinct(sessions)
    ensures |Table(sessions)| == |sessions|
    ensures forall i | 0 <= i < |sessions| :: sessions[i].key in Table(sessions)
    ensures forall k | k in Table(sessions) :: exists i :: 0 <= i < |sessions| && sessions[i].key == k
  {
    hide Table;
    TableSize(sessions);
    forall i | 0 <= i < |sessions|
      ensures sessions[i].key in Table(sessions)
    {
      TableAt(sessions, i);
    }
    forall k | k in Table(sessions)
      ensures exists i :: 0 <= i < |sessions| && sessions[i].key == k
    {
      var i := TableFrom(sessions, k);
    }
  }

  lemma NotInTable(sessions: seq<Session>, key: Key)
    requires forall k | 0 <= k < |sessions| :: sessions[k].key != key
    ensures key !in Table(sessions)
  {
    hide Table;
    if key in Table(sessions) { var i := TableFrom(sessions, key); }
  }

  lemma TableAppend(sessions: seq<Session>, s: Session)
    ensures Table(sessions + [s]) == Table(sessions)[s.key := s.lastSeen]
  {
    assert (sessions + [s])[..|sessions|] == sessions;
  }

  function Touch(sessions: seq<Session>, i: nat, now: u64): seq<Session>
    requires i < |sessions|
  {
    sessions[i := sessions[i].(lastSeen := now)]
  }

  lemma {:induction false} TableTouch(sessions: seq<Session>, i: nat, now: u64)
    requires Distinct(sessions) && i < |sessions|
    ensures Table(Touch(sessions, i, now)) == Table(sessions)[sessions[i].key := now]
  {
    var last := |sessions| - 1;
    var before := sessions[..last];
    if i == last {
      assert Touch(sessions, i, now)[..last] == before;
    } else {
      TableTouch(before, i, now);
      assert Touch(sessions, i, now)[..last] == Touch(before, i, now);
      assert sessions[i].key != sessions[last].key;
    }
  }

  lemma LiveStep(limits: Limits, heard: Heard, s: Session, now: u64)
    requires s.key !in heard
    ensures Live(limits, heard[s.key := s.lastSeen], now)
         == (if Idle(limits, s.lastSeen, now) then Live(limits, heard, now)
             else Live(limits, heard, now)[s.key := s.lastSeen])
  {
    hide Idle;
  }

  // ---- the implementation --------------------------------------------------------------------

  class UdpSessionLimiter {
    const limits: Limits
    var sessions: seq<Session>

    ghost predicate Valid()
      reads this
    {
      Distinct(sessions) && |sessions| <= limits.maxSessions
    }

    ghost function Contents(): Heard
      reads this
    {
      Table(sessions)
    }

    constructor (maxSessions: u32, idleTimeout: u64)
      ensures Valid() && Contents() == map[] && limits == Limits(maxSessions, idleTimeout)
    {
      limits := Limits(maxSessions, idleTimeout);
      sessions := [];
    }

    /** Drops the sessions not heard for longer than the timeout, keeping the others in order. */
    method Prune(now: u64)
      requires Valid()
      modifies this
      ensures Valid() && Contents() == Live(limits, old(Contents()), now)
    {
      hide Live, Idle, Table;
      var kept: seq<Session> := [];
      assert Table([]) == map[] && Live(limits, map[], now) == map[] by { EmptyTable(limits, now); }
      assert sessions[..0] == [];
      for i := 0 to |sessions|
        invariant Distinct(kept) && |kept| <= i && sessions == old(sessions)
        invariant forall k | 0 <= k < |kept| :: exists j :: 0 <= j < i && kept[k].key == sessions[j].key
        invariant Table(kept) == Live(limits, Table(sessions[..i]), now)
      {
        var s := sessions[i];
        assert sessions[..i + 1] == sessions[..i] + [s];
        TableAppend(sessions[..i], s);
        TableHolds(sessions[..i]);
        LiveStep(limits, Table(sessions[..i]), s, now);
        if !Idle(limits, s.lastSeen, now) {
          TableAppend(kept, s);
          kept := kept + [s];
        }
      }
      assert sessions[..|sessions|] == sessions;
      sessions := kept;
    }

    /**
     Refreshes a known key, admits a new one while there is room, refuses it otherwise. The table holds each
     key once and never outgrows its limit.
     */
    method Admit(key: Key, now: u64) returns (r: Admission)
      requires Valid()
      modifies this
      ensures Valid()
      ensures r == Decision(limits, old(Contents()), Call(key, now))
      ensures Contents() == After(limits, old(Contents()), Call(key, now))
    {
      hide Live, Table;
      Prune(now);
      TableHolds(sessions);
      for i := 0 to |sessions|
        invariant forall k | 0 <= k < i :: sessions[k].key != key
        invariant Valid() && Contents() == Live(limits, old(Contents()), now) && |Contents()| == |sessions|
      {
        if sessions[i].key == key {
          TableAt(sessions, i);
          TableTouch(sessions, i, now);
          sessions := Touch(sessions, i, now);
          return Allow;
        }
      }
      NotInTable(sessions, key);
      if |sessions| >= limits.maxSessions { return RateLimit; }
      TableAppend(sessions, Session(key, now));
      sessions := sessions + [Session(key, now)];
      return Allow;
    }
  }

  lemma EmptyTable(limits: Limits, now: u64)
    ensures Table([]) == map[] && Live(limits, map[], now) == map[]
  {
  }

  // ---- runs ----------------------------------------------------------------------------------

  ghost function Run(limits: Limits, heard: Heard, calls: seq<Call>): Heard
    decreases |calls|
  {
    if calls == [] then heard else Run(limits, After(limits, heard, calls[0]), calls[1..])
  }

  /** The keys that were let through at least once. */
  ghost function Granted(limits: Limits, heard: Heard, calls: seq<Call>): set<Key>
    decreases |calls|
  {
    if calls == [] then {}
    else
      (if Decision(limits, heard, calls[0]).Allow? then {calls[0].key} else {})
      + Granted(limits, After(limits, heard, calls[0]), calls[1..])
  }

  /** Every call falls into one stretch of time no longer than the timeout. */
  predicate OneTimeout(limits: Limits, calls: seq<Call>, start: u64) {
    forall i | 0 <= i < |calls| :: start <= calls[i].now <= start + limits.idleTimeout
  }

  lemma AfterKeeps(limits: Limits, heard: Heard, call: Call, key: Key, start: u64)
    requires key in heard && heard[key] >= start && start <= call.now <= start + limits.idleTimeout
    ensures key in After(limits, heard, call) && After(limits, heard, call)[key] >= start
  {
    assert key in Live(limits, heard, call.now);
  }

  /** A session is live up to and including the moment its timeout ends. */
  predicate Fresh(limits: Limits, heard: Heard, now: u64, k: Key) {
    k in heard && now <= heard[k] + limits.idleTimeout
  }

  /** What one call does: who is admitted, who is dropped, and that nobody else is touched. */
  lemma AdmitExact(limits: Limits, heard: Heard, call: Call)
    ensures Decision(limits, heard, call).Allow? <==>
      Fresh(limits, heard, call.now, call.key) || |set k | k in heard && Fresh(limits, heard, call.now, k)| < limits.maxSessions
    ensures forall k | k != call.key :: k in After(limits, heard, call) <==> Fresh(limits, heard, call.now, k)
    ensures forall k | k != call.key && k in After(limits, heard, call) :: After(limits, heard, call)[k] == heard[k]
    ensures call.key in After(limits, heard, call) <==> Decision(limits, heard, call).Allow?
    ensures Decision(limits, heard, call).Allow? ==> After(limits, heard, call)[call.key] == call.now
  {
    var live := Live(limits, heard, call.now);
    assert live.Keys == set k | k in heard && Fresh(limits, heard, call.now, k);
    assert |live| == |live.Keys|;
  }

  /** No run takes the table over its limit. */
  lemma {:induction false} NeverOverfull(limits: Limits, heard: Heard, calls: seq<Call>)
    requires |heard| <= limits.maxSessions
    ensures |Run(limits, heard, calls)| <= limits.maxSessions
    decreases |calls|
  {
    if calls != [] {
      AfterFits(limits, heard, calls[0]);
      NeverOverfull(limits, After(limits, heard, calls[0]), calls[1..]);
    }
  }

  lemma AfterFits(limits: Limits, heard: Heard, call: Call)
    requires |heard| <= limits.maxSessions
    ensures |After(limits, heard, call)| <= limits.maxSessions
  {
    var live := Live(limits, heard, call.now);
    assert live.Keys <= heard.Keys;
    SubsetSize(live.Keys, heard.Keys);
    assert live[call.key := call.now].Keys == live.Keys + {call.key};
  }

  lemma {:induction false} StaysHeard(limits: Limits, heard: Heard, calls: seq<Call>, key: Key, start: u64)
    requires key in heard && heard[key] >= start && OneTimeout(limits, calls, start)
    ensures key in Run(limits, heard, calls) && Run(limits, heard, calls)[key] >= start
    decreases |calls|
  {
    hide After;
    if calls != [] {
      AfterKeeps(limits, heard, calls[0], key, start);
      StaysHeard(limits, After(limits, heard, calls[0]), calls[1..], key, start);
    }
  }

  /** A session that speaks again within the timeout is never turned away, however busy the table was meanwhile. */
  lemma LiveSessionNeverRefused(limits: Limits, heard: Heard, key: Key, start: u64, calls: seq<Call>, again: u64)
    requires Decision(limits, heard, Call(key, start)).Allow?
    requires OneTimeout(limits, calls, start) && start <= again <= start + limits.idleTimeout
    ensures Decision(limits, Run(limits, After(limits, heard, Call(key, start)), calls), Call(key, again)).Allow?
  {
    hide Run;
    var after := After(limits, heard, Call(key, start));
    StaysHeard(limits, after, calls, key, start);
    assert key in Live(limits, Run(limits, after, calls), again);
  }

  lemma {:induction false} GrantedAreHeard(limits: Limits, heard: Heard, calls: seq<Call>, start: u64)
    requires OneTimeout(limits, calls, start)
    ensures Granted(limits, heard, calls) <= Run(limits, heard, calls).Keys
    decreases |calls|
  {
    if calls != [] {
      var next := After(limits, heard, calls[0]);
      GrantedAreHeard(limits, next, calls[1..], start);
      if Decision(limits, heard, calls[0]).Allow? {
        StaysHeard(limits, next, calls[1..], calls[0].key, start);
      }
    }
  }

  /** Within any stretch of one timeout, at most `maxSessions` different keys get through. */
  lemma FewKeysPerTimeout(limits: Limits, heard: Heard, calls: seq<Call>, start: u64)
    requires |heard| <= limits.maxSessions && OneTimeout(limits, calls, start)
    ensures |Granted(limits, heard, calls)| <= limits.maxSessions
  {
    hide Granted, Run;
    GrantedAreHeard(limits, heard, calls, start);
    NeverOverfull(limits, heard, calls);
    SubsetSize(Granted(limits, heard, calls), Run(limits, heard, calls).Keys);
  }
}
