/** How long an unused entry may stay in the pool, and how many backends may be running at once. */
module PoolBounds {
  import opened Prelude
  import opened PoolSpec
  import opened PoolInvariant
  import opened PoolRuns

  // ---------------------------------------------------------------------------------------------
  // Idle time
  // ---------------------------------------------------------------------------------------------

  /** The reaper's period. With none, or one that halves to nothing, it does not run. */
  function Interval(limits: Limits): int {
    if limits.idleTTL >= 0 then limits.idleTTL / 2 else -(-limits.idleTTL / 2)
  }

  /** When the reaper last scanned before step `i`; before its first scan, when the pool was made. */
  function LastScan(states: seq<State>, events: seq<Event>, i: nat): int
    requires i <= |events| && |states| > 0
  {
    if i == 0 then states[0].clock
    else if events[i - 1].Expire? then events[i - 1].now
    else LastScan(states, events, i - 1)
  }

  /** The reaper runs and is not late: nothing happens more than one period after its last scan. */
  ghost predicate Punctual(states: seq<State>, events: seq<Event>) {
    && Run(states, events)
    && Interval(states[0].limits) > 0
    && forall i {:trigger events[i]} :: 0 <= i < |events| ==> (events[i].Expire? || events[i].Acquire? || events[i].Release?) ==>
         events[i].now <= LastScan(states, events, i) + Interval(states[0].limits)
  }

  /** At the last scan no entry that is idle now had been idle for its whole period. */
  ghost predicate Swept(s: State, scan: int) {
    && scan <= s.clock
    && forall id: nat :: Current(s.records, s.entries, id) && s.records[id].inflight == 0
                     ==> scan - s.records[id].lastUsed < s.limits.idleTTL
  }

  /** A scan leaves exactly the entries that are not stale. */
  lemma {:induction false} ScanRemovesExactly(s: State, stale: seq<nat>, now: int)
    requires Inv(s)
    requires forall i :: 0 <= i < |stale| ==> Stale(s, stale[i], now)
    requires forall i, j :: 0 <= i < j < |stale| ==> stale[i] != stale[j]
    ensures forall i :: 0 <= i < |stale| ==> stale[i] < |s.records|
    ensures forall id: nat :: Current(s.records, ExpireAll(s, stale).entries, id) <==>
                              Current(s.records, s.entries, id) && id !in stale
    decreases |stale|
  {
    hide Inv;
    if stale != [] {
      var r := ExpireOne(s, stale[0]);
      StaleIsOpen(s, stale[0], now);
      DetachKeeps(s, stale[0], r);
      StaleAfter(s, stale, now);
      ScanRemovesExactly(r, stale[1..], now);
      assert forall id: nat :: id in stale <==> id == stale[0] || id in stale[1..];
      forall id: nat ensures Current(s.records, r.entries, id) <==> Current(s.records, s.entries, id) && id != stale[0] {
        DetachMembership(s.records, s.entries, stale[0], id);
      }
    }
  }

  lemma StaleIsOpen(s: State, id: nat, now: int)
    requires Inv(s) && Stale(s, id, now)
    ensures !s.closed && Idle(s, id)
  {
  }

  lemma ScanSweeps(s: State, e: Event, s': State)
    requires Next(s, e, s') && Inv(s) && e.Expire?
    ensures Swept(s', e.now)
  {
    hide Inv, ExpireAll;
    ScanRemovesExactly(s.(clock := e.now), e.stale, e.now) by {
      InvAtClock(s, e.now);
    }
    if s.closed {
      ClosedIsEmpty(s);
    }
  }

  lemma InvAtClock(s: State, now: int)
    requires Inv(s) && s.clock <= now
    ensures Inv(s.(clock := now))
  {
  }

  lemma ClosedIsEmpty(s: State)
    requires Inv(s) && s.closed
    ensures s.entries == map[]
  {
  }

  /** A step that only files entries as before, and gives none an earlier last use, leaves the pool swept. */
  lemma LaterUseStaysSwept(s: State, s': State, scan: int)
    requires Swept(s, scan) && s.clock <= s'.clock && s'.limits == s.limits && s.limits.idleTTL > 0
    requires forall id: nat :: Current(s'.records, s'.entries, id) && s'.records[id].inflight == 0 ==>
               || s'.records[id].lastUsed >= scan
               || (Current(s.records, s.entries, id) && s'.records[id].inflight == s.records[id].inflight
                   && s'.records[id].lastUsed == s.records[id].lastUsed)
    ensures Swept(s', scan)
  {
  }

  lemma SweptEarlier(s: State, scan: int)
    requires Swept(s, scan)
    ensures scan <= s.clock
  {
  }

  lemma AcquireStaysSwept(s: State, e: Event, scan: int)
    requires Indexed(s) && Enabled(s, e) && e.Acquire? && Swept(s, scan) && s.limits.idleTTL > 0
    ensures Swept(Step(s, e), scan)
  {
    hide LeastRecentlyUsed, Count, Listening, Swept;
    SweptEarlier(s, scan);
    LaterUseStaysSwept(s, Step(s, e), scan);
  }

  lemma OtherStepsStaySwept(s: State, e: Event, s': State, scan: int)
    requires Next(s, e, s') && Swept(s, scan) && !e.Expire? && s.limits.idleTTL > 0
    ensures Swept(s', scan)
  {
    hide LeastRecentlyUsed, Count, Listening, TryAcquire;
    match e
    case Acquire(_, _, _, _) => AcquireStaysSwept(s, e, scan);
    case _ => LaterUseStaysSwept(s, s', scan);
  }

  lemma StepStaysSwept(s: State, e: Event, s': State, scan: int)
    requires Next(s, e, s') && Inv(s) && Swept(s, scan) && Interval(s.limits) > 0
    ensures Swept(s', if e.Expire? then e.now else scan) && s'.limits == s.limits
  {
    LimitsFixed(s, e, s');
    if e.Expire? {
      ScanSweeps(s, e, s');
    } else {
      hide Next, Inv, Swept;
      OtherStepsStaySwept(s, e, s', scan);
    }
  }

  lemma {:induction false} RunStaysSwept(states: seq<State>, events: seq<Event>, i: nat)
    requires Run(states, events) && Interval(states[0].limits) > 0 && i < |states|
    ensures states[i].limits == states[0].limits
    ensures Swept(states[i], LastScan(states, events, i))
  {
    hide Next, Inv, Swept, Interval;
    if i == 0 {
      InitiallySwept(states[0].limits, states[0].clock);
    } else {
      RunStaysSwept(states, events, i - 1);
      RunInv(states, events, i - 1);
      StepStaysSwept(states[i - 1], events[i - 1], states[i], LastScan(states, events, i - 1));
    }
  }

  lemma InitiallySwept(limits: Limits, clock: int)
    ensures Swept(Initial(limits, clock), clock)
  {
  }

  lemma LimitsFixed(s: State, e: Event, s': State)
    requires Next(s, e, s')
    ensures s'.limits == s.limits
  {
    hide LeastRecentlyUsed, Count, Listening, Stale;
  }

  lemma HalfOfPositive(limits: Limits)
    requires Interval(limits) > 0
    ensures limits.idleTTL > 0 && Interval(limits) == limits.idleTTL / 2
  {
  }

  /**
   While the reaper is punctual, an entry it takes out of the pool had been unused for at least the
   idle period and for less than the idle period and a half.
   */
  lemma IdleTimeBounded(states: seq<State>, events: seq<Event>, i: nat, id: nat)
    requires Punctual(states, events) && i < |events| && events[i].Expire?
    requires Current(states[i].records, states[i].entries, id) && !Current(states[i + 1].records, states[i + 1].entries, id)
    ensures var s := states[i]; var idle := events[i].now - s.records[id].lastUsed;
            && s.records[id].inflight == 0
            && s.limits.idleTTL <= idle < s.limits.idleTTL + s.limits.idleTTL / 2
  {
    hide Next, Inv, Swept, Interval;
    RunInv(states, events, i);
    RunStaysSwept(states, events, i);
    ScanIdleTime(states[i], events[i], states[i + 1], LastScan(states, events, i), id);
  }

  lemma ScanIdleTime(s: State, e: Event, s': State, scan: int, id: nat)
    requires Next(s, e, s') && Inv(s) && e.Expire? && Swept(s, scan) && e.now <= scan + Interval(s.limits) && Interval(s.limits) > 0
    requires Current(s.records, s.entries, id) && !Current(s'.records, s'.entries, id)
    ensures s.records[id].inflight == 0
    ensures s.limits.idleTTL <= e.now - s.records[id].lastUsed < s.limits.idleTTL + s.limits.idleTTL / 2
  {
    hide Next, Inv, Swept, Interval;
    HalfOfPositive(s.limits);
    SweptAt(s, scan, id);
    ScannedIsStale(s, e, s', id);
  }

  lemma ScannedIsStale(s: State, e: Event, s': State, id: nat)
    requires Next(s, e, s') && Inv(s) && e.Expire?
    requires Current(s.records, s.entries, id) && !Current(s'.records, s'.entries, id)
    ensures Stale(s, id, e.now)
  {
    InvAtClock(s, e.now);
    hide Inv, ExpireAll;
    ScanRemovesExactly(s.(clock := e.now), e.stale, e.now);
    assert id in e.stale;
  }

  lemma SweptAt(s: State, scan: int, id: nat)
    requires Swept(s, scan) && Current(s.records, s.entries, id)
    ensures s.records[id].inflight == 0 ==> scan - s.records[id].lastUsed < s.limits.idleTTL
  {
  }

  // ---------------------------------------------------------------------------------------------
  // How many backends run at once
  // ---------------------------------------------------------------------------------------------

  function Unclosed(s: State): set<nat> {
    set id: nat | id < |s.records| && s.records[id].closes == 0
  }

  function Filed(entries: map<Key, nat>): set<nat> {
    set k | k in entries :: entries[k]
  }

  lemma FiledWithout(entries: map<Key, nat>, k: Key)
    requires k in entries
    ensures Filed(entries) == Filed(entries - {k}) + {entries[k]}
  {
    forall id ensures id in Filed(entries) <==> id in Filed(entries - {k}) || id == entries[k] {
      if id in Filed(entries) {
        var j :| j in entries && entries[j] == id;
        assert j == k || j in entries - {k};
      }
    }
  }

  /** Entries under different keys are different, so there are as many entries as keys. */
  lemma {:induction false} FiledCount(keyOf: map<nat, Key>, entries: map<Key, nat>)
    requires forall k :: k in entries ==> entries[k] in keyOf && keyOf[entries[k]] == k
    ensures |Filed(entries)| == |entries|
    decreases |entries|
  {
    if entries == map[] {
      assert Filed(entries) == {};
    } else {
      var k :| k in entries;
      var rest := entries - {k};
      CardinalityGrows(rest.Keys, k, entries.Keys);
      FiledCount(keyOf, rest);
      FiledWithout(entries, k);
      assert entries[k] !in Filed(rest);
    }
  }

  /**
   The limit bounds the entries of the pool, not the backends still running: in every reachable state
   the latter are the entries together with those let go of and not yet closed. The limit therefore
   holds of them exactly when the pool has a free slot for each backend still to be closed.
   */
  lemma RunningBackends(states: seq<State>, events: seq<Event>, i: nat)
    requires Run(states, events) && i < |states|
    ensures var s := states[i];
            && |Unclosed(s)| == |s.entries| + |s.doomed|
            && (|Unclosed(s)| <= s.limits.maxProcesses <==> |s.doomed| <= s.limits.maxProcesses - |s.entries|)
  {
    RunInv(states, events, i);
    UnclosedCount(states[i]);
  }

  lemma UnclosedCount(s: State)
    requires Indexed(s) && Accounted(s.records, s.entries, s.doomed)
    ensures |Unclosed(s)| == |s.entries| + |s.doomed|
  {
    var filed := Filed(s.entries);
    FiledCount(map id: nat | id < |s.records| :: s.records[id].key, s.entries);
    forall id: nat | id < |s.records| ensures id in filed <==> Current(s.records, s.entries, id) {
      if Current(s.records, s.entries, id) {
        assert s.records[id].key in s.entries;
      }
    }
    assert filed !! s.doomed;
    assert Unclosed(s) == filed + s.doomed;
  }

  const KEY_A := Key("s", "a")
  const KEY_B := Key("t", "b")
  const IDLED := Record(KEY_A, 1, 0, map[], 0)
  const SERVING_A := State(Limits(1, 2, 10), 0, [Record(KEY_A, 0, 1, map[], 0)], map[KEY_A := 0], map["s" := 1], map[], 0,
                          Stats(1, 0, 0, 0), false, map[0 := 0], {})
  const IDLE_A := SERVING_A.(clock := 1, records := [IDLED], holding := map[])
  const SERVING_B := State(Limits(1, 2, 10), 2, [IDLED, Record(KEY_B, 2, 1, map[], 0)], map[KEY_B := 1], map["t" := 1], map[], 0,
                          Stats(2, 1, 0, 0), false, map[1 := 1], {0})

  lemma FirstIsServed()
    ensures Next(Initial(Limits(1, 2, 10), 0), Acquire(0, KEY_A, 0, None), SERVING_A)
  {
  }

  lemma FirstIsReleased()
    ensures Next(SERVING_A, Release(0, 1), IDLE_A)
  {
  }

  lemma VictimLeaves()
    ensures Evict(IDLE_A, 0) == IDLE_A.(entries := map[], perSubject := map[], stats := Stats(1, 1, 0, 0), doomed := {0})
  {
    assert IDLE_A.entries - {KEY_A} == map[];
    assert IDLE_A.perSubject - {"s"} == map[];
  }

  lemma VictimIsChosen()
    ensures NeedsRoom(IDLE_A, KEY_B) && Enabled(IDLE_A, Acquire(1, KEY_B, 2, Some(0)))
  {
    assert Idle(IDLE_A, 0);
  }

  lemma SecondEvictsFirst()
    ensures Next(IDLE_A, Acquire(1, KEY_B, 2, Some(0)), SERVING_B)
  {
    VictimIsChosen();
    VictimLeaves();
    hide Enabled, Evict;
    assert Insert(Evict(IDLE_A, 0), KEY_B, 2) == SERVING_B.(holding := map[]);
  }

  /** With a limit of one backend, two can be running: a victim is closed only after its replacement has its slot. */
  lemma LimitExceededByVictim()
    ensures exists states: seq<State>, events: seq<Event> ::
      Run(states, events) && |states| == 4 && states[3].limits.maxProcesses == 1 && |Unclosed(states[3])| == 2
  {
    hide Next;
    var states := [Initial(Limits(1, 2, 10), 0), SERVING_A, IDLE_A, SERVING_B];
    var events := [Acquire(0, KEY_A, 0, None), Release(0, 1), Acquire(1, KEY_B, 2, Some(0))];
    FirstIsServed();
    FirstIsReleased();
    SecondEvictsFirst();
    assert Run(states, events);
    RunningBackends(states, events, 3);
  }
}
