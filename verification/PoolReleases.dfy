/**
 What a released subscription leaves behind. Releasing reaches only the backend that serves the key: one
 the pool had let go of before keeps the callback.
 */
module PoolReleases {
  import opened Prelude
  import opened PoolSpec
  import opened PoolInvariant
  import opened PoolRuns
  import PoolHistory
  import opened PoolBounds

  /** A step that is no subscribe and no acquire changes the subscriptions of an entry only by releasing one. */
  lemma QuietStep(s: State, e: Event, s': State, n: nat, id: nat)
    requires Next(s, e, s') && !e.Acquire? && !e.Subscribe? && n < |s.records|
    ensures |s'.records| == |s.records|
    ensures id in s'.records[n].subs <==>
              id in s.records[n].subs && !(e == Unsubscribe(s.records[n].key, id) && Current(s.records, s.entries, n))
  {
    hide LeastRecentlyUsed, Count, Stale, TryAcquire;
  }

  lemma SubscribeStep(s: State, e: Event, s': State, n: nat, id: nat)
    requires Next(s, e, s') && e.Subscribe? && n < |s.records| && id != s.nextListen
    ensures |s'.records| == |s.records| && (id in s'.records[n].subs <==> id in s.records[n].subs)
  {
    hide LeastRecentlyUsed, Count, Stale, TryAcquire;
  }

  lemma EvictingStep(s: State, e: Event, s': State, n: nat)
    requires Next(s, e, s') && e.Acquire? && NeedsRoom(s, e.key) && e.victim.Some? && n < |s'.records|
    ensures |s.records| <= |s'.records|
    ensures s'.records[n].subs == if n < |s.records| then s.records[n].subs else Listening(s, s'.records[n].key)
  {
    hide LeastRecentlyUsed, Count, Next, NeedsRoom;
    PoolHistory.AcquireEvicts(s, e, s');
    PoolHistory.VictimOfScan(s, e, s');
  }

  lemma OtherAcquireRecords(s: State, e: Event, s': State)
    requires Next(s, e, s') && e.Acquire? && !(NeedsRoom(s, e.key) && e.victim.Some?)
    ensures || s'.records == s.records
            || s'.records == Insert(s, e.key, e.now).records
            || (e.key in s.entries && s.entries[e.key] < |s.records| && s'.records == Touch(s, s.entries[e.key], e.now, 1).records)
  {
    hide LeastRecentlyUsed, Evict, Listening;
  }

  lemma OtherAcquireStep(s: State, e: Event, s': State, n: nat)
    requires Next(s, e, s') && e.Acquire? && !(NeedsRoom(s, e.key) && e.victim.Some?) && n < |s'.records|
    ensures |s.records| <= |s'.records|
    ensures s'.records[n].subs == if n < |s.records| then s.records[n].subs else Listening(s, s'.records[n].key)
  {
    hide Next, NeedsRoom;
    OtherAcquireRecords(s, e, s');
  }

  lemma AcquireStep(s: State, e: Event, s': State, n: nat)
    requires Next(s, e, s') && e.Acquire? && n < |s'.records|
    ensures |s.records| <= |s'.records|
    ensures s'.records[n].subs == if n < |s.records| then s.records[n].subs else Listening(s, s'.records[n].key)
  {
    hide Next, NeedsRoom, Listening;
    if NeedsRoom(s, e.key) && e.victim.Some? {
      EvictingStep(s, e, s', n);
    } else {
      OtherAcquireStep(s, e, s', n);
    }
  }

  /** How one step changes whether an entry carries an identifier handed out before. */
  lemma SubsStep(s: State, e: Event, s': State, n: nat, id: nat)
    requires Next(s, e, s') && id < s.nextListen && n < |s'.records|
    ensures |s.records| <= |s'.records|
    ensures n >= |s.records| ==> (id in s'.records[n].subs <==> id in Listening(s, s'.records[n].key))
    ensures n < |s.records| ==> (id in s'.records[n].subs <==>
              id in s.records[n].subs
              && !(e == Unsubscribe(s.records[n].key, id) && Current(s.records, s.entries, n)))
  {
    hide Next, Listening;
    if e.Acquire? {
      AcquireStep(s, e, s', n);
    } else {
      StepLengths(s, e, s');
      if e.Subscribe? {
        SubscribeStep(s, e, s', n, id);
      } else {
        QuietStep(s, e, s', n, id);
      }
    }
  }

  lemma StepLengths(s: State, e: Event, s': State)
    requires Next(s, e, s') && !e.Acquire?
    ensures |s'.records| == |s.records|
  {
    hide LeastRecentlyUsed, Count, Stale, TryAcquire, Listening;
  }

  /**
   After subscription `id` of key `k` has been released, a backend started for `k` carries its callback exactly if,
   when it was released, the pool had already let that backend go while it carried it; no backend that serves `k`
   does, then or later.
   */
  lemma {:induction false} ReleasedLingersExactly(states: seq<State>, events: seq<Event>, i: nat, j: nat, k: Key, id: nat, n: nat)
    requires Run(states, events) && i < j < |states|
    requires events[i] == Unsubscribe(k, id) && id < states[i].nextListen
    requires n < |states[j].records| && states[j].records[n].key == k
    ensures id in states[j].records[n].subs <==>
              n < |states[i].records| && !Current(states[i].records, states[i].entries, n) && id in states[i].records[n].subs
    decreases j
  {
    hide Next, Inv, Listening;
    var s, e, s' := states[j - 1], events[j - 1], states[j];
    StepIsLater(s, e, s');
    if j == i + 1 {
      SubsStep(s, e, s', n, id);
      StepLengths(s, e, s');
    } else {
      ReleasedIsUnregistered(states, events, i, j - 1, k, id);
      SubsStep(s, e, s', n, id);
      RecordsGrow(states, events, i, j - 1);
      if n < |s.records| {
        ReleasedLingersExactly(states, events, i, j - 1, k, id, n);
      }
    }
  }

  lemma {:induction false} RecordsGrow(states: seq<State>, events: seq<Event>, i: nat, j: nat)
    requires Run(states, events) && i <= j < |states|
    ensures |states[i].records| <= |states[j].records|
    decreases j - i
  {
    hide Next;
    if i < j {
      StepIsLater(states[i], events[i], states[i + 1]);
      RecordsGrow(states, events, i + 1, j);
    }
  }

  // ---------------------------------------------------------------------------------------------
  // A callback that outlives its release
  // ---------------------------------------------------------------------------------------------

  const FRESH := Initial(Limits(1, 2, 10), 0)
  const HEARD := FRESH.(listeners := map[KEY_A := map[0 := 7]], nextListen := 1)
  const SERVED := HEARD.(records := [Record(KEY_A, 0, 1, map[0 := 7], 0)], entries := map[KEY_A := 0], perSubject := map["s" := 1],
                         stats := Stats(1, 0, 0, 0), holding := map[0 := 0])
  const VICTIM := Record(KEY_A, 1, 0, map[0 := 7], 0)
  const IDLED := SERVED.(clock := 1, records := [VICTIM], holding := map[])
  const REPLACED := IDLED.(clock := 2, records := [VICTIM, Record(KEY_B, 2, 1, map[], 0)], entries := map[KEY_B := 1],
                           perSubject := map["t" := 1], stats := Stats(2, 1, 0, 0), holding := map[1 := 1], doomed := {0})
  const RELEASED := REPLACED.(listeners := map[])

  lemma HeardFirst()
    ensures Next(FRESH, Subscribe(KEY_A, 7), HEARD)
  {
  }

  lemma ThenServed()
    ensures Next(HEARD, Acquire(0, KEY_A, 0, None), SERVED)
  {
  }

  lemma ThenIdled()
    ensures Next(SERVED, Release(0, 1), IDLED)
  {
  }

  lemma ThenEvicted()
    ensures Evict(IDLED, 0) == IDLED.(entries := map[], perSubject := map[], stats := Stats(1, 1, 0, 0), doomed := {0})
  {
    assert IDLED.entries - {KEY_A} == map[];
    assert IDLED.perSubject - {"s"} == map[];
  }

  lemma ThenChosen()
    ensures NeedsRoom(IDLED, KEY_B) && Enabled(IDLED, Acquire(1, KEY_B, 2, Some(0)))
  {
    assert Idle(IDLED, 0);
  }

  lemma ThenReplaced()
    ensures Next(IDLED, Acquire(1, KEY_B, 2, Some(0)), REPLACED)
  {
    ThenChosen();
    ThenEvicted();
    hide Enabled, Evict;
    assert Insert(Evict(IDLED, 0), KEY_B, 2) == REPLACED.(holding := map[]);
  }

  lemma ThenReleased()
    ensures Next(REPLACED, Unsubscribe(KEY_A, 0), RELEASED)
  {
    assert REPLACED.listeners - {KEY_A} == map[];
    assert Listening(REPLACED, KEY_A) - {0} == map[];
  }

  /** A victim that has not been closed yet runs a callback whose subscription has been released, the pool being open. */
  lemma VictimStillCalls()
    ensures exists states: seq<State>, events: seq<Event> ::
      && Run(states, events) && |events| == 5 && events[4] == Unsubscribe(KEY_A, 0)
      && !states[5].closed && 0 < |states[5].records|
      && 0 in states[5].records[0].subs && states[5].records[0].closes == 0
  {
    hide Next;
    var states := [FRESH, HEARD, SERVED, IDLED, REPLACED, RELEASED];
    var events := [Subscribe(KEY_A, 7), Acquire(0, KEY_A, 0, None), Release(0, 1), Acquire(1, KEY_B, 2, Some(0)), Unsubscribe(KEY_A, 0)];
    HeardFirst();
    ThenServed();
    ThenIdled();
    ThenReplaced();
    ThenReleased();
    assert Run(states, events);
  }
}
