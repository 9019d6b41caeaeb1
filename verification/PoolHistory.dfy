/** What the pool records about itself is what happened: its counters count, and `lastUsed` is the time of the last use. */
module PoolHistory {
  import opened Prelude
  import opened PoolSpec
  import opened PoolInvariant
  import opened PoolRuns
  import PoolBounds

  // ---------------------------------------------------------------------------------------------
  // The time of the last use
  // ---------------------------------------------------------------------------------------------

  /** Step `e` is a request beginning or ending on entry `id`. */
  predicate Uses(s: State, e: Event, s': State, id: nat) {
    || (e.Acquire? && e.request in s'.holding && s'.holding[e.request] == id)
    || (e.Release? && e.request in s.holding && s.holding[e.request] == id)
  }

  /** When entry `id` was last used in the first `i` steps. */
  ghost function LastUse(states: seq<State>, events: seq<Event>, i: nat, id: nat): int
    requires |states| == |events| + 1 && i <= |events|
  {
    if i == 0 then states[0].clock
    else if Uses(states[i - 1], events[i - 1], states[i], id)
    then (if events[i - 1].Acquire? then events[i - 1].now else if events[i - 1].Release? then events[i - 1].now else 0)
    else LastUse(states, events, i - 1, id)
  }

  lemma AcquireUse(s: State, e: Event, s': State, id: nat)
    requires Next(s, e, s') && id < |s'.records| && e.Acquire?
    ensures if Uses(s, e, s', id) then s'.records[id].lastUsed == e.now
            else id < |s.records| && s'.records[id].lastUsed == s.records[id].lastUsed
  {
    hide LeastRecentlyUsed, Count, Listening, Stale;
  }

  /** One step changes when an entry was last used exactly if it uses the entry, and then to now. */
  lemma UseStep(s: State, e: Event, s': State, id: nat)
    requires Next(s, e, s') && id < |s'.records|
    ensures if Uses(s, e, s', id) then s'.records[id].lastUsed == (if e.Acquire? then e.now else if e.Release? then e.now else 0)
            else id < |s.records| && s'.records[id].lastUsed == s.records[id].lastUsed
  {
    hide LeastRecentlyUsed, Count, Listening, Stale, TryAcquire;
    if e.Acquire? {
      AcquireUse(s, e, s', id);
    }
  }

  /** An entry's `lastUsed`, which orders eviction and decides expiry, is when a request on it last began or ended. */
  lemma {:induction false} LastUsedIsLastUse(states: seq<State>, events: seq<Event>, i: nat, id: nat)
    requires Run(states, events) && i < |states| && id < |states[i].records|
    ensures states[i].records[id].lastUsed == LastUse(states, events, i, id)
  {
    if i > 0 {
      assert Next(states[i - 1], events[i - 1], states[i]);
      UseStep(states[i - 1], events[i - 1], states[i], id);
      hide Next, Uses;
      if !Uses(states[i - 1], events[i - 1], states[i], id) {
        LastUsedIsLastUse(states, events, i - 1, id);
      }
    }
  }

  // ---------------------------------------------------------------------------------------------
  // The counters
  // ---------------------------------------------------------------------------------------------

  /** Some entry of the pool is gone from it. */
  ghost predicate Loses(s: State, s': State) {
    exists id: nat :: Current(s.records, s.entries, id) && !Current(s'.records, s'.entries, id)
  }

  function Less(before: nat, after: nat): nat { if after <= before then before - after else 0 }

  /** What happened in one step, by what it changed. */
  ghost function Counted(t: Stats, s: State, e: Event, s': State): Stats {
    if e.Acquire? then
      Stats(t.created + (if |s'.records| > |s.records| then 1 else 0),
            t.evicted + (if Loses(s, s') then 1 else 0),
            t.idleExpired,
            t.rejected + (if !s.closed && e.request !in s'.holding then 1 else 0))
    else if e.Expire? then t.(idleExpired := t.idleExpired + Less(|s.entries|, |s'.entries|))
    else t
  }

  ghost function Tally(states: seq<State>, events: seq<Event>, i: nat): Stats
    requires |states| == |events| + 1 && i <= |events|
  {
    if i == 0 then Stats(0, 0, 0, 0)
    else Counted(Tally(states, events, i - 1), states[i - 1], events[i - 1], states[i])
  }

  lemma {:induction false} ExpireCounts(s: State, stale: seq<nat>, now: int)
    requires Inv(s)
    requires forall i :: 0 <= i < |stale| ==> Stale(s, stale[i], now)
    requires forall i, j :: 0 <= i < j < |stale| ==> stale[i] != stale[j]
    ensures forall i :: 0 <= i < |stale| ==> stale[i] < |s.records|
    ensures var r := ExpireAll(s, stale);
            && |r.entries| + |stale| == |s.entries|
            && r.stats == s.stats.(idleExpired := s.stats.idleExpired + |stale|)
    decreases |stale|
  {
    hide Inv;
    if stale != [] {
      var r := ExpireOne(s, stale[0]);
      PoolBounds.StaleIsOpen(s, stale[0], now);
      DetachKeeps(s, stale[0], r);
      StaleAfter(s, stale, now);
      ExpireCounts(r, stale[1..], now);
    }
  }

  lemma ExpireStepCounts(s: State, e: Event, s': State)
    requires Next(s, e, s') && Inv(s) && e.Expire?
    ensures s'.stats == Counted(s.stats, s, e, s')
  {
    var t := s.(clock := e.now);
    PoolBounds.InvAtClock(s, e.now);
    hide Inv, ExpireAll;
    forall i | 0 <= i < |e.stale| ensures Stale(t, e.stale[i], e.now) {
      assert Stale(s, e.stale[i], e.now);
    }
    ExpireCounts(t, e.stale, e.now);
  }

  /** An acquire that finds its key or room for it loses nothing. */
  lemma KeepsAll(s: State, s': State)
    requires Indexed(s) && |s'.records| >= |s.records|
    requires forall id :: 0 <= id < |s.records| ==> s'.records[id].key == s.records[id].key
    requires forall k :: k in s.entries ==> k in s'.entries && s'.entries[k] == s.entries[k]
    ensures !Loses(s, s')
  {
  }

  lemma AcquireEvicts(s: State, e: Event, s': State)
    requires Next(s, e, s') && e.Acquire? && NeedsRoom(s, e.key) && e.victim.Some?
    ensures s' == Insert(Evict(s, e.victim.value), e.key, e.now).(holding := s'.holding)
    ensures s'.stats == s.stats.(created := s.stats.created + 1, evicted := s.stats.evicted + 1)
    ensures e.request in s'.holding && |s'.records| == |s.records| + 1
  {
    hide LeastRecentlyUsed, Count, Listening;
  }

  lemma AcquireKeepsEntries(s: State, e: Event, s': State)
    requires Next(s, e, s') && e.Acquire? && !(NeedsRoom(s, e.key) && e.victim.Some?)
    ensures |s'.records| >= |s.records| && forall id :: 0 <= id < |s.records| ==> s'.records[id].key == s.records[id].key
    ensures forall k :: k in s.entries ==> k in s'.entries && s'.entries[k] == s.entries[k]
  {
    hide LeastRecentlyUsed, Listening, Evict;
  }

  lemma AcquireOtherwise(s: State, e: Event, s': State)
    requires Next(s, e, s') && e.Acquire? && !(NeedsRoom(s, e.key) && e.victim.Some?)
    ensures s'.stats == s.stats.(created := s.stats.created + (if |s'.records| > |s.records| then 1 else 0),
                                 rejected := s.stats.rejected + (if !s.closed && e.request !in s'.holding then 1 else 0))
  {
    hide LeastRecentlyUsed, Listening, Evict;
  }

  lemma AcquireStepCounts(s: State, e: Event, s': State)
    requires Next(s, e, s') && e.Acquire?
    ensures s'.stats == Counted(s.stats, s, e, s')
  {
    hide LeastRecentlyUsed, Loses, Step, Enabled, Evict, Insert;
    if NeedsRoom(s, e.key) && e.victim.Some? {
      AcquireEvicts(s, e, s');
      VictimOfScan(s, e, s');
      VictimIsLost(s, e.key, e.now, e.victim.value, s');
    } else {
      AcquireOtherwise(s, e, s');
      AcquireKeepsEntries(s, e, s');
      KeepsAll(s, s');
    }
  }

  lemma VictimOfScan(s: State, e: Event, s': State)
    requires Next(s, e, s') && e.Acquire? && NeedsRoom(s, e.key) && e.victim.Some?
    ensures Current(s.records, s.entries, e.victim.value)
  {
    hide Step;
  }

  lemma VictimIsLost(s: State, k: Key, now: int, id: nat, s': State)
    requires Indexed(s) && Current(s.records, s.entries, id) && k !in s.entries
    requires s' == Insert(Evict(s, id), k, now).(holding := s'.holding)
    ensures Loses(s, s')
  {
    hide Count, Listening;
    assert !Current(s'.records, s'.entries, id);
  }

  lemma OtherStepsCount(s: State, e: Event, s': State)
    requires Next(s, e, s') && !e.Acquire? && !e.Expire?
    ensures s'.stats == s.stats
  {
    hide LeastRecentlyUsed, TryAcquire, Count, Listening;
  }

  /**
   The counters count: backends started, entries lost to an acquire, entries lost to a scan, and requests
   refused by a pool that was open.
   */
  lemma {:induction false} CountersCount(states: seq<State>, events: seq<Event>, i: nat)
    requires Run(states, events) && i < |states|
    ensures states[i].stats == Tally(states, events, i)
  {
    hide Inv, Next, Counted;
    if i == 0 {
      assert states[0] == Initial(states[0].limits, states[0].clock);
    } else {
      CountersCount(states, events, i - 1);
      RunInv(states, events, i - 1);
      StepCounts(states[i - 1], events[i - 1], states[i]);
    }
  }

  lemma StepCounts(s: State, e: Event, s': State)
    requires Next(s, e, s') && Inv(s)
    ensures s'.stats == Counted(s.stats, s, e, s')
  {
    if e.Acquire? {
      hide Next, Inv, Counted;
      AcquireStepCounts(s, e, s');
    } else if e.Expire? {
      hide Next, Inv, Counted;
      ExpireStepCounts(s, e, s');
    } else {
      OtherStepsCount(s, e, s');
    }
  }
}
