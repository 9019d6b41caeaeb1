/** What the pool promises over whole runs, with requests, the reaper and subscribers interleaved in any order. */
module PoolRuns {
  import opened Prelude
  import opened PoolSpec
  import opened PoolInvariant

  ghost predicate Run(states: seq<State>, events: seq<Event>) {
    && |states| == |events| + 1
    && states[0] == Initial(states[0].limits, states[0].clock)
    && forall i {:trigger events[i]} :: 0 <= i < |events| ==> Next(states[i], events[i], states[i + 1])
  }

  lemma {:induction false} RunInv(states: seq<State>, events: seq<Event>, i: nat)
    requires Run(states, events) && i < |states|
    ensures Inv(states[i])
  {
    hide Inv;
    if i == 0 {
      InitialInv(states[0].limits, states[0].clock);
    } else {
      RunInv(states, events, i - 1);
      assert Next(states[i - 1], events[i - 1], states[i]);
      StepKeeps(states[i - 1], events[i - 1]);
    }
  }

  // ---------------------------------------------------------------------------------------------
  // Every call has a step
  // ---------------------------------------------------------------------------------------------

  /** Among finitely many entries one has gone unused for longest. */
  lemma {:induction false} OldestOf(s: State, ids: set<nat>) returns (oldest: nat)
    requires ids != {} && forall id :: id in ids ==> id < |s.records|
    ensures oldest in ids && forall id :: id in ids ==> s.records[oldest].lastUsed <= s.records[id].lastUsed
    decreases |ids|
  {
    var first :| first in ids;
    var rest := ids - {first};
    oldest := first;
    if rest != {} {
      var other := OldestOf(s, rest);
      if s.records[other].lastUsed < s.records[first].lastUsed {
        oldest := other;
      }
    }
    forall id | id in ids ensures s.records[oldest].lastUsed <= s.records[id].lastUsed {
      assert id == first || id in rest;
    }
  }

  /** The scan for a victim always has an answer. */
  lemma VictimExists(s: State) returns (victim: Option<nat>)
    ensures LeastRecentlyUsed(s, victim)
  {
    var idle := set id: nat | id < |s.records| && Idle(s, id);
    if idle == {} {
      victim := None;
      forall id: nat ensures !Idle(s, id) {
        assert id !in idle;
      }
    } else {
      var oldest := OldestOf(s, idle);
      victim := Some(oldest);
      forall id: nat | Idle(s, id) ensures s.records[oldest].lastUsed <= s.records[id].lastUsed {
        assert id in idle;
      }
    }
  }

  /** A finite set can be listed without repetition. */
  lemma {:induction false} Listed(ids: set<nat>) returns (list: seq<nat>)
    ensures forall id :: id in list <==> id in ids
    ensures forall i, j :: 0 <= i < j < |list| ==> list[i] != list[j]
    decreases |ids|
  {
    list := [];
    if ids != {} {
      var id :| id in ids;
      var rest := Listed(ids - {id});
      list := [id] + rest;
    }
  }

  lemma NothingListed(ids: set<nat>, list: seq<nat>)
    requires forall id :: id in list <==> id in ids
    ensures ids == {} ==> list == []
  {
    if list != [] {
      assert list[0] in list;
    }
  }

  lemma StaleListed(s: State, now: int) returns (stale: seq<nat>)
    requires Indexed(s) && (s.closed ==> s.entries == map[]) && now >= s.clock
    ensures Enabled(s, Expire(now, stale))
  {
    var ids := if s.closed then {} else set id: nat | id < |s.records| && Stale(s, id, now);
    stale := Listed(ids);
    assert forall i :: 0 <= i < |stale| ==> stale[i] in ids;
    NothingListed(ids, stale);
    forall id: nat | Stale(s, id, now) ensures id in stale {
      assert id in ids;
    }
  }

  /**
   In every reachable state every call may run at any time: a new request for any key, the end of any unfinished
   request, a scan by the reaper, and the closing of any entry let go of each have a step.
   */
  lemma EveryCallHasAStep(states: seq<State>, events: seq<Event>, i: nat, now: int, t: nat, k: Key, id: nat)
    requires Run(states, events) && i < |states| && now >= states[i].clock
    ensures var s := states[i];
            && Indexed(s)
            && (t !in s.holding ==> exists victim :: Enabled(s, Acquire(t, k, now, victim)))
            && (t in s.holding ==> Enabled(s, Release(t, now)))
            && (exists stale :: Enabled(s, Expire(now, stale)))
            && (id in s.doomed ==> Enabled(s, CloseEntry(id)))
  {
    var s := states[i];
    RunInv(states, events, i);
    hide Census, WithinLimits, InflightAgrees, Accounted, HeldInPool, Subscribed, Tidy, ClockAhead, Next;
    var stale := StaleListed(s, now);
    var victim := VictimExists(s);
    hide LeastRecentlyUsed, Stale;
    assert t !in s.holding ==> Enabled(s, Acquire(t, k, now, if NeedsRoom(s, k) then victim else None));
  }

  // ---------------------------------------------------------------------------------------------
  // No use after close
  // ---------------------------------------------------------------------------------------------

  /**
   Until the pool is closed, the entry an unfinished request was given is still in the pool, nobody
   has been told to close it, and its backend has not been closed.
   */
  lemma NoUseAfterClose(states: seq<State>, events: seq<Event>, i: nat, t: nat)
    requires Run(states, events) && i < |states| && t in states[i].holding && !states[i].closed
    ensures var s := states[i]; var id := s.holding[t];
            && id < |s.records|
            && s.records[id].key in s.entries && s.entries[s.records[id].key] == id
            && id !in s.doomed
            && s.records[id].closes == 0
  {
    RunInv(states, events, i);
  }

  /** Over every run, the pool closed included, no entry is closed twice, and one still in the pool is not closed. */
  lemma ClosedAtMostOnce(states: seq<State>, events: seq<Event>, i: nat, id: nat)
    requires Run(states, events) && i < |states| && id < |states[i].records|
    ensures states[i].records[id].closes <= 1
    ensures Current(states[i].records, states[i].entries, id) || id in states[i].doomed <==> states[i].records[id].closes == 0
  {
    RunInv(states, events, i);
  }

  /** How one step may change the entries that already exist: never their key, and never back into the pool. */
  ghost predicate Later(s: State, s': State) {
    && |s.records| <= |s'.records|
    && (forall id :: 0 <= id < |s.records| ==> s'.records[id].key == s.records[id].key)
    && (forall k :: k in s'.entries && s'.entries[k] < |s.records| ==> k in s.entries && s.entries[k] == s'.entries[k])
  }

  lemma AcquireIsLater(s: State, e: Event)
    requires Indexed(s) && Enabled(s, e) && e.Acquire?
    ensures Later(s, Step(s, e))
  {
    hide LeastRecentlyUsed, Count, Listening;
  }

  lemma StepIsLater(s: State, e: Event, s': State)
    requires Next(s, e, s')
    ensures Later(s, s')
  {
    hide LeastRecentlyUsed, Count, Listening, TryAcquire;
    match e
    case Acquire(_, _, _, _) => AcquireIsLater(s, e);
    case _ =>
  }

  /** Once an entry has left the pool it never comes back, whatever is acquired later. */
  lemma {:induction false} GoneForGood(states: seq<State>, events: seq<Event>, i: nat, j: nat, id: nat)
    requires Run(states, events) && i <= j < |states| && id < |states[i].records|
    requires !Current(states[i].records, states[i].entries, id)
    ensures id < |states[j].records| && !Current(states[j].records, states[j].entries, id)
    decreases j - i
  {
    if i < j {
      assert Next(states[i], events[i], states[i + 1]);
      StepIsLater(states[i], events[i], states[i + 1]);
      GoneForGood(states, events, i + 1, j, id);
    }
  }

  /** No acquire hands out an entry that had already left the pool: a victim or an expired entry is never reused. */
  lemma NeverReacquired(states: seq<State>, events: seq<Event>, i: nat, j: nat, id: nat)
    requires Run(states, events) && i <= j < |events| && id < |states[i].records|
    requires !Current(states[i].records, states[i].entries, id)
    requires events[j].Acquire? && events[j].request in states[j + 1].holding
    ensures states[j + 1].holding[events[j].request] != id
  {
    GoneForGood(states, events, i, j, id);
    assert Next(states[j], events[j], states[j + 1]);
  }

  // ---------------------------------------------------------------------------------------------
  // A request is served under the key it asked for
  // ---------------------------------------------------------------------------------------------

  /** What an acquire hands out is filed under the key asked for. */
  lemma AcquireServesKey(s: State, e: Event, s': State)
    requires Next(s, e, s') && e.Acquire? && e.request in s'.holding
    ensures s'.holding[e.request] < |s'.records| && s'.records[s'.holding[e.request]].key == e.key
  {
    hide LeastRecentlyUsed, TryAcquire;
  }

  lemma HoldingKept(s: State, e: Event, s': State, t: nat)
    requires Next(s, e, s') && t in s.holding && !(e.Release? && e.request == t)
    ensures t in s'.holding && s'.holding[t] == s.holding[t]
  {
    hide LeastRecentlyUsed, Count, Listening, Stale;
  }

  /**
   From the acquire of request `t` for key `k` until its release, `t` holds one and the same entry, and
   that entry was started for `k`: no other subject's process, nor one started with another
   configuration, ever serves it.
   */
  lemma {:induction false} ServedUnderItsKey(states: seq<State>, events: seq<Event>, i: nat, j: nat, t: nat)
    requires Run(states, events) && i < j < |states|
    requires events[i].Acquire? && events[i].request == t && t in states[i + 1].holding
    requires forall n :: i < n < j ==> !(events[n].Release? && events[n].request == t)
    ensures t in states[j].holding && states[j].holding[t] == states[i + 1].holding[t] < |states[j].records|
    ensures states[j].records[states[j].holding[t]].key == events[i].key
    decreases j
  {
    hide Enabled, Step, Indexed;
    assert Next(states[j - 1], events[j - 1], states[j]);
    if j == i + 1 {
      AcquireServesKey(states[i], events[i], states[j]);
    } else {
      ServedUnderItsKey(states, events, i, j - 1, t);
      HoldingKept(states[j - 1], events[j - 1], states[j], t);
      StepIsLater(states[j - 1], events[j - 1], states[j]);
    }
  }

  // ---------------------------------------------------------------------------------------------
  // Bookkeeping
  // ---------------------------------------------------------------------------------------------

  lemma Bookkeeping(states: seq<State>, events: seq<Event>, i: nat)
    requires Run(states, events) && i < |states|
    ensures var s := states[i];
            && |s.entries| <= AtLeastZero(s.limits.maxProcesses)
            && (forall subject :: Count(s.perSubject, subject) == |KeysOf(s.entries, subject)| <= AtLeastZero(s.limits.maxPerSubject))
            && (forall subject :: subject in s.perSubject ==> s.perSubject[subject] > 0)
            && (forall id :: 0 <= id < |s.records| ==> s.records[id].inflight == |HoldersOf(s.holding, id)|)
            && (!s.closed ==> s.stats.created == |s.entries| + s.stats.evicted + s.stats.idleExpired)
  {
    RunInv(states, events, i);
  }

  lemma IdleMeansUnheld(s: State, id: nat)
    requires InflightAgrees(s.records, s.holding) && Current(s.records, s.entries, id)
    ensures Idle(s, id) <==> HoldersOf(s.holding, id) == {}
  {
    assert s.records[id].inflight == |HoldersOf(s.holding, id)|;
  }

  /** Only a full pool loses an entry to an acquire, and it loses the victim of the scan. */
  lemma LostIsVictim(s: State, e: Event, s': State, gone: nat)
    requires Next(s, e, s') && e.Acquire?
    requires Current(s.records, s.entries, gone) && !Current(s'.records, s'.entries, gone)
    ensures NeedsRoom(s, e.key) && e.victim == Some(gone)
    ensures s' == Insert(Evict(s, gone), e.key, e.now).(holding := s'.holding)
  {
    hide LeastRecentlyUsed, Count, Listening;
    if NeedsRoom(s, e.key) && e.victim.Some? {
      VictimIsIdle(s, e.victim.value);
    }
  }

  lemma EvictThenInsertEntries(s: State, k: Key, now: int, gone: nat)
    requires Indexed(s) && Current(s.records, s.entries, gone) && k !in s.entries
    ensures var s' := Insert(Evict(s, gone), k, now);
            && |s'.entries| == |s.entries| && gone in s'.doomed
            && forall id: nat :: Current(s.records, s.entries, id) && id != gone ==> Current(s'.records, s'.entries, id)
  {
    hide Count, Listening;
    KeysOfRemoved(s.entries, s.records[gone].key, k.subject);
    CardinalityGrows((s.entries - {s.records[gone].key}).Keys, k, Insert(Evict(s, gone), k, now).entries.Keys);
  }

  /**
   What one acquire removes: nothing, unless the pool was full and the key unknown, and then exactly
   one entry, which was serving nobody and had gone unused for longest.
   */
  lemma OneEvictionWhenFull(states: seq<State>, events: seq<Event>, i: nat, gone: nat)
    requires Run(states, events) && i < |events| && events[i].Acquire?
    requires Current(states[i].records, states[i].entries, gone)
    requires !Current(states[i + 1].records, states[i + 1].entries, gone)
    ensures var s := states[i]; var s' := states[i + 1];
            && events[i].key !in s.entries && |s.entries| == s.limits.maxProcesses
            && HoldersOf(s.holding, gone) == {}
            && (forall id: nat :: Current(s.records, s.entries, id) && HoldersOf(s.holding, id) == {}
                             ==> s.records[gone].lastUsed <= s.records[id].lastUsed)
            && (forall id: nat :: Current(s.records, s.entries, id) && id != gone ==> Current(s'.records, s'.entries, id))
            && gone in s'.doomed && |s'.entries| == |s.entries|
  {
    var s, e := states[i], events[i];
    RunInv(states, events, i);
    hide Step, Census, Accounted, HeldInPool, Subscribed, Tidy, ClockAhead, Idle, InflightAgrees;
    assert Next(s, e, states[i + 1]);
    LostIsVictim(s, e, states[i + 1], gone);
    EvictThenInsertEntries(s, e.key, e.now, gone);
    forall id: nat | Current(s.records, s.entries, id) ensures Idle(s, id) <==> HoldersOf(s.holding, id) == {} {
      IdleMeansUnheld(s, id);
    }
  }

  /** An acquire is refused only for the reasons it gives. */
  lemma RefusedOnlyWhenExhausted(states: seq<State>, events: seq<Event>, i: nat)
    requires Run(states, events) && i < |events| && events[i].Acquire?
    ensures var s := states[i]; var k := events[i].key;
            events[i].request !in states[i + 1].holding <==>
              || s.closed
              || (k !in s.entries && |KeysOf(s.entries, k.subject)| >= s.limits.maxPerSubject)
              || (k !in s.entries && |s.entries| >= s.limits.maxProcesses
                  && forall id: nat :: Current(s.records, s.entries, id) ==> HoldersOf(s.holding, id) != {})
  {
    var s, e := states[i], events[i];
    RunInv(states, events, i);
    assert Next(s, e, states[i + 1]);
    assert Count(s.perSubject, e.key.subject) == |KeysOf(s.entries, e.key.subject)|;
    forall id: nat | Current(s.records, s.entries, id) ensures Idle(s, id) <==> HoldersOf(s.holding, id) == {} {
      IdleMeansUnheld(s, id);
    }
  }

  lemma RefusalHasCause(s: State, e: Event, r: Refusal)
    requires Indexed(s) && Enabled(s, e) && e.Acquire?
    ensures NeedsRoom(s, e.key) && e.victim.Some? ==> e.victim.value < |s.records|
    ensures TryAcquire(s, e.key, e.now, e.victim).1 == Err(r) <==> Cause(s, e.key, r)
  {
  }

  /**
   The refusal an acquire gives is the true one, and it gives none without cause: the pool is closed, or the
   subject has as many entries as it may, or the pool is full and every entry is serving somebody.
   */
  lemma RefusalIsTrue(states: seq<State>, events: seq<Event>, i: nat, r: Refusal)
    requires Run(states, events) && i < |events| && events[i].Acquire?
    ensures var s, e := states[i], events[i];
            Indexed(s) && (NeedsRoom(s, e.key) && e.victim.Some? ==> e.victim.value < |s.records|)
    ensures var s, e := states[i], events[i];
            TryAcquire(s, e.key, e.now, e.victim).1 == Err(r) <==>
            match r
            case PoolClosed => s.closed
            case SubjectQuotaExhausted => !s.closed && e.key !in s.entries && |KeysOf(s.entries, e.key.subject)| >= s.limits.maxPerSubject
            case PoolExhausted =>
              && !s.closed && e.key !in s.entries && |KeysOf(s.entries, e.key.subject)| < s.limits.maxPerSubject
              && |s.entries| >= s.limits.maxProcesses
              && forall id: nat :: Current(s.records, s.entries, id) ==> HoldersOf(s.holding, id) != {}
  {
    var s, e := states[i], events[i];
    RunInv(states, events, i);
    assert Next(s, e, states[i + 1]);
    RefusalHasCause(s, e, r);
    hide TryAcquire, Step, Enabled;
    assert Count(s.perSubject, e.key.subject) == |KeysOf(s.entries, e.key.subject)|;
    forall id: nat | Current(s.records, s.entries, id) ensures Idle(s, id) <==> HoldersOf(s.holding, id) == {} {
      IdleMeansUnheld(s, id);
    }
  }

  // ---------------------------------------------------------------------------------------------
  // Subscriptions
  // ---------------------------------------------------------------------------------------------

  lemma IdsIssued(s: State, k: Key, id: nat)
    requires Tidy(s.listeners, s.nextListen)
    ensures id in Listening(s, k) ==> id < s.nextListen
  {
  }

  /** Only subscribing under a new identifier and unsubscribing that very one change who listens to a key. */
  lemma ListeningStep(s: State, e: Event, s': State, k: Key, id: nat)
    requires Next(s, e, s') && Tidy(s.listeners, s.nextListen)
    ensures s.nextListen <= s'.nextListen && (e.Subscribe? ==> s'.nextListen == s.nextListen + 1)
    ensures id in Listening(s', k) <==>
              (id in Listening(s, k) && e != Unsubscribe(k, id)) || (e.Subscribe? && e.key == k && id == s.nextListen)
    ensures id in Listening(s, k) && id in Listening(s', k) ==> Listening(s', k)[id] == Listening(s, k)[id]
  {
    hide LeastRecentlyUsed, Count, Indexed, Tidy;
    IdsIssued(s, k, id);
    match e
    case Subscribe(_, _) =>
    case Unsubscribe(key, _) =>
      hide Listening;
      RemoveListening(s, key, e.id);
    case _ => ListenersUntouched(s, e);
  }

  lemma ListenersUntouched(s: State, e: Event)
    requires Indexed(s) && Enabled(s, e) && !e.Subscribe? && !e.Unsubscribe?
    ensures Step(s, e).listeners == s.listeners && Step(s, e).nextListen == s.nextListen
  {
    hide LeastRecentlyUsed, TryAcquire;
  }

  lemma CurrentHears(s: State, k: Key)
    requires Inv(s) && k in s.entries
    ensures s.entries[k] < |s.records| && s.records[s.entries[k]].subs == Listening(s, k)
  {
  }

  /**
   In every reachable state the backend of each entry runs exactly the callbacks registered for its key, under
   the pool's identifiers; no key is kept without a listener, and no identifier is registered that was not issued.
   */
  lemma ExactlyTheListenersHear(states: seq<State>, events: seq<Event>, i: nat)
    requires Run(states, events) && i < |states|
    ensures var s := states[i];
            && (forall k :: k in s.entries ==> s.entries[k] < |s.records| && s.records[s.entries[k]].subs == Listening(s, k))
            && (forall k :: k in s.listeners ==> s.listeners[k] != map[])
            && (forall k, id :: k in s.listeners && id in s.listeners[k] ==> id < s.nextListen)
  {
    RunInv(states, events, i);
    hide Next, InflightAgrees, Census, Accounted, HeldInPool, Listening;
    var s := states[i];
    forall k | k in s.entries ensures s.entries[k] < |s.records| && s.records[s.entries[k]].subs == Listening(s, k) {
      CurrentHears(s, k);
    }
  }

  /**
   A subscription outlives the processes it listens to: from `subscribe` until its own release, through
   any evictions, expiries and new starts, it stays registered, and whatever backend serves the key
   runs its callback.
   */
  lemma {:induction false} SubscriptionSurvives(states: seq<State>, events: seq<Event>, i: nat, j: nat, k: Key, f: Callback)
    requires Run(states, events) && i < j < |states| && events[i] == Subscribe(k, f)
    requires forall n :: i < n < j ==> events[n] != Unsubscribe(k, states[i].nextListen)
    ensures var id := states[i].nextListen; var s := states[j];
            && id < s.nextListen
            && id in Listening(s, k) && Listening(s, k)[id] == f
            && (k in s.entries ==> s.entries[k] < |s.records| && (id in s.records[s.entries[k]].subs
                                   && s.records[s.entries[k]].subs[id] == f))
    decreases j
  {
    hide Enabled, Step, Indexed, Inv;
    var id := states[i].nextListen;
    assert Next(states[j - 1], events[j - 1], states[j]);
    RunTidy(states, events, j - 1);
    ListeningStep(states[j - 1], events[j - 1], states[j], k, id);
    if j == i + 1 {
      FirstHears(states[i], k, f, states[j]);
    } else {
      SubscriptionSurvives(states, events, i, j - 1, k, f);
    }
    RunInv(states, events, j);
    if k in states[j].entries {
      CurrentHears(states[j], k);
    }
  }

  lemma FirstHears(s: State, k: Key, f: Callback, s': State)
    requires Next(s, Subscribe(k, f), s')
    ensures s.nextListen in Listening(s', k) && Listening(s', k)[s.nextListen] == f
  {
  }

  lemma RunTidy(states: seq<State>, events: seq<Event>, i: nat)
    requires Run(states, events) && i < |states|
    ensures Tidy(states[i].listeners, states[i].nextListen)
  {
    hide Next, Tidy;
    RunInv(states, events, i);
  }

  /**
   Once released a subscription is registered nowhere and runs on no backend that serves its key, however often
   it is released and whatever is subscribed later, because identifiers are not reused. Of backends the pool has
   let go of, `PoolReleases` speaks.
   */
  lemma {:induction false} ReleasedIsUnregistered(states: seq<State>, events: seq<Event>, i: nat, j: nat, k: Key, id: nat)
    requires Run(states, events) && i < j < |states|
    requires events[i] == Unsubscribe(k, id) && id < states[i].nextListen
    ensures id < states[j].nextListen && id !in Listening(states[j], k)
    ensures k in states[j].entries ==> states[j].entries[k] < |states[j].records| && id !in states[j].records[states[j].entries[k]].subs
    decreases j
  {
    hide Enabled, Step, Indexed, Inv;
    assert Next(states[j - 1], events[j - 1], states[j]);
    RunTidy(states, events, j - 1);
    ListeningStep(states[j - 1], events[j - 1], states[j], k, id);
    if j > i + 1 {
      ReleasedIsUnregistered(states, events, i, j - 1, k, id);
    }
    RunInv(states, events, j);
    if k in states[j].entries {
      CurrentHears(states[j], k);
    }
  }
}
