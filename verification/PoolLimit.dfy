/** Exactly when an acquire takes the backends running past the limit. */
module PoolLimit {
  import opened Prelude
  import opened PoolSpec
  import opened PoolInvariant
  import opened PoolRuns
  import opened PoolBounds
  import PoolHistory

  /** The step gives a request an entry that had to be started. */
  predicate Starts(s: State, e: Event, s': State) {
    e.Acquire? && e.request in s'.holding && e.key !in s.entries
  }

  lemma StartAdds(s: State, e: Event, s': State)
    requires Next(s, e, s') && Starts(s, e, s')
    ensures |s'.records| == |s.records| + 1 && s'.records[|s.records|].closes == 0
    ensures forall n :: 0 <= n < |s.records| ==> s'.records[n].closes == s.records[n].closes
  {
    hide LeastRecentlyUsed, Count, Listening, Indexed;
    if NeedsRoom(s, e.key) && e.victim.Some? {
      PoolHistory.AcquireEvicts(s, e, s');
      PoolHistory.VictimOfScan(s, e, s');
    }
  }

  lemma ReuseKeepsCloses(s: State, e: Event, s': State)
    requires Next(s, e, s') && e.Acquire? && !Starts(s, e, s')
    ensures |s'.records| == |s.records|
    ensures forall n :: 0 <= n < |s.records| ==> s'.records[n].closes == s.records[n].closes
  {
    hide LeastRecentlyUsed, Count, Listening;
  }

  lemma OthersClose(s: State, e: Event, s': State)
    requires Next(s, e, s') && !e.Acquire?
    ensures |s'.records| == |s.records|
    ensures forall n :: 0 <= n < |s.records| ==> s'.records[n].closes >= s.records[n].closes
  {
    hide LeastRecentlyUsed, Count, Listening, Stale, TryAcquire;
  }

  /** Only starting an entry makes a backend running that was not. */
  lemma UnclosedStep(s: State, e: Event, s': State)
    requires Next(s, e, s') && Accounted(s.records, s.entries, s.doomed) && Accounted(s'.records, s'.entries, s'.doomed)
    ensures |Unclosed(s')| <= |Unclosed(s)| + 1
    ensures |Unclosed(s')| > |Unclosed(s)| <==> Starts(s, e, s')
  {
    hide Next;
    if Starts(s, e, s') {
      StartAdds(s, e, s');
      CardinalityGrows(Unclosed(s), |s.records|, Unclosed(s'));
    } else {
      if e.Acquire? {
        ReuseKeepsCloses(s, e, s');
      } else {
        OthersClose(s, e, s');
      }
      SubsetCardinality(Unclosed(s'), Unclosed(s));
    }
  }

  lemma RunAccounted(states: seq<State>, events: seq<Event>, i: nat)
    requires Run(states, events) && i < |states|
    ensures Accounted(states[i].records, states[i].entries, states[i].doomed)
  {
    hide Next;
    RunInv(states, events, i);
  }

  /** A step takes the backends running past the limit exactly if it starts an entry while as many are running as may. */
  lemma LimitBrokenExactly(states: seq<State>, events: seq<Event>, i: nat)
    requires Run(states, events) && i < |events| && |Unclosed(states[i])| <= states[i].limits.maxProcesses
    ensures |Unclosed(states[i + 1])| > states[i + 1].limits.maxProcesses <==>
            Starts(states[i], events[i], states[i + 1]) && |Unclosed(states[i])| == states[i].limits.maxProcesses
  {
    hide Next, Unclosed, Starts, Accounted;
    assert Next(states[i], events[i], states[i + 1]);
    RunAccounted(states, events, i);
    RunAccounted(states, events, i + 1);
    LimitsFixed(states[i], events[i], states[i + 1]);
    UnclosedStep(states[i], events[i], states[i + 1]);
  }

  /** In the first `n` steps no more backends were running than may be. */
  ghost predicate Bounded(states: seq<State>, n: nat)
    requires n < |states|
  {
    forall i :: 0 <= i <= n ==> |Unclosed(states[i])| <= states[0].limits.maxProcesses
  }

  /** In the first `n` steps no entry was started while as many backends were running as may be. */
  ghost predicate StartedWithRoom(states: seq<State>, events: seq<Event>, n: nat)
    requires |states| == |events| + 1 && n <= |events|
  {
    forall i {:trigger events[i]} :: 0 <= i < n && Starts(states[i], events[i], states[i + 1]) ==>
      |Unclosed(states[i])| < states[0].limits.maxProcesses
  }

  lemma OneStepMore(states: seq<State>, events: seq<Event>, n: nat)
    requires |states| == |events| + 1 && 0 < n <= |events|
    ensures Bounded(states, n) <==> Bounded(states, n - 1) && |Unclosed(states[n])| <= states[0].limits.maxProcesses
    ensures StartedWithRoom(states, events, n) <==>
            StartedWithRoom(states, events, n - 1)
            && (Starts(states[n - 1], events[n - 1], states[n]) ==> |Unclosed(states[n - 1])| < states[0].limits.maxProcesses)
  {
    hide Unclosed, Starts;
    assert events[n - 1] == events[n - 1];
  }

  lemma NoneAtFirst(states: seq<State>, events: seq<Event>)
    requires Run(states, events) && states[0].limits.maxProcesses >= 0
    ensures Bounded(states, 0) && StartedWithRoom(states, events, 0)
  {
    assert Unclosed(states[0]) == {};
  }

  /**
   Over a whole run `MaxProcesses` bounds the backends running exactly if no entry is ever started while as many
   are running as may be, which can be told before each acquire.
   */
  lemma {:induction false} LimitHeldExactly(states: seq<State>, events: seq<Event>, n: nat)
    requires Run(states, events) && n < |states| && states[0].limits.maxProcesses >= 0
    ensures states[n].limits == states[0].limits
    ensures Bounded(states, n) <==> StartedWithRoom(states, events, n)
  {
    hide Next, Unclosed, Starts, Bounded, StartedWithRoom;
    if n == 0 {
      NoneAtFirst(states, events);
    } else {
      assert Next(states[n - 1], events[n - 1], states[n]);
      LimitHeldExactly(states, events, n - 1);
      LimitsFixed(states[n - 1], events[n - 1], states[n]);
      OneStepMore(states, events, n);
      if Bounded(states, n - 1) {
        BoundedAt(states, n - 1);
        LimitBrokenExactly(states, events, n - 1);
      }
    }
  }

  lemma BoundedAt(states: seq<State>, n: nat)
    requires n < |states| && Bounded(states, n)
    ensures |Unclosed(states[n])| <= states[0].limits.maxProcesses
  {
  }
}
