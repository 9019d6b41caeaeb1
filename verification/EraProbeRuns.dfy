/** What the era policy promises over whole runs of one connection. */
module EraProbeRuns {
  import opened Prelude
  import opened EraProbeSpec

  lemma StepKeeps(s: State, e: Event)
    requires Inv(s) && Enabled(s, e)
    ensures Inv(Step(s, e))
  {
    hide Numbered, Settled, Watched, Replied, Grounded, Pinned;
    StepKeepsNumbered(s, e);
    StepKeepsSettled(s, e);
    StepKeepsWatched(s, e);
    StepKeepsReplied(s, e);
    StepKeepsGrounded(s, e);
    StepKeepsPinned(s, e);
  }

  lemma InitialInv(era: Era)
    ensures Inv(Initial(era))
  {
  }

  lemma {:induction false} RunInv(states: seq<State>, events: seq<Event>, i: nat)
    requires Run(states, events) && i < |states|
    ensures Inv(states[i])
  {
    hide Inv;
    if i == 0 {
      InitialInv(states[0].era);
    } else {
      RunInv(states, events, i - 1);
      StepKeeps(states[i - 1], events[i - 1]);
    }
  }

  /** What a step never takes back. */
  lemma StepOnlyAdds(s: State, e: Event)
    requires Enabled(s, e)
    ensures var r := Step(s, e);
            && r.era == s.era && s.verdicts <= r.verdicts && s.wire <= r.wire && s.delivered <= r.delivered
            && s.refused <= r.refused && (s.closing ==> r.closing)
  {
  }

  lemma {:induction false} RunOnlyAdds(states: seq<State>, events: seq<Event>, i: nat, j: nat)
    requires Run(states, events) && i <= j < |states|
    ensures states[j].era == states[i].era && states[i].verdicts <= states[j].verdicts
    ensures states[i].refused <= states[j].refused
    decreases j - i
  {
    hide Step, Enabled;
    if i < j {
      StepOnlyAdds(states[i], events[i]);
      RunOnlyAdds(states, events, i + 1, j);
    }
  }

  // ---------------------------------------------------------------------------------------------
  // One verdict per probe
  // ---------------------------------------------------------------------------------------------

  /** Each probe is settled at most once, by answer or by deadline and never by both, under the identifier it was sent with. */
  lemma OneVerdictPerProbe(states: seq<State>, events: seq<Event>, i: nat, a: nat, b: nat)
    requires Run(states, events) && i < |states| && a < b < |states[i].verdicts|
    ensures states[i].verdicts[a].gen != states[i].verdicts[b].gen
    ensures states[i].verdicts[a].id != states[i].verdicts[b].id
  {
    RunInv(states, events, i);
  }

  /** Step `n` is what settled `v`: the answer under the probe's identifier, or the deadline of its own generation, while it was waited for. */
  ghost predicate SettledAt(states: seq<State>, events: seq<Event>, n: nat, v: Verdict)
    requires |states| == |events| + 1 && n < |events|
  {
    var s := states[n];
    && s.probe.probing && s.probe.gen == v.gen && s.probe.id == v.id
    && match v
       case Answered(_, _, ok) => events[n] == Inspect && s.reader == Holding(v.id, ok)
       case TimedOut(_, _) => events[n] == Judge && s.watcher == Firing(v.gen)
  }

  lemma NewVerdict(s: State, e: Event, v: Verdict)
    requires Enabled(s, e) && v in Step(s, e).verdicts && v !in s.verdicts
    ensures s.probe.probing && s.probe.gen == v.gen && s.probe.id == v.id
    ensures v.Answered? ==> e == Inspect && s.reader == Holding(v.id, v.ok)
    ensures v.TimedOut? ==> e == Judge && s.watcher == Firing(v.gen)
  {
  }

  lemma OneMoreVerdict(states: seq<State>, events: seq<Event>, n: nat, v: Verdict)
    requires Run(states, events) && n < |events| && v in states[n + 1].verdicts && v !in states[n].verdicts
    ensures SettledAt(states, events, n, v)
  {
    hide Step, Enabled;
    NewVerdict(states[n], events[n], v);
  }

  lemma NothingSettled(states: seq<State>, events: seq<Event>)
    requires Run(states, events)
    ensures states[0].verdicts == []
  {
  }

  /** Every verdict was caused so: in particular a stale timer never expires a later probe, nor an old answer settle it. */
  lemma {:induction false} VerdictHasItsCause(states: seq<State>, events: seq<Event>, i: nat, v: Verdict)
    requires Run(states, events) && i < |states| && v in states[i].verdicts
    ensures exists n :: 0 <= n < i && SettledAt(states, events, n, v)
  {
    hide SettledAt, Step, Enabled;
    NothingSettled(states, events);
    if v in states[i - 1].verdicts {
      VerdictHasItsCause(states, events, i - 1, v);
    } else {
      OneMoreVerdict(states, events, i - 1, v);
    }
  }

  /** An answer that comes after the deadline of its probe changes nothing, however many probes have been sent since. */
  lemma LateAnswerChangesNothing(states: seq<State>, events: seq<Event>, i: nat, j: nat, v: Verdict)
    requires Run(states, events) && i <= j < |events| && v in states[i].verdicts && v.TimedOut?
    requires events[j] == Inspect && states[j].reader.Holding? && states[j].reader.id == v.id
    ensures states[j + 1].probe == states[j].probe && states[j + 1].verdicts == states[j].verdicts
  {
    RunInv(states, events, j);
    RunOnlyAdds(states, events, i, j);
    if states[j].probe.probing {
      WaitedForIsUnsettled(states[j]);
    }
  }

  /**
   A settled probe is answered, by what the backend said or else by an error: its answer has been given to the client,
   or is in the channel to it, or with the watcher that is putting it there; only a connection being closed may drop one.
   */
  lemma EveryVerdictIsReplied(states: seq<State>, events: seq<Event>, i: nat, v: Verdict)
    requires Run(states, events) && i < |states| && v in states[i].verdicts
    ensures var s := states[i];
            || Response(v.id, v.Answered? && v.ok) in s.delivered
            || (v.TimedOut? && (s.injected == Some(v.id) || s.watcher == Injecting(v.id) || s.closing))
  {
    RunInv(states, events, i);
  }

  /**
   No probe waits without a deadline: while a probe is being waited for, its own deadline is with
   the writer, in the channel to the watcher, running, or being judged, until the connection is closed.
   */
  lemma NoProbeForgotten(states: seq<State>, events: seq<Event>, i: nat)
    requires Run(states, events) && i < |states| && states[i].probe.probing && !states[i].closing
    ensures var s := states[i];
            || (s.writer.Arming? && s.writer.gen == s.probe.gen)
            || s.armed == Some(s.probe.gen) || s.timer == Some(s.probe.gen) || s.watcher == Firing(s.probe.gen)
  {
    RunInv(states, events, i);
  }

  // ---------------------------------------------------------------------------------------------
  // Late answers
  // ---------------------------------------------------------------------------------------------

  /** A probe that is being waited for has not expired. */
  lemma NeverBoth(s: State)
    requires Inv(s)
    ensures !(s.probe.probing && s.probe.expired)
  {
  }

  /**
   The branch that would withhold a late answer is never taken: in every reachable state every response
   of the backend is given to the client.
   */
  lemma NothingIsWithheld(states: seq<State>, events: seq<Event>, i: nat)
    requires Run(states, events) && i < |events| && events[i] == Inspect
    ensures !(states[i].probe.probing && states[i].probe.expired)
    ensures states[i + 1].delivered == states[i].delivered + [Response(states[i].reader.id, states[i].reader.ok)]
  {
    RunInv(states, events, i);
  }

  ghost predicate Reached(s: State) {
    exists states: seq<State>, events: seq<Event> :: Run(states, events) && states[|events|] == s
  }

  lemma InitialIsReached(era: Era)
    ensures Reached(Initial(era))
  {
    assert Run([Initial(era)], []);
  }

  lemma NextIsReached(s: State, e: Event)
    requires Reached(s) && Enabled(s, e)
    ensures Reached(Step(s, e))
  {
    var states, events :| Run(states, events) && states[|events|] == s;
    assert Run(states + [Step(s, e)], events + [e]);
  }

  /** The client's probe, under identifier 0, has been written and its deadline is with the watcher's channel. */
  const PROBE_SENT := Initial(Auto).(probe := Probe(0, 1, true, false, None, false), used := {0}, asked := [0],
                                    wire := [Discover(0)], armed := Some(1))

  lemma ProbeIsSent()
    ensures Reached(PROBE_SENT)
  {
    hide Reached;
    InitialIsReached(Auto);
    var s1 := Initial(Auto).(probe := PROBE_SENT.probe, writer := Arming(1, 0), used := {0}, asked := [0]);
    assert Step(Initial(Auto), WriteDiscover(0)) == s1;
    NextIsReached(Initial(Auto), WriteDiscover(0));
    var s2 := s1.(armed := Some(1), writer := Writing(Discover(0)));
    assert Step(s1, SendArm) == s2;
    NextIsReached(s1, SendArm);
    NextIsReached(s2, Wire);
    assert Step(s2, Wire).wire == [Discover(0)];
    assert Step(s2, Wire) == PROBE_SENT;
  }

  /** The same once the deadline has passed and the client has been answered in the backend's place. */
  const REFUSED := PROBE_SENT.(probe := Probe(0, 1, false, true, None, false), armed := None,
                              verdicts := [TimedOut(1, 0)], delivered := [Response(0, false)])

  lemma SilenceIsRefused()
    ensures Reached(REFUSED)
  {
    ProbeIsSent();
    hide Reached;
    NextIsReached(PROBE_SENT, TakeArm);
    var s1 := PROBE_SENT.(armed := None, timer := Some(1));
    NextIsReached(s1, Fire);
    var s2 := PROBE_SENT.(armed := None, watcher := Firing(1));
    assert Step(s1, Fire) == s2;
    NextIsReached(s2, Judge);
    var s3 := REFUSED.(delivered := [], watcher := Injecting(0));
    assert Step(s2, Judge) == s3;
    NextIsReached(s3, Inject);
    var s4 := REFUSED.(delivered := [], injected := Some(0));
    assert Step(s3, Inject) == s4;
    NextIsReached(s4, ReadInjected);
    assert Step(s4, ReadInjected).delivered == [Response(0, false)];
    assert Step(s4, ReadInjected) == REFUSED;
  }

  /** A late answer is therefore forwarded: one probe, two responses under its identifier. */
  lemma LateAnswerIsForwarded()
    ensures exists s :: Reached(s) && s.verdicts == [TimedOut(1, 0)] && s.delivered == [Response(0, false), Response(0, true)]
  {
    SilenceIsRefused();
    hide Reached;
    NextIsReached(REFUSED, Arrive(0, true));
    var s1 := REFUSED.(reader := Holding(0, true));
    NextIsReached(s1, Inspect);
    assert Step(s1, Inspect).delivered == [Response(0, false), Response(0, true)];
  }

  // ---------------------------------------------------------------------------------------------
  // Pins
  // ---------------------------------------------------------------------------------------------

  /** Step `n` is a reason a backend pinned to the modern era is not modern: a fallback attempted, a probe refused or timed out. */
  predicate Mismatches(states: seq<State>, events: seq<Event>, n: nat)
    requires |states| == |events| + 1 && n < |events|
  {
    || events[n].WriteInitialize?
    || (events[n] == Inspect && states[n + 1].verdicts != states[n].verdicts && states[n].reader.Holding? && !states[n].reader.ok)
    || (events[n] == Judge && states[n + 1].verdicts != states[n].verdicts)
  }

  lemma MismatchStep(s: State, e: Event)
    requires Inv(s) && Enabled(s, e) && s.era == Modern
    ensures Step(s, e).probe.mismatch <==>
              || s.probe.mismatch
              || e.WriteInitialize?
              || (e == Inspect && Step(s, e).verdicts != s.verdicts && !s.reader.ok)
              || (e == Judge && Step(s, e).verdicts != s.verdicts)
  {
    hide Settled, Watched, Replied, Grounded, Pinned;
  }

  /**
   Pinned modern, `initialize` is never written and the era never legacy, and a mismatch is on record exactly
   when a fallback was attempted, the probe was answered with an error, or its deadline passed.
   */
  lemma {:induction false} PinnedModern(states: seq<State>, events: seq<Event>, i: nat)
    requires Run(states, events) && i < |states| && states[0].era == Modern
    ensures forall m :: m in states[i].wire ==> m.Discover?
    ensures states[i].probe.detected != Some(Legacy)
    ensures states[i].probe.mismatch <==> exists n :: 0 <= n < i && Mismatches(states, events, n)
  {
    hide Inv, Step, Enabled, Mismatches;
    RunInv(states, events, i);
    RunOnlyAdds(states, events, 0, i);
    ModernWire(states[i]);
    if i == 0 {
      assert states[0] == Initial(Modern);
    } else {
      PinnedModern(states, events, i - 1);
      RunInv(states, events, i - 1);
      RunOnlyAdds(states, events, 0, i - 1);
      MismatchHere(states, events, i - 1);
    }
  }

  lemma ModernWire(s: State)
    requires Inv(s) && s.era == Modern
    ensures s.probe.detected != Some(Legacy) && forall m :: m in s.wire ==> m.Discover?
  {
  }

  lemma MismatchHere(states: seq<State>, events: seq<Event>, n: nat)
    requires Run(states, events) && n < |events| && Inv(states[n]) && states[n].era == Modern
    ensures states[n + 1].probe.mismatch <==> states[n].probe.mismatch || Mismatches(states, events, n)
  {
    MismatchStep(states[n], events[n]);
  }

  lemma LegacyStep(s: State, e: Event)
    requires Inv(s) && Enabled(s, e) && s.era == Legacy
    ensures s.probe.detected == Some(Legacy) || e.WriteDiscover? || e == Commit ==> Step(s, e).probe.detected == Some(Legacy)
  {
    hide Settled, Watched, Replied, Grounded;
  }

  /** Pinned legacy, the era is legacy from the first probe or fallback on. */
  lemma {:induction false} LegacyStays(states: seq<State>, events: seq<Event>, i: nat, j: nat)
    requires Run(states, events) && i < j < |states| && states[0].era == Legacy && (events[i].WriteDiscover? || events[i] == Commit)
    ensures states[j].probe.detected == Some(Legacy)
    decreases j
  {
    hide Inv;
    RunInv(states, events, j - 1);
    RunOnlyAdds(states, events, 0, j - 1);
    LegacyStep(states[j - 1], events[j - 1]);
    hide Step, Enabled;
    if j > i + 1 {
      LegacyStays(states, events, i, j - 1);
    }
  }

  /**
   Pinned legacy, `server/discover` is never written, yet every probe the client wrote is answered, with an error: its
   refusal has been given to the client, is in the channel to it, or with the writer that is putting it
   there, unless the client gave the write up.
   */
  lemma PinnedLegacy(states: seq<State>, events: seq<Event>, i: nat, j: nat)
    requires Run(states, events) && i < j < |states| && states[0].era == Legacy && events[i].WriteDiscover?
    ensures forall m :: m in states[j].wire ==> m.Initialize?
    ensures var s := states[j]; var id := events[i].id;
            Response(id, false) in s.delivered || s.injected == Some(id) || s.writer == Refusing(id) || id in s.abandoned
  {
    RunOnlyAdds(states, events, 0, i);
    RunOnlyAdds(states, events, i, i + 1);
    assert events[i].id in states[i + 1].refused;
    RunOnlyAdds(states, events, i + 1, j);
    RunInv(states, events, j);
  }

  lemma SameGenSameVerdict(probing: bool, asked: seq<nat>, verdicts: seq<Verdict>, u: Verdict, v: Verdict)
    requires Settled(probing, asked, verdicts) && u in verdicts && v in verdicts && u.gen == v.gen
    ensures u == v
  {
    var a :| 0 <= a < |verdicts| && verdicts[a] == u;
    var b :| 0 <= b < |verdicts| && verdicts[b] == v;
  }

  /** The era is modern only after an answer without an error that beat its deadline. */
  lemma ModernWasAnswered(states: seq<State>, events: seq<Event>, i: nat)
    requires Run(states, events) && i < |states| && states[i].probe.detected == Some(Modern)
    ensures exists v :: v in states[i].verdicts && v.Answered? && v.ok
                        && forall u :: u in states[i].verdicts && u.gen == v.gen ==> u == v
  {
    RunInv(states, events, i);
    var vs := states[i].verdicts;
    var v :| v in vs && v.Answered? && v.ok;
    forall u | u in vs && u.gen == v.gen ensures u == v {
      SameGenSameVerdict(states[i].probe.probing, states[i].asked, vs, u, v);
    }
  }

  // ---------------------------------------------------------------------------------------------
  // The last handshake
  // ---------------------------------------------------------------------------------------------

  /** The legacy handshake is being written or was the last one written, and no probe has been begun since. */
  predicate HandshakingLegacy(s: State) {
    || (s.writer.Writing? && s.writer.m.Initialize?)
    || ((s.writer == Idle || s.writer.Refusing? || s.writer.Committing?) && s.wire != [] && s.wire[|s.wire| - 1].Initialize?)
  }

  /**
   An answer that is still to come, or is already with the reader, can make the era modern: a probe is being waited
   for, and the reader does not hold an error in answer to it.
   */
  predicate Open(s: State) {
    s.probe.probing && s.reader != Holding(s.probe.id, false)
  }

  predicate Decided(s: State) {
    && (HandshakingLegacy(s) ==> s.probe.detected == Some(Legacy))
    && (HandshakingLegacy(s) || s.writer.Committing? ==> !Open(s))
  }

  lemma StepDecides(s: State, e: Event)
    requires Inv(s) && Enabled(s, e) && Decided(s)
    requires e.WriteInitialize? ==> !Open(s)
    ensures Decided(Step(s, e))
  {
    hide Settled, Watched, Replied;
  }

  /** A run in which the client falls back only while no answer can make the era modern. */
  ghost predicate FallsBackSettled(states: seq<State>, events: seq<Event>) {
    && Run(states, events)
    && forall i {:trigger events[i]} :: 0 <= i < |events| && events[i].WriteInitialize? ==> !Open(states[i])
  }

  lemma {:induction false} RunDecides(states: seq<State>, events: seq<Event>, i: nat)
    requires FallsBackSettled(states, events) && i < |states|
    ensures Decided(states[i])
  {
    if i > 0 {
      RunDecides(states, events, i - 1);
      RunInv(states, events, i - 1);
      hide Inv, Decided, Step, Enabled, Open;
      StepDecides(states[i - 1], events[i - 1]);
    }
  }

  /** In such a run, whenever no write is under way and `initialize` was the last handshake written, the era is legacy. */
  lemma LastHandshakeDecides(states: seq<State>, events: seq<Event>, i: nat)
    requires FallsBackSettled(states, events) && i < |states|
    requires states[i].writer == Idle && states[i].wire != [] && states[i].wire[|states[i].wire| - 1].Initialize?
    ensures states[i].probe.detected == Some(Legacy)
  {
    RunDecides(states, events, i);
  }

  /** A client that falls back only once it has been given an answer to its last probe, as the protocol's client does. */
  ghost predicate Patient(states: seq<State>, events: seq<Event>) {
    && Run(states, events)
    && forall i {:trigger events[i]} :: 0 <= i < |events| && events[i].WriteInitialize? ==> LastProbeAnswered(states[i])
  }

  /** Such a client's runs are of that kind. */
  lemma PatienceSuffices(states: seq<State>, events: seq<Event>)
    requires Patient(states, events)
    ensures FallsBackSettled(states, events)
  {
    hide LastProbeAnswered;
    forall i {:trigger events[i]} | 0 <= i < |events| && events[i].WriteInitialize? ensures !Open(states[i]) {
      RunInv(states, events, i);
      AnsweredIsSettled(states[i]);
    }
  }

  lemma AnsweredIsSettled(s: State)
    requires Inv(s) && LastProbeAnswered(s)
    ensures !Open(s)
  {
  }

  // ---------------------------------------------------------------------------------------------
  // Whether a fallback settles the era
  // ---------------------------------------------------------------------------------------------

  /** A run that goes on from another by the client's writing `initialize`, and in which that is the last handshake written. */
  ghost predicate FallsBack(states: seq<State>, events: seq<Event>, id: nat, longer: seq<State>, more: seq<Event>) {
    && |states| == |events| + 1
    && Run(longer, more) && states <= longer && events + [WriteInitialize(id)] <= more
    && longer[|more|].writer == Idle && longer[|more|].wire == states[|events|].wire + [Initialize(id)]
  }

  /** How far the fallback begun in `s` has come in `t`, until another handshake has been written after it. */
  predicate FallenBack(s: State, id: nat, t: State) {
    var written := s.wire + [Initialize(id)];
    || (t.writer == Committing(id) && t.wire == s.wire && !Open(t))
    || (t.writer == Writing(Initialize(id)) && t.wire == s.wire && t.probe.detected == Some(Legacy) && !Open(t))
    || (t.wire == written && (t.writer == Idle || t.writer.Refusing?) && t.probe.detected == Some(Legacy) && !Open(t))
    || (t.wire == written && (t.writer.Arming? || t.writer.Committing? || t.writer.Writing?))
    || |t.wire| > |written|
  }

  lemma FallenBackStep(s: State, id: nat, t: State, e: Event)
    requires Inv(t) && Enabled(t, e) && FallenBack(s, id, t)
    ensures FallenBack(s, id, Step(t, e))
  {
    hide Settled, Watched, Replied, Grounded;
  }

  lemma FallingBack(s: State, id: nat)
    requires Enabled(s, WriteInitialize(id)) && s.era != Modern && !Open(s)
    ensures FallenBack(s, id, Step(s, WriteInitialize(id)))
  {
  }

  lemma {:induction false} StaysFallenBack(s: State, id: nat, longer: seq<State>, more: seq<Event>, n: nat, j: nat)
    requires Run(longer, more) && n < j < |longer| && longer[n] == s && more[n] == WriteInitialize(id)
    requires s.era != Modern && !Open(s)
    ensures FallenBack(s, id, longer[j])
    decreases j
  {
    hide Inv, Step, Enabled, Open, FallenBack;
    if j == n + 1 {
      FallingBack(s, id);
    } else {
      StaysFallenBack(s, id, longer, more, n, j - 1);
      RunInv(longer, more, j - 1);
      FallenBackStep(s, id, longer[j - 1], more[j - 1]);
    }
  }

  lemma FallbackSettles(states: seq<State>, events: seq<Event>, id: nat, longer: seq<State>, more: seq<Event>)
    requires Run(states, events) && states[|events|].era != Modern && !Open(states[|events|])
    requires FallsBack(states, events, id, longer, more)
    ensures longer[|more|].probe.detected == Some(Legacy)
  {
    var n := |events|;
    assert longer[n] == states[n];
    assert more[n] == (events + [WriteInitialize(id)])[n];
    StaysFallenBack(states[n], id, longer, more, n, |more|);
  }

  /** A run goes on by any step that is enabled at its end. */
  lemma Onward(states: seq<State>, events: seq<Event>, e: Event) returns (longer: seq<State>, more: seq<Event>)
    requires Run(states, events) && Enabled(states[|events|], e)
    ensures more == events + [e] && longer == states + [Step(states[|events|], e)] && Run(longer, more)
  {
    longer, more := states + [Step(states[|events|], e)], events + [e];
  }

  /** After `initialize` has been written a good answer to the probe that is still open makes the era modern. */
  lemma AnswerOverrides(states: seq<State>, events: seq<Event>) returns (longer: seq<State>, more: seq<Event>)
    requires Run(states, events) && Open(states[|events|]) && !states[|events|].probe.expired
    ensures Run(longer, more) && states <= longer && events <= more
    ensures var s, r := states[|events|], longer[|more|];
            r.writer == s.writer && r.wire == s.wire && r.probe.detected == Some(Modern)
  {
    longer, more := states, events;
    var s := states[|events|];
    if s.reader.Holding? && s.reader.id != s.probe.id {
      longer, more := Onward(longer, more, Inspect);
    }
    if longer[|more|].reader == Listening {
      longer, more := Onward(longer, more, Arrive(s.probe.id, true));
    }
    longer, more := Onward(longer, more, Inspect);
  }

  /**
   A client that falls back while its probe is still open may be misled: the run it has made so far goes on to one
   in which `initialize` was written last and the era is modern.
   */
  lemma ImpatientClientMisled(states: seq<State>, events: seq<Event>, id: nat) returns (longer: seq<State>, more: seq<Event>)
    requires Run(states, events) && Enabled(states[|events|], WriteInitialize(id))
    requires states[|events|].era != Modern && Open(states[|events|])
    ensures FallsBack(states, events, id, longer, more) && longer[|more|].probe.detected == Some(Modern)
  {
    var s := states[|events|];
    RunInv(states, events, |events|);
    NeverBoth(s);
    hide Inv;
    longer, more := Onward(states, events, WriteInitialize(id));
    longer, more := Onward(longer, more, Commit);
    longer, more := Onward(longer, more, Wire);
    longer, more := AnswerOverrides(longer, more);
  }

  /**
   From a run so far, falling back settles the era as legacy, however the run goes on until the next handshake is
   written, exactly if no answer to a probe is open when `initialize` is written.
   */
  lemma FallbackSettlesExactly(states: seq<State>, events: seq<Event>, id: nat)
    requires Run(states, events) && Enabled(states[|events|], WriteInitialize(id)) && states[|events|].era != Modern
    ensures (forall longer: seq<State>, more: seq<Event> :: FallsBack(states, events, id, longer, more) ==>
               longer[|more|].probe.detected == Some(Legacy))
       <==> !Open(states[|events|])
  {
    hide Enabled, Open, Step;
    if Open(states[|events|]) {
      var longer, more := ImpatientClientMisled(states, events, id);
    } else {
      forall longer: seq<State>, more: seq<Event> | FallsBack(states, events, id, longer, more)
        ensures longer[|more|].probe.detected == Some(Legacy)
      {
        FallbackSettles(states, events, id, longer, more);
      }
    }
  }

  /** It does happen: a probe is written, the client falls back, and the backend's answer comes in time. */
  lemma ImpatienceIsPossible()
    ensures exists r :: Reached(r) && r.writer == Idle && r.wire == [Discover(0), Initialize(1)] && r.probe.detected == Some(Modern)
  {
    ProbeIsSent();
    var states, events :| Run(states, events) && states[|events|] == PROBE_SENT;
    var longer, more := ImpatientClientMisled(states, events, 1);
    assert [Discover(0)] + [Initialize(1)] == [Discover(0), Initialize(1)];
    assert Reached(longer[|more|]);
  }
}
