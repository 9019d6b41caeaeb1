/** What passes over one connection, told from the events: what is written, what the client is given, what is concluded. */
module EraProbeTraffic {
  import opened Prelude
  import opened EraProbeSpec
  import opened EraProbeRuns

  function Maybe<T>(o: Option<T>): seq<T> { if o.Some? then [o.value] else [] }

  // ---------------------------------------------------------------------------------------------
  // What is written
  // ---------------------------------------------------------------------------------------------

  /** The handshakes the client asked for in the first `i` steps and its pin allows. */
  function Asked(era: Era, events: seq<Event>, i: nat): seq<Handshake>
    requires i <= |events|
  {
    if i == 0 then []
    else Asked(era, events, i - 1) + match events[i - 1]
      case WriteDiscover(id) => if era == Legacy then [] else [Discover(id)]
      case WriteInitialize(id) => if era == Modern then [] else [Initialize(id)]
      case _ => []
  }

  /** The handshake the writer has not written yet. */
  function Carried(w: Writer): seq<Handshake> {
    match w
    case Arming(_, id) => [Discover(id)]
    case Committing(id) => [Initialize(id)]
    case Writing(m) => [m]
    case _ => []
  }

  lemma WriterStep(s: State, e: Event)
    requires Enabled(s, e)
    ensures Step(s, e).wire + Carried(Step(s, e).writer) == s.wire + Carried(s.writer) + match e
              case WriteDiscover(id) => if s.era == Legacy then [] else [Discover(id)]
              case WriteInitialize(id) => if s.era == Modern then [] else [Initialize(id)]
              case _ => []
  {
  }

  /**
   The backend is sent exactly the handshakes asked for and allowed, each once and in order, but for one that is still
   with the writer.
   */
  lemma {:induction false} WrittenAsAsked(states: seq<State>, events: seq<Event>, i: nat)
    requires Run(states, events) && i < |states|
    ensures states[i].wire + Carried(states[i].writer) == Asked(states[0].era, events, i)
  {
    if i > 0 {
      WrittenAsAsked(states, events, i - 1);
      WriterStep(states[i - 1], events[i - 1]);
      RunOnlyAdds(states, events, 0, i - 1);
      hide Step, Enabled;
    }
  }

  // ---------------------------------------------------------------------------------------------
  // What the client is given
  // ---------------------------------------------------------------------------------------------

  /** What the backend said in the first `i` steps. */
  function Arrived(events: seq<Event>, i: nat): seq<Response>
    requires i <= |events|
  {
    if i == 0 then []
    else Arrived(events, i - 1) + match events[i - 1]
      case Arrive(id, ok) => [Response(id, ok)]
      case _ => []
  }

  /** What one step gives the client. */
  function More(before: State, after: State): seq<Response> {
    if |before.delivered| <= |after.delivered| then after.delivered[|before.delivered|..] else []
  }

  /** What the client was given in the first `i` steps that were `e`. */
  ghost function GivenBy(states: seq<State>, events: seq<Event>, i: nat, e: Event): seq<Response>
    requires |states| == |events| + 1 && i <= |events|
  {
    if i == 0 then []
    else GivenBy(states, events, i - 1, e) + if events[i - 1] == e then More(states[i - 1], states[i]) else []
  }

  function Held(r: Reader): seq<Response> {
    if r.Holding? then [Response(r.id, r.ok)] else []
  }

  lemma Assoc(a: seq<Response>, b: seq<Response>, c: seq<Response>)
    ensures a + b + c == a + (b + c)
  {
  }

  lemma ReaderStep(s: State, e: Event)
    requires Inv(s) && Enabled(s, e)
    ensures var r := Step(s, e);
            && (e == Inspect ==> More(s, r) + Held(r.reader) == Held(s.reader))
            && (e != Inspect ==> Held(r.reader) == Held(s.reader) + if e.Arrive? then [Response(e.id, e.ok)] else [])
  {
    hide Settled, Watched, Replied, Grounded, Pinned;
  }

  lemma HeardStep(s: State, e: Event, given: seq<Response>)
    requires Inv(s) && Enabled(s, e)
    ensures var r := Step(s, e);
            given + (if e == Inspect then More(s, r) else []) + Held(r.reader)
            == given + Held(s.reader) + if e.Arrive? then [Response(e.id, e.ok)] else []
  {
    var r := Step(s, e);
    ReaderStep(s, e);
    hide Step, Enabled, Inv, More, Held;
    Assoc(given, if e == Inspect then More(s, r) else [], Held(r.reader));
    Assoc(given, Held(s.reader), if e.Arrive? then [Response(e.id, e.ok)] else []);
    assert given + Held(s.reader) + [] == given + Held(s.reader);
  }

  /**
   The client is given what the backend said, all of it, each response once, unaltered and in order, but for one that
   the reader still holds.
   */
  lemma {:induction false} BackendIsHeard(states: seq<State>, events: seq<Event>, i: nat)
    requires Run(states, events) && i < |states|
    ensures GivenBy(states, events, i, Inspect) + Held(states[i].reader) == Arrived(events, i)
  {
    hide Step, Enabled, Inv, More, Held;
    if i > 0 {
      BackendIsHeard(states, events, i - 1);
      RunInv(states, events, i - 1);
      HeardStep(states[i - 1], events[i - 1], GivenBy(states, events, i - 1, Inspect));
    } else {
      NothingHeld(states[0].era);
    }
  }

  lemma NothingHeld(era: Era)
    ensures Held(Initial(era).reader) == []
  {
  }

  /** Nothing but the two reads gives the client anything. */
  lemma OnlyReadsDeliver(s: State, e: Event)
    requires Enabled(s, e) && e != Inspect && e != ReadInjected
    ensures Step(s, e).delivered == s.delivered
  {
  }

  // ---------------------------------------------------------------------------------------------
  // What the client is given in the backend's place
  // ---------------------------------------------------------------------------------------------

  /** The errors owed for the probes that timed out, in order. */
  function Silent(verdicts: seq<Verdict>): seq<Response> {
    if verdicts == [] then []
    else
      var v := verdicts[|verdicts| - 1];
      Silent(verdicts[..|verdicts| - 1]) + if v.TimedOut? then [Response(v.id, false)] else []
  }

  /** The errors owed for the probes refused unsent in the first `i` steps, in order, without those given up. */
  function Refused(era: Era, events: seq<Event>, i: nat): seq<Response>
    requires i <= |events|
  {
    if i == 0 then []
    else
      var before := Refused(era, events, i - 1);
      match events[i - 1]
      case WriteDiscover(id) => if era == Legacy then before + [Response(id, false)] else before
      case GiveUp => if before == [] then [] else before[..|before| - 1]
      case _ => before
  }

  /** What is on its way to the client from the policy: in the channel, or with the watcher or the writer. */
  function OnItsWay(s: State): seq<Response> {
    (if s.injected.Some? then [Response(s.injected.value, false)] else [])
      + (if s.watcher.Injecting? then [Response(s.watcher.id, false)] else [])
      + (if s.writer.Refusing? then [Response(s.writer.id, false)] else [])
  }

  lemma SilentGrows(verdicts: seq<Verdict>, v: Verdict)
    ensures Silent(verdicts + [v]) == Silent(verdicts) + if v.TimedOut? then [Response(v.id, false)] else []
  {
    assert (verdicts + [v])[..|verdicts|] == verdicts;
  }

  lemma VerdictsStep(s: State, e: Event)
    requires Enabled(s, e)
    ensures var r := Step(s, e);
            && (e == Judge && r.watcher.Injecting? ==> r.verdicts == s.verdicts + [TimedOut(s.probe.gen, r.watcher.id)])
            && (!(e == Judge && r.watcher.Injecting?) && r.verdicts != s.verdicts ==>
                  s.reader.Holding? && r.verdicts == s.verdicts + [Answered(s.probe.gen, s.probe.id, s.reader.ok)])
  {
  }

  /** Only the judging of a deadline adds to what is owed. */
  lemma OwedStep(s: State, e: Event)
    requires Enabled(s, e)
    ensures Silent(Step(s, e).verdicts) == Silent(s.verdicts)
              + if e == Judge && Step(s, e).watcher.Injecting? then [Response(Step(s, e).watcher.id, false)] else []
  {
    var r := Step(s, e);
    VerdictsStep(s, e);
    hide Silent, Step, Enabled;
    SilentGrows(s.verdicts, TimedOut(s.probe.gen, if r.watcher.Injecting? then r.watcher.id else 0));
    if s.reader.Holding? {
      SilentGrows(s.verdicts, Answered(s.probe.gen, s.probe.id, s.reader.ok));
    }
  }

  /** What one step does to what the policy has on its way. */
  lemma OnItsWayStep(s: State, e: Event)
    requires Inv(s) && Enabled(s, e) && s.era != Legacy
    ensures var r := Step(s, e);
            (if e == ReadInjected then More(s, r) else []) + OnItsWay(r)
            == if e == Stop then OnItsWay(s.(watcher := Waiting))
               else OnItsWay(s) + if e == Judge && r.watcher.Injecting? then [Response(r.watcher.id, false)] else []
  {
    hide Settled, Watched, Replied, Grounded, Numbered;
  }

  lemma StopDrops(s: State)
    requires Inv(s) && Enabled(s, Stop) && s.era != Legacy
    ensures OnItsWay(s.(watcher := Waiting)) <= OnItsWay(s) && |OnItsWay(s)| <= |OnItsWay(s.(watcher := Waiting))| + 1
    ensures s.watcher != Stopped && Step(s, Stop).watcher == Stopped
  {
    hide Settled, Watched, Replied, Grounded, Numbered;
  }

  lemma StaysStopped(s: State, e: Event)
    requires Enabled(s, e) && s.watcher == Stopped
    ensures Step(s, e).watcher == Stopped && e != Judge && e != Stop
  {
  }

  lemma OwedFurther(given: seq<Response>, more: seq<Response>, left: seq<Response>, way: seq<Response>,
                    owed: seq<Response>, new': seq<Response>)
    requires more + left == way + new' && given + way <= owed && |owed| <= |given + way| + 1
    requires given + way == owed || new' == []
    ensures given + more + left <= owed + new' && |owed + new'| <= |given + more + left| + 1
    ensures given + way == owed ==> given + more + left == owed + new'
  {
    Assoc(given, more, left);
    Assoc(given, way, new');
  }

  /** `given` and what is on its way make up what is owed, but for one that stopping may have dropped. */
  predicate Paid(s: State, given: seq<Response>) {
    var owed := Silent(s.verdicts);
    && given + OnItsWay(s) <= owed && |owed| <= |given + OnItsWay(s)| + 1
    && (s.watcher != Stopped ==> given + OnItsWay(s) == owed)
  }

  lemma PaidStep(s: State, e: Event, given: seq<Response>)
    requires Inv(s) && Enabled(s, e) && s.era != Legacy && Paid(s, given)
    ensures Paid(Step(s, e), given + if e == ReadInjected then More(s, Step(s, e)) else [])
  {
    var r := Step(s, e);
    OwedStep(s, e);
    OnItsWayStep(s, e);
    if e == Stop {
      StopDrops(s);
      assert given + [] == given;
    } else {
      if s.watcher == Stopped {
        StaysStopped(s, e);
      }
      StopsOnlyByStop(s, e);
      hide Step, Enabled, Inv, More, OnItsWay, Silent;
      OwedFurther(given, if e == ReadInjected then More(s, r) else [], OnItsWay(r), OnItsWay(s), Silent(s.verdicts),
                  Silent(r.verdicts)[|Silent(s.verdicts)|..]);
    }
  }

  lemma StopsOnlyByStop(s: State, e: Event)
    requires Enabled(s, e) && e != Stop
    ensures Step(s, e).watcher == Stopped <==> s.watcher == Stopped
  {
  }

  /**
   Unless the pin is legacy, the policy gives the client one error for each probe that timed out, in that order, and
   nothing else; some of them may still be on their way, and closing the connection may drop the last.
   */
  lemma SilenceIsAnswered(states: seq<State>, events: seq<Event>, i: nat)
    requires Run(states, events) && i < |states| && states[0].era != Legacy
    ensures var given, owed := GivenBy(states, events, i, ReadInjected) + OnItsWay(states[i]), Silent(states[i].verdicts);
            && given <= owed && |owed| <= |given| + 1
            && (states[i].watcher != Stopped ==> given == owed)
  {
    PaidAlong(states, events, i);
  }

  lemma {:induction false} PaidAlong(states: seq<State>, events: seq<Event>, i: nat)
    requires Run(states, events) && i < |states| && states[0].era != Legacy
    ensures Paid(states[i], GivenBy(states, events, i, ReadInjected))
  {
    hide Step, Enabled, Inv, More, Paid;
    if i == 0 {
      NothingOwed(states[0].era);
    } else {
      PaidAlong(states, events, i - 1);
      RunInv(states, events, i - 1);
      RunOnlyAdds(states, events, 0, i - 1);
      PaidStep(states[i - 1], events[i - 1], GivenBy(states, events, i - 1, ReadInjected));
    }
  }

  lemma NothingOwed(era: Era)
    ensures Paid(Initial(era), [])
  {
  }

  lemma RefusingStep(s: State, e: Event)
    requires Inv(s) && Enabled(s, e) && s.era == Legacy
    ensures var r := Step(s, e);
            (if e == ReadInjected then More(s, r) else []) + OnItsWay(r)
            == match e
               case WriteDiscover(id) => OnItsWay(s) + [Response(id, false)]
               case GiveUp => OnItsWay(s)[..|OnItsWay(s)| - 1]
               case _ => OnItsWay(s)
    ensures e == GiveUp ==> OnItsWay(s) != []
  {
    NothingTimesOut(s);
    NothingJudged(s, e);
    hide Inv;
    if e == ReadInjected {
      RefusalRead(s);
    } else if e.WriteDiscover? || e == GiveUp {
      RefusalBegins(s, e);
    } else {
      RefusalStays(s, e);
    }
  }

  lemma NothingJudged(s: State, e: Event)
    requires Inv(s) && Enabled(s, e) && s.era == Legacy
    ensures !Step(s, e).watcher.Injecting?
  {
    hide Settled, Watched, Replied;
    NothingTimesOut(s);
  }

  lemma RefusalRead(s: State)
    requires Enabled(s, ReadInjected) && !s.watcher.Injecting?
    ensures More(s, Step(s, ReadInjected)) + OnItsWay(Step(s, ReadInjected)) == OnItsWay(s)
  {
    assert More(s, Step(s, ReadInjected)) == [Response(s.injected.value, false)];
  }

  lemma RefusalBegins(s: State, e: Event)
    requires Enabled(s, e) && s.era == Legacy && !s.watcher.Injecting? && (e.WriteDiscover? || e == GiveUp)
    ensures e.WriteDiscover? ==> OnItsWay(Step(s, e)) == OnItsWay(s) + [Response(e.id, false)]
    ensures e == GiveUp ==> OnItsWay(s) != [] && OnItsWay(Step(s, e)) == OnItsWay(s)[..|OnItsWay(s)| - 1]
  {
  }

  lemma RefusalStays(s: State, e: Event)
    requires Enabled(s, e) && !s.watcher.Injecting? && !Step(s, e).watcher.Injecting?
    requires e != ReadInjected && !e.WriteDiscover? && e != GiveUp
    ensures OnItsWay(Step(s, e)) == OnItsWay(s)
  {
  }

  lemma NothingTimesOut(s: State)
    requires Inv(s) && s.era == Legacy
    ensures s.verdicts == [] && !s.watcher.Injecting?
  {
    hide Watched, Replied, Numbered;
    SettledWereAsked(s.probe.probing, s.asked, s.verdicts);
  }

  lemma SettledWereAsked(probing: bool, asked: seq<nat>, verdicts: seq<Verdict>)
    requires Settled(probing, asked, verdicts)
    ensures verdicts != [] ==> asked != []
  {
    if verdicts != [] {
      assert 1 <= verdicts[0].gen <= |asked|;
    }
  }

  /** What one step does to the errors owed for refused probes. */
  function OwedAfter(e: Event, owed: seq<Response>): seq<Response> {
    match e
    case WriteDiscover(id) => owed + [Response(id, false)]
    case GiveUp => if owed == [] then [] else owed[..|owed| - 1]
    case _ => owed
  }

  lemma RefusedFurther(s: State, e: Event, given: seq<Response>)
    requires Inv(s) && Enabled(s, e) && s.era == Legacy
    ensures given + (if e == ReadInjected then More(s, Step(s, e)) else []) + OnItsWay(Step(s, e))
         == OwedAfter(e, given + OnItsWay(s))
  {
    var r := Step(s, e);
    RefusingStep(s, e);
    hide Step, Enabled, Inv, More, OnItsWay;
    Assoc(given, if e == ReadInjected then More(s, r) else [], OnItsWay(r));
    if e.WriteDiscover? {
      Assoc(given, OnItsWay(s), [Response(e.id, false)]);
    } else if e == GiveUp {
      assert (given + OnItsWay(s))[..|given + OnItsWay(s)| - 1] == given + OnItsWay(s)[..|OnItsWay(s)| - 1];
    }
  }

  lemma GivenOnce(states: seq<State>, events: seq<Event>, i: nat)
    requires |states| == |events| + 1 && 0 < i <= |events|
    ensures GivenBy(states, events, i, ReadInjected)
         == GivenBy(states, events, i - 1, ReadInjected)
              + if events[i - 1] == ReadInjected then More(states[i - 1], states[i]) else []
  {
  }

  lemma NothingRefused(states: seq<State>, events: seq<Event>)
    requires |states| == |events| + 1 && states[0] == Initial(states[0].era)
    ensures GivenBy(states, events, 0, ReadInjected) + OnItsWay(states[0]) == Refused(Legacy, events, 0)
  {
  }

  lemma RefusedOnce(events: seq<Event>, i: nat)
    requires 0 < i <= |events|
    ensures Refused(Legacy, events, i) == OwedAfter(events[i - 1], Refused(Legacy, events, i - 1))
  {
  }

  /** Pinned legacy, it gives the client one error for each probe, in order, but for those still on their way or given up. */
  lemma {:induction false} RefusalsAreGiven(states: seq<State>, events: seq<Event>, i: nat)
    requires Run(states, events) && i < |states| && states[0].era == Legacy
    ensures GivenBy(states, events, i, ReadInjected) + OnItsWay(states[i]) == Refused(Legacy, events, i)
  {
    hide Step, Enabled, Inv, More, OnItsWay, OwedAfter, Refused, GivenBy;
    if i == 0 {
      NothingRefused(states, events);
    } else {
      GivenOnce(states, events, i);
      RefusalsAreGiven(states, events, i - 1);
      RunInv(states, events, i - 1);
      RunOnlyAdds(states, events, 0, i - 1);
      RefusedFurther(states[i - 1], events[i - 1], GivenBy(states, events, i - 1, ReadInjected));
      RefusedOnce(events, i);
    }
  }

  // ---------------------------------------------------------------------------------------------
  // What is concluded
  // ---------------------------------------------------------------------------------------------

  /**
   The era after the first `i` steps: legacy from a probe refused unsent or a handshake committed to, modern from a good
   answer to the probe waited for, whichever came last.
   */
  ghost function Concluded(states: seq<State>, events: seq<Event>, i: nat): Option<Era>
    requires |states| == |events| + 1 && i <= |events|
  {
    if i == 0 then None
    else
      var s, e, before := states[i - 1], events[i - 1], Concluded(states, events, i - 1);
      if e == Commit || (e.WriteDiscover? && states[0].era == Legacy) then Some(Legacy)
      else if e == Inspect && s.probe.probing && s.reader == Holding(s.probe.id, true) then Some(Modern)
      else before
  }

  lemma ConcludesStep(s: State, e: Event)
    requires Inv(s) && Enabled(s, e)
    ensures Step(s, e).probe.detected
         == if e == Commit || (e.WriteDiscover? && s.era == Legacy) then Some(Legacy)
            else if e == Inspect && s.probe.probing && s.reader == Holding(s.probe.id, true) then Some(Modern)
            else s.probe.detected
  {
    hide Settled, Watched, Replied, Grounded, Pinned;
  }

  lemma {:induction false} EraIsLastConcluded(states: seq<State>, events: seq<Event>, i: nat)
    requires Run(states, events) && i < |states|
    ensures states[i].probe.detected == Concluded(states, events, i)
  {
    hide Step, Enabled, Inv;
    if i > 0 {
      EraIsLastConcluded(states, events, i - 1);
      RunInv(states, events, i - 1);
      RunOnlyAdds(states, events, 0, i - 1);
      ConcludesStep(states[i - 1], events[i - 1]);
    }
  }

  /** Only a backend pinned to the modern era can fail to match its pin. */
  lemma OnlyModernMismatches(states: seq<State>, events: seq<Event>, i: nat)
    requires Run(states, events) && i < |states| && states[0].era != Modern
    ensures !states[i].probe.mismatch
  {
    RunInv(states, events, i);
    RunOnlyAdds(states, events, 0, i);
    hide Settled, Watched, Replied, Grounded, Numbered;
  }
}
