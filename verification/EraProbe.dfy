/**
 The era policy on one connection, as the race of the goroutines that carry it out.

 The writer sends the client's handshakes one after another; the reader hands the client what the
 backend, or the policy in its place, answered; the watcher keeps the probe's deadline. They meet
 in six fields under one lock and in two channels of one slot each. A deadline may pass at any
 moment once it is being watched, and the backend may send any response at any moment.
 */
module EraProbeSpec {
  import opened Prelude

  datatype Era = Auto | Modern | Legacy

  /** What the lock guards. */
  datatype Probe = Probe(id: nat, gen: nat, probing: bool, expired: bool, detected: Option<Era>, mismatch: bool)

  datatype Handshake = Discover(id: nat) | Initialize(id: nat)

  /** Where the client's current write is: one state for each point at which another goroutine may run. */
  datatype Writer = Idle | Arming(gen: nat, id: nat) | Writing(m: Handshake) | Committing(id: nat) | Refusing(id: nat)

  datatype Watcher = Waiting | Firing(gen: nat) | Injecting(id: nat) | Stopped

  datatype Reader = Listening | Holding(id: nat, ok: bool)

  /** How a probe was settled: by the backend's answer, or by its deadline. */
  datatype Verdict = Answered(gen: nat, id: nat, ok: bool) | TimedOut(gen: nat, id: nat)

  /** A response the client was given. */
  datatype Response = Response(id: nat, ok: bool)

  datatype State = State(
    era: Era,
    probe: Probe,
    armed: Option<nat>,
    injected: Option<nat>,
    writer: Writer,
    watcher: Watcher,
    timer: Option<nat>,
    reader: Reader,
    closing: bool,
    // History: the request identifiers the client used; those of the probes that were armed, and
    // how much the client had been given when the last was; those of the probes refused without being
    // sent, and of the refusals given up; what was written, what the client was given, and how
    // each probe was settled.
    used: set<nat>,
    asked: seq<nat>,
    askedAt: nat,
    refused: set<nat>,
    abandoned: set<nat>,
    wire: seq<Handshake>,
    delivered: seq<Response>,
    verdicts: seq<Verdict>)

  datatype Event =
    | WriteDiscover(id: nat)
    | WriteInitialize(id: nat)
    | SendArm
    | Commit
    | Wire
    | InjectRefusal
    | GiveUp
    | TakeArm
    | Fire
    | Judge
    | Inject
    | Stop
    | Arrive(id: nat, ok: bool)
    | Inspect
    | ReadInjected
    | Close

  function Initial(era: Era): State {
    State(era, Probe(0, 0, false, false, None, false), None, None, Idle, Waiting, None, Listening, false,
          {}, [], 0, {}, {}, [], [], [])
  }

  // ---------------------------------------------------------------------------------------------
  // The locked sections
  // ---------------------------------------------------------------------------------------------

  /** A failure leaves a mismatch under the modern pin and nothing otherwise. */
  function Fail(era: Era, p: Probe): Probe {
    if era == Modern then p.(mismatch := true) else p
  }

  function ArmProbe(p: Probe, id: nat): Probe {
    p.(id := id, gen := p.gen + 1, probing := true, expired := false)
  }

  /** What a response means for the probe, and whether the client is still to be given it. */
  function OnProbeAnswer(era: Era, p: Probe, id: nat, ok: bool): (Probe, bool) {
    if !p.probing || id != p.id then (p, true)
    else if p.expired then (p, false)
    else if !ok then (Fail(era, p.(probing := false)), true)
    else (p.(probing := false, detected := Some(Modern)), true)
  }

  /** What the deadline of generation `gen` means, and whether the client is to be answered in the backend's place. */
  function OnProbeExpired(era: Era, p: Probe, gen: nat): (Probe, bool) {
    if !p.probing || p.gen != gen then (p, false)
    else (Fail(era, p.(probing := false, expired := true)), true)
  }

  /** Whether the legacy handshake is refused. */
  function RefuseFallback(era: Era, p: Probe): (Probe, bool) {
    if era != Modern then (p, false) else (p.(mismatch := true), true)
  }

  // ---------------------------------------------------------------------------------------------
  // Steps
  // ---------------------------------------------------------------------------------------------

  predicate Enabled(s: State, e: Event) {
    match e
    case WriteDiscover(id) => s.writer == Idle && id !in s.used
    case WriteInitialize(id) => s.writer == Idle && id !in s.used
    case SendArm => s.writer.Arming? && s.armed == None
    case Commit => s.writer.Committing?
    case Wire => s.writer.Writing?
    case InjectRefusal => s.writer.Refusing? && s.injected == None
    case GiveUp => s.writer.Refusing?
    case TakeArm => s.watcher == Waiting && s.armed.Some?
    case Fire => s.watcher == Waiting && s.timer.Some?
    case Judge => s.watcher.Firing?
    case Inject => s.watcher.Injecting? && s.injected == None
    case Stop => s.closing && (s.watcher == Waiting || s.watcher.Injecting?)
    case Arrive(_, _) => s.reader == Listening
    case Inspect => s.reader.Holding?
    case ReadInjected => s.reader == Listening && s.injected.Some?
    case Close => true
  }

  function Step(s: State, e: Event): State
    requires Enabled(s, e)
  {
    match e
    case WriteDiscover(id) =>
      if s.era == Legacy then
        s.(probe := s.probe.(detected := Some(Legacy)), writer := Refusing(id), used := s.used + {id}, refused := s.refused + {id})
      else
        s.(probe := ArmProbe(s.probe, id), writer := Arming(s.probe.gen + 1, id), used := s.used + {id},
          asked := s.asked + [id], askedAt := |s.delivered|)
    case WriteInitialize(id) =>
      var r := RefuseFallback(s.era, s.probe);
      s.(probe := r.0, writer := if r.1 then Idle else Committing(id), used := s.used + {id})
    case SendArm => s.(armed := Some(s.writer.gen), writer := Writing(Discover(s.writer.id)))
    case Commit => s.(probe := s.probe.(detected := Some(Legacy)), writer := Writing(Initialize(s.writer.id)))
    case Wire => s.(wire := s.wire + [s.writer.m], writer := Idle)
    case InjectRefusal => s.(injected := Some(s.writer.id), writer := Idle)
    case GiveUp => s.(writer := Idle, abandoned := s.abandoned + {s.writer.id})
    case TakeArm => s.(timer := s.armed, armed := None)
    case Fire => s.(timer := None, watcher := Firing(s.timer.value))
    case Judge =>
      var r := OnProbeExpired(s.era, s.probe, s.watcher.gen);
      s.(probe := r.0,
         watcher := if r.1 then Injecting(s.probe.id) else Waiting,
         verdicts := if r.1 then s.verdicts + [TimedOut(s.probe.gen, s.probe.id)] else s.verdicts)
    case Inject => s.(injected := Some(s.watcher.id), watcher := Waiting)
    case Stop => s.(watcher := Stopped)
    case Arrive(id, ok) => s.(reader := Holding(id, ok))
    case Inspect =>
      var r := OnProbeAnswer(s.era, s.probe, s.reader.id, s.reader.ok);
      s.(probe := r.0,
         reader := Listening,
         delivered := if r.1 then s.delivered + [Response(s.reader.id, s.reader.ok)] else s.delivered,
         verdicts := if s.probe.probing && !r.0.probing then s.verdicts + [Answered(s.probe.gen, s.probe.id, s.reader.ok)] else s.verdicts)
    case ReadInjected => s.(injected := None, delivered := s.delivered + [Response(s.injected.value, false)])
    case Close => s.(closing := true)
  }

  ghost predicate Run(states: seq<State>, events: seq<Event>) {
    && |states| == |events| + 1
    && states[0] == Initial(states[0].era)
    && forall i {:trigger events[i]} :: 0 <= i < |events| ==>
         Enabled(states[i], events[i]) && states[i + 1] == Step(states[i], events[i])
  }

  // ---------------------------------------------------------------------------------------------
  // The invariant
  // ---------------------------------------------------------------------------------------------

  /** The probes armed so far are numbered from one, under identifiers that differ, and the lock's fields speak of the last. */
  predicate Numbered(probe: Probe, asked: seq<nat>, used: set<nat>) {
    && probe.gen == |asked|
    && (asked != [] ==> probe.id == asked[|asked| - 1])
    && (forall i :: 0 <= i < |asked| ==> asked[i] in used)
    && (forall i, j :: 0 <= i < j < |asked| ==> asked[i] != asked[j])
    && (probe.probing ==> asked != [] && !probe.expired)
  }

  /** Every verdict is on a probe that was armed; a probe has at most one, and the last has one exactly when it is not being waited for. */
  predicate Settled(probing: bool, asked: seq<nat>, verdicts: seq<Verdict>) {
    && (forall i :: 0 <= i < |verdicts| ==> 1 <= verdicts[i].gen <= |asked| && verdicts[i].id == asked[verdicts[i].gen - 1])
    && (forall i, j :: 0 <= i < j < |verdicts| ==> verdicts[i].gen < verdicts[j].gen)
    && (asked != [] ==> (!probing <==> verdicts != [] && verdicts[|verdicts| - 1].gen == |asked|))
  }

  /** The generation a goroutine carries, or zero. */
  function WriterGen(w: Writer): nat { if w.Arming? then w.gen else 0 }
  function WatcherGen(w: Watcher): nat { if w.Firing? then w.gen else 0 }
  function SlotGen(o: Option<nat>): nat { if o.Some? then o.value else 0 }

  /**
   Deadlines travel in order, from the writer through the channel to the timer, and the deadline of a
   probe that is being waited for is on its way or being watched.
   */
  predicate Watched(probe: Probe, writer: Writer, armed: Option<nat>, timer: Option<nat>, watcher: Watcher) {
    && WriterGen(writer) <= probe.gen && SlotGen(armed) <= probe.gen && SlotGen(timer) <= probe.gen && WatcherGen(watcher) <= probe.gen
    && (writer.Arming? ==> writer.gen == probe.gen && SlotGen(armed) < writer.gen && SlotGen(timer) < writer.gen && WatcherGen(watcher) < writer.gen)
    && (armed.Some? ==> SlotGen(timer) < armed.value && WatcherGen(watcher) < armed.value)
    && (timer.Some? ==> WatcherGen(watcher) < timer.value)
    && (probe.probing && watcher != Stopped ==>
          probe.gen in {WriterGen(writer), SlotGen(armed), SlotGen(timer), WatcherGen(watcher)})
  }

  /**
   Every settled probe, and every probe refused unsent, has its answer with the client, in the channel
   to it, or with the goroutine that is putting it there, unless that goroutine gave up. The answer is what
   the backend said, or else an error.
   */
  predicate Replied(s: State) {
    && (forall v :: v in s.verdicts && v.Answered? ==> Response(v.id, v.ok) in s.delivered)
    && (forall v :: v in s.verdicts && v.TimedOut? && s.watcher != Stopped ==>
          s.watcher == Injecting(v.id) || s.injected == Some(v.id) || Response(v.id, false) in s.delivered)
    && (forall id :: id in s.refused && id !in s.abandoned ==>
          s.writer == Refusing(id) || s.injected == Some(id) || Response(id, false) in s.delivered)
  }

  predicate HasTimedOut(verdicts: seq<Verdict>, id: nat) {
    exists v :: v in verdicts && v.TimedOut? && v.id == id
  }

  /**
   Nothing is answered in the backend's place but a probe whose deadline passed or one that was never
   sent; and once the client has been given an answer to its last probe, that probe is settled.
   */
  predicate Grounded(s: State) {
    && (s.watcher.Injecting? ==> HasTimedOut(s.verdicts, s.watcher.id))
    && (s.injected.Some? ==> HasTimedOut(s.verdicts, s.injected.value) || s.injected.value in s.refused)
    && (s.writer.Refusing? ==> s.writer.id in s.refused)
    && s.askedAt <= |s.delivered|
    && (LastProbeAnswered(s) ==> !s.probe.probing)
  }

  /** The client has asked nothing, or has been given a response under the identifier of what it last asked, since it asked. */
  predicate LastProbeAnswered(s: State) {
    s.asked == [] || exists i :: s.askedAt <= i < |s.delivered| && s.delivered[i].id == s.asked[|s.asked| - 1]
  }

  predicate EverModern(verdicts: seq<Verdict>) {
    exists v :: v in verdicts && v.Answered? && v.ok
  }

  /** What each pin forbids, and what it records. */
  predicate Pinned(s: State) {
    && (s.era == Modern ==>
          && !s.writer.Committing? && !(s.writer.Writing? && s.writer.m.Initialize?) && s.probe.detected != Some(Legacy)
          && (forall m :: m in s.wire ==> m.Discover?)
          && (forall v :: v in s.verdicts && (v.TimedOut? || !v.ok) ==> s.probe.mismatch))
    && (s.era != Modern ==> !s.probe.mismatch)
    && (s.era == Legacy ==>
          && s.asked == [] && !s.writer.Arming? && !(s.writer.Writing? && s.writer.m.Discover?)
          && (forall m :: m in s.wire ==> m.Initialize?))
    && (s.probe.detected == Some(Modern) ==> EverModern(s.verdicts))
    && (s.era != Legacy ==> s.refused == {} && !s.writer.Refusing?)
    && (s.closing || s.watcher != Stopped)
  }

  predicate Inv(s: State) {
    && Numbered(s.probe, s.asked, s.used)
    && Settled(s.probe.probing, s.asked, s.verdicts)
    && Watched(s.probe, s.writer, s.armed, s.timer, s.watcher)
    && Replied(s)
    && Grounded(s)
    && Pinned(s)
  }

  lemma StepKeepsNumbered(s: State, e: Event)
    requires Inv(s) && Enabled(s, e)
    ensures Numbered(Step(s, e).probe, Step(s, e).asked, Step(s, e).used)
  {
    hide Settled, Watched, Replied, Grounded, Pinned;
  }

  lemma ArmedSettled(probing: bool, asked: seq<nat>, verdicts: seq<Verdict>, id: nat)
    requires Settled(probing, asked, verdicts)
    ensures Settled(true, asked + [id], verdicts)
  {
  }

  lemma VerdictSettled(asked: seq<nat>, verdicts: seq<Verdict>, v: Verdict)
    requires Settled(true, asked, verdicts) && asked != [] && v.gen == |asked| && v.id == asked[|asked| - 1]
    ensures Settled(false, asked, verdicts + [v])
  {
  }

  lemma StepKeepsSettled(s: State, e: Event)
    requires Inv(s) && Enabled(s, e)
    ensures Settled(Step(s, e).probe.probing, Step(s, e).asked, Step(s, e).verdicts)
  {
    hide Watched, Replied, Grounded, Pinned, Settled;
    match e
    case WriteDiscover(id) => ArmedSettled(s.probe.probing, s.asked, s.verdicts, id);
    case Judge =>
      if s.probe.probing && s.probe.gen == s.watcher.gen {
        VerdictSettled(s.asked, s.verdicts, TimedOut(s.probe.gen, s.probe.id));
      }
    case Inspect =>
      if s.probe.probing && s.probe.id == s.reader.id {
        VerdictSettled(s.asked, s.verdicts, Answered(s.probe.gen, s.probe.id, s.reader.ok));
      }
    case _ =>
  }

  lemma StepKeepsWatched(s: State, e: Event)
    requires Inv(s) && Enabled(s, e)
    ensures var r := Step(s, e); Watched(r.probe, r.writer, r.armed, r.timer, r.watcher)
  {
    hide Settled, Replied, Grounded, Pinned, Numbered;
  }

  lemma StepKeepsReplied(s: State, e: Event)
    requires Inv(s) && Enabled(s, e)
    ensures Replied(Step(s, e))
  {
    hide Watched, Pinned, Settled, Grounded;
    StepDelivers(s, e);
  }

  lemma StepDelivers(s: State, e: Event)
    requires Enabled(s, e)
    ensures forall r :: r in s.delivered ==> r in Step(s, e).delivered
    ensures e == ReadInjected ==> Response(s.injected.value, false) in Step(s, e).delivered
    ensures e == Inspect && OnProbeAnswer(s.era, s.probe, s.reader.id, s.reader.ok).1 ==>
              Response(s.reader.id, s.reader.ok) in Step(s, e).delivered
  {
  }

  lemma TimedOutGrows(verdicts: seq<Verdict>, v: Verdict, id: nat)
    ensures HasTimedOut(verdicts, id) ==> HasTimedOut(verdicts + [v], id)
    ensures v.TimedOut? ==> HasTimedOut(verdicts + [v], v.id)
  {
    assert v in verdicts + [v];
    if HasTimedOut(verdicts, id) {
      var u :| u in verdicts && u.TimedOut? && u.id == id;
      assert u in verdicts + [v];
    }
  }

  /** A probe that is being waited for has not timed out. */
  lemma WaitedForIsUnsettled(s: State)
    requires Inv(s) && s.probe.probing
    ensures forall v :: v in s.verdicts ==> v.gen != s.probe.gen && v.id != s.probe.id
  {
    forall v | v in s.verdicts ensures v.gen != s.probe.gen && v.id != s.probe.id {
      var i :| 0 <= i < |s.verdicts| && s.verdicts[i] == v;
      assert i < |s.verdicts| - 1 ==> s.verdicts[i].gen < s.verdicts[|s.verdicts| - 1].gen;
    }
  }

  lemma WriteDiscoverGrounded(s: State, id: nat)
    requires Inv(s) && Enabled(s, WriteDiscover(id))
    ensures Grounded(Step(s, WriteDiscover(id)))
  {
    hide Watched, Replied, Settled, HasTimedOut;
    assert s.era != Legacy ==> Step(s, WriteDiscover(id)).asked != [];
  }

  lemma JudgeGrounded(s: State)
    requires Inv(s) && Enabled(s, Judge)
    ensures Grounded(Step(s, Judge))
  {
    hide Watched, Replied, Settled, HasTimedOut;
    if s.probe.probing && s.probe.gen == s.watcher.gen {
      TimedOutGrows(s.verdicts, TimedOut(s.probe.gen, s.probe.id), s.probe.id);
      if s.injected.Some? {
        TimedOutGrows(s.verdicts, TimedOut(s.probe.gen, s.probe.id), s.injected.value);
      }
    }
  }

  lemma StepKeepsGrounded(s: State, e: Event)
    requires Inv(s) && Enabled(s, e)
    ensures Grounded(Step(s, e))
  {
    if s.probe.probing {
      WaitedForIsUnsettled(s);
    }
    hide Watched, Replied, Settled;
    match e
    case WriteDiscover(id) => WriteDiscoverGrounded(s, id);
    case Judge => JudgeGrounded(s);
    case Inspect => InspectGrounded(s);
    case ReadInjected => ReadInjectedGrounded(s);
    case _ =>
  }

  lemma OneMoreGiven(s: State, r: State, x: Response)
    requires r.asked == s.asked && r.askedAt == s.askedAt <= |s.delivered| && r.delivered == s.delivered + [x]
    ensures LastProbeAnswered(r) <==> LastProbeAnswered(s) || x.id == s.asked[|s.asked| - 1]
  {
    assert r.delivered[|s.delivered|] == x;
    if s.asked != [] && LastProbeAnswered(s) {
      var i :| s.askedAt <= i < |s.delivered| && s.delivered[i].id == s.asked[|s.asked| - 1];
      assert r.delivered[i] == s.delivered[i];
    }
  }

  lemma ReadInjectedGrounded(s: State)
    requires Inv(s) && Enabled(s, ReadInjected)
    requires s.probe.probing ==> forall v :: v in s.verdicts ==> v.id != s.probe.id
    ensures Grounded(Step(s, ReadInjected))
  {
    hide Watched, Replied, Settled;
    var r := Step(s, ReadInjected);
    OneMoreGiven(s, r, Response(s.injected.value, false));
  }

  lemma InspectGrounded(s: State)
    requires Inv(s) && Enabled(s, Inspect)
    ensures Grounded(Step(s, Inspect))
  {
    hide Watched, Replied, Settled;
    var r := Step(s, Inspect);
    if r.verdicts != s.verdicts {
      var v := Answered(s.probe.gen, s.probe.id, s.reader.ok);
      if s.watcher.Injecting? {
        TimedOutGrows(s.verdicts, v, s.watcher.id);
      }
      if s.injected.Some? {
        TimedOutGrows(s.verdicts, v, s.injected.value);
      }
    }
    OneMoreGiven(s, r, Response(s.reader.id, s.reader.ok));
  }

  lemma StepKeepsPinned(s: State, e: Event)
    requires Inv(s) && Enabled(s, e)
    ensures Pinned(Step(s, e))
  {
    hide Watched, Replied, Settled, Grounded;
    match e
    case Inspect =>
      var r := Step(s, e);
      assert forall v :: v in s.verdicts ==> v in r.verdicts;
      if r.verdicts != s.verdicts {
        assert r.verdicts[|s.verdicts|] in r.verdicts;
      }
    case Judge =>
      assert forall v :: v in s.verdicts ==> v in Step(s, e).verdicts;
    case _ =>
  }
}
