/**
 Stopping a backend process on virtual time: close its standard input, then SIGTERM, then SIGKILL,
 with a wait after each that the policy or the end of the caller's context cuts short.
 */
module Stop {
  import opened Prelude

  datatype Action = CloseStdin | Term | Kill

  /** One step of the escalation: what was attempted, when, and whether the system refused it. */
  datatype Sent = Sent(action: Action, at: nat, refused: bool)

  /** The grace after each step; without a positive one the exit is looked for once and not waited for. */
  datatype Policy = Policy(afterStdin: int, afterTerm: int)

  /**
   What the escalation cannot choose: when the process exits, if ever, given what has been done to it;
   when the caller's context ends, if ever; which actions the system refuses; and which way the
   scheduler turns when the exit and the end of the wait come at the same moment.
   */
  datatype World = World(exit: seq<Sent> -> Option<nat>, cancelled: Option<nat>, refuses: Action -> bool, exitFirst: nat -> bool)

  datatype Wait = Wait(exited: bool, at: nat)

  /** Stopped once the exit was seen; failed once the context ended first; stuck if neither ever happens. */
  datatype Outcome =
    | Stopped(log: seq<Sent>, at: nat)
    | Failed(log: seq<Sent>, at: nat, errors: seq<Action>)
    | Stuck(log: seq<Sent>)

  const ESCALATION := [CloseStdin, Term, Kill]

  function Max(a: nat, b: int): nat { if b <= a then a else b }

  /** The actions that were refused, in order. */
  function Refusals(log: seq<Sent>): seq<Action> {
    if log == [] then []
    else Refusals(log[..|log| - 1]) + (if log[|log| - 1].refused then [log[|log| - 1].action] else [])
  }

  /** The moment a wait of `grace` that starts at `now` is given up. */
  function GiveUpAt(world: World, grace: int, now: nat): nat {
    if grace <= 0 then now
    else if world.cancelled.Some? && Max(now, world.cancelled.value) < now + grace then Max(now, world.cancelled.value)
    else now + grace
  }

  /** Waiting for the exit after what was done in `log`. */
  function WaitFor(world: World, log: seq<Sent>, grace: int, now: nat): (w: Wait)
    ensures now <= w.at <= GiveUpAt(world, grace, now)
    ensures w.exited ==> world.exit(log).Some? && w.at == Max(now, world.exit(log).value)
    ensures !w.exited ==> w.at == GiveUpAt(world, grace, now) && (world.exit(log).Some? ==> w.at <= Max(now, world.exit(log).value))
  {
    var exit, limit := world.exit(log), GiveUpAt(world, grace, now);
    if grace <= 0 then Wait(exit.Some? && exit.value <= now, now)
    else if exit.Some? && (Max(now, exit.value) < limit || (Max(now, exit.value) == limit && world.exitFirst(|log|)))
    then Wait(true, Max(now, exit.value))
    else Wait(false, limit)
  }

  /** Once everything has been tried, only the exit or the end of the context is waited for. */
  function LastWait(world: World, log: seq<Sent>, errors: seq<Action>, now: nat): Outcome {
    var exit, end := world.exit(log), world.cancelled;
    if exit.None? && end.None? then Stuck(log)
    else if end.None? || (exit.Some? && (Max(now, exit.value) < Max(now, end.value)
                                         || (Max(now, exit.value) == Max(now, end.value) && world.exitFirst(|log| + 1))))
    then Stopped(log, Max(now, exit.value))
    else Failed(log, Max(now, end.value), errors)
  }

  function Escalate(world: World, steps: seq<(Action, int)>, log: seq<Sent>, errors: seq<Action>, now: nat): Outcome
    decreases |steps|
  {
    if steps == [] then LastWait(world, log, errors, now)
    else
      var log' := log + [Sent(steps[0].0, now, world.refuses(steps[0].0))];
      if world.refuses(steps[0].0) then Escalate(world, steps[1..], log', errors + [steps[0].0], now)
      else
        var w := WaitFor(world, log', steps[0].1, now);
        if w.exited then Stopped(log', w.at) else Escalate(world, steps[1..], log', errors, w.at)
  }

  function StopFrom(world: World, policy: Policy, start: nat): Outcome {
    var refused := world.refuses(CloseStdin);
    var log := [Sent(CloseStdin, start, refused)];
    var w := WaitFor(world, log, policy.afterStdin, start);
    if w.exited then Stopped(log, w.at)
    else Escalate(world, [(Term, policy.afterTerm), (Kill, 0)], log, if refused then [CloseStdin] else [], w.at)
  }

  /** The escalation as it runs. */
  method StopProcess(world: World, policy: Policy, start: nat) returns (outcome: Outcome)
    ensures outcome == StopFrom(world, policy, start)
  {
    var errors := [];
    var log := [Sent(CloseStdin, start, world.refuses(CloseStdin))];
    if world.refuses(CloseStdin) {
      errors := [CloseStdin];
    }
    var w := WaitFor(world, log, policy.afterStdin, start);
    if w.exited {
      return Stopped(log, w.at);
    }
    var now := w.at;
    var steps := [(Term, policy.afterTerm), (Kill, 0)];
    var i := 0;
    assert steps[0..] == steps;
    while i < |steps|
      invariant 0 <= i <= |steps|
      invariant Escalate(world, steps[i..], log, errors, now) == StopFrom(world, policy, start)
    {
      var step := steps[i];
      assert steps[i..][1..] == steps[i + 1..];
      i := i + 1;
      log := log + [Sent(step.0, now, world.refuses(step.0))];
      if world.refuses(step.0) {
        errors := errors + [step.0];
        continue;
      }
      w := WaitFor(world, log, step.1, now);
      if w.exited {
        return Stopped(log, w.at);
      }
      now := w.at;
    }
    outcome := LastWait(world, log, errors, now);
  }

  // ---------------------------------------------------------------------------------------------
  // What the escalation promises
  // ---------------------------------------------------------------------------------------------

  /** Whether the step `log` ends with is followed by a wait: a signal that was refused is not. */
  predicate Waited(log: seq<Sent>)
    requires log != []
  {
    var last := log[|log| - 1];
    last.action == CloseStdin || !last.refused
  }

  /** How long the wait after the step `log` ends with may take. */
  function Grace(policy: Policy, log: seq<Sent>): int
    requires log != []
  {
    if !Waited(log) then 0
    else match log[|log| - 1].action
      case CloseStdin => policy.afterStdin
      case Term => policy.afterTerm
      case Kill => 0
  }

  /**
   `log` was followed by a further step at `at`: its wait was given up there, the process not having exited before;
   nor at that very moment, if there was no grace and the exit was only looked for.
   */
  predicate MovedOn(world: World, policy: Policy, log: seq<Sent>, at: nat)
    requires log != []
  {
    var from, exit := log[|log| - 1].at, world.exit(log);
    && at == GiveUpAt(world, Grace(policy, log), from)
    && (Waited(log) && exit.Some? ==> if Grace(policy, log) <= 0 then at < exit.value else at <= Max(from, exit.value))
  }

  /** `log` is an escalation that has come as far as its last step. */
  predicate Escalated(world: World, policy: Policy, start: nat, log: seq<Sent>) {
    && 1 <= |log| <= 3
    && log[0].at == start
    && (forall i :: 0 <= i < |log| ==> log[i].action == ESCALATION[i] && log[i].refused == world.refuses(ESCALATION[i]))
    && (|log| > 1 ==> MovedOn(world, policy, log[..1], log[1].at))
    && (|log| > 2 ==> MovedOn(world, policy, log[..2], log[2].at))
  }

  /** The escalation, step by step. */
  lemma Unrolled(world: World, policy: Policy, start: nat)
    ensures var log1 := [Sent(CloseStdin, start, world.refuses(CloseStdin))];
            var w1 := WaitFor(world, log1, policy.afterStdin, start);
            var log2 := log1 + [Sent(Term, w1.at, world.refuses(Term))];
            var w2 := if world.refuses(Term) then Wait(false, w1.at) else WaitFor(world, log2, policy.afterTerm, w1.at);
            var log3 := log2 + [Sent(Kill, w2.at, world.refuses(Kill))];
            var w3 := if world.refuses(Kill) then Wait(false, w2.at) else WaitFor(world, log3, 0, w2.at);
            StopFrom(world, policy, start) == (
              if w1.exited then Stopped(log1, w1.at)
              else if w2.exited then Stopped(log2, w2.at)
              else if w3.exited then Stopped(log3, w3.at)
              else LastWait(world, log3, Refusals(log3), w3.at))
  {
    var log1 := [Sent(CloseStdin, start, world.refuses(CloseStdin))];
    var w1 := WaitFor(world, log1, policy.afterStdin, start);
    var log2 := log1 + [Sent(Term, w1.at, world.refuses(Term))];
    var w2 := if world.refuses(Term) then Wait(false, w1.at) else WaitFor(world, log2, policy.afterTerm, w1.at);
    var log3 := log2 + [Sent(Kill, w2.at, world.refuses(Kill))];
    assert log3[..2] == log2 && log2[..1] == log1 && log1[..0] == [];
    assert Refusals(log1) == if world.refuses(CloseStdin) then [CloseStdin] else [];
    assert Refusals(log2) == if world.refuses(Term) then Refusals(log1) + [Term] else Refusals(log1);
    assert Refusals(log3) == if world.refuses(Kill) then Refusals(log2) + [Kill] else Refusals(log2);
    var steps := [(Term, policy.afterTerm), (Kill, 0)];
    assert steps[1..] == [(Kill, 0)] && steps[1..][1..] == [];
    assert StopFrom(world, policy, start)
        == if w1.exited then Stopped(log1, w1.at) else Escalate(world, steps, log1, Refusals(log1), w1.at);
    assert !w1.exited && !w2.exited ==> Escalate(world, steps, log1, Refusals(log1), w1.at) == Escalate(world, [(Kill, 0)], log2, Refusals(log2), w2.at);
  }

  /**
   The actions are closing standard input, then SIGTERM, then SIGKILL, each at most once and none skipped;
   each but the first comes exactly when the wait before it was given up, and a refused signal is followed at once.
   */
  lemma EscalatesInOrder(world: World, policy: Policy, start: nat)
    ensures Escalated(world, policy, start, StopFrom(world, policy, start).log)
  {
    Unrolled(world, policy, start);
    var log := StopFrom(world, policy, start).log;
    assert |log| > 1 ==> log[..1] == [log[0]];
    assert |log| > 2 ==> log[..2] == [log[0], log[1]];
  }

  /** Success means the exit was seen, and at once: at the moment it came or, if it had come before, of the last step. */
  lemma StoppedMeansExited(world: World, policy: Policy, start: nat)
    requires StopFrom(world, policy, start).Stopped?
    ensures var r := StopFrom(world, policy, start);
            r.log != [] && world.exit(r.log).Some? && r.at == Max(r.log[|r.log| - 1].at, world.exit(r.log).value)
  {
    Unrolled(world, policy, start);
  }

  /** An error means that even SIGKILL was tried, that the context ended no later, and reports exactly what was refused. */
  lemma FailedMeansCutShort(world: World, policy: Policy, start: nat)
    requires StopFrom(world, policy, start).Failed?
    ensures var r := StopFrom(world, policy, start);
            && |r.log| == 3 && r.log[2].action == Kill
            && world.cancelled.Some? && r.at == Max(r.log[2].at, world.cancelled.value)
            && (world.exit(r.log).Some? ==> world.exit(r.log).value >= r.at || (r.log[2].refused && r.at == r.log[2].at))
            && r.errors == Refusals(r.log)
  {
    Unrolled(world, policy, start);
  }

  /** A process that has exited by the time of a step is sent nothing more, if there is no grace for it to exit in. */
  lemma GoneIsSeen(world: World, policy: Policy, start: nat, i: nat)
    requires i < |StopFrom(world, policy, start).log|
    requires var log := StopFrom(world, policy, start).log[..i + 1];
             && Waited(log) && Grace(policy, log) <= 0
             && world.exit(log).Some? && world.exit(log).value <= log[i].at
    ensures var r := StopFrom(world, policy, start); r.Stopped? && |r.log| == i + 1 && r.at == r.log[i].at
  {
    Unrolled(world, policy, start);
    var log := StopFrom(world, policy, start).log;
    assert log[..1] == [log[0]];
    assert |log| > 1 ==> log[..2] == [log[0], log[1]];
    assert |log| > 2 ==> log[..3] == log;
  }

  /** It fails to return exactly when the context never ends and the process survives everything. */
  lemma StuckMeansUnkillable(world: World, policy: Policy, start: nat)
    ensures var r := StopFrom(world, policy, start);
            r.Stuck? <==> |r.log| == 3 && world.cancelled.None? && world.exit(r.log).None?
  {
    Unrolled(world, policy, start);
  }

  /** However long the policy allows, it returns no later than the context ends, having tried everything by then. */
  lemma ReturnsByCancellation(world: World, policy: Policy, start: nat)
    requires world.cancelled.Some?
    ensures var r := StopFrom(world, policy, start);
            && !r.Stuck? && r.at <= Max(start, world.cancelled.value)
            && forall i :: 0 <= i < |r.log| ==> start <= r.log[i].at <= r.at
  {
    Unrolled(world, policy, start);
  }

  /** The process is running at `at`, given what was done to it. */
  predicate AliveAt(world: World, log: seq<Sent>, at: nat) {
    world.exit(log).None? || world.exit(log).value > at
  }

  /**
   With a context that does not end before then and a system that refuses nothing, SIGKILL is sent at exactly the two
   graces after the start to a process still running when each of them ends, and to no process that
   exited before; at the very moment a grace ends it may go either way.
   */
  lemma KillsOnTime(world: World, policy: Policy, start: nat)
    requires forall a :: !world.refuses(a)
    requires world.cancelled.Some? ==> world.cancelled.value >= start + Max(0, policy.afterStdin) + Max(0, policy.afterTerm)
    ensures var termAt := start + Max(0, policy.afterStdin);
            var killAt := termAt + Max(0, policy.afterTerm);
            var closed := [Sent(CloseStdin, start, false)];
            var termed := closed + [Sent(Term, termAt, false)];
            var killed := termed + [Sent(Kill, killAt, false)];
            var log := StopFrom(world, policy, start).log;
            && (log == killed || log == termed || log == closed)
            && (AliveAt(world, closed, termAt) && AliveAt(world, termed, killAt) ==> log == killed)
            && (log == killed ==> (termAt == start || AliveAt(world, closed, termAt - 1))
                                  && (killAt == termAt || AliveAt(world, termed, killAt - 1)))
            && (log == termed ==> world.exit(termed).Some? && world.exit(termed).value <= killAt)
            && (log == closed ==> world.exit(closed).Some? && world.exit(closed).value <= termAt)
  {
    Unrolled(world, policy, start);
  }
}
