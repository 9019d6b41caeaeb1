/**
 One server of the configuration and the processes that serve it, one after another.

 A process is named by the order in which it was spawned, and all that is known of it is whether it
 has exited; it may exit at any moment. Stopping one returns only once it has exited.
 */
module BackendSpec {
  import opened Prelude

  /**
   `calls` maps each call that was given a session to the process the session runs over, and
   `failing` holds those of them that failed because their process went away, and have not yet
   reported it.
   */
  datatype State = State(
    closed: bool,
    proc: Option<nat>,
    conn: Option<nat>,
    exited: seq<bool>,
    calls: map<nat, nat>,
    failing: set<nat>)

  datatype SessionError = NotConnected | SpawnFailed | ConnectFailed

  datatype Event =
    | Session(call: nat, spawns: bool, connects: bool, exits: bool)
    | Exit(process: nat)
    | Judge(call: nat, lost: bool)
    | Forget(call: nat)
    | Finish(call: nat)
    | Close

  /** Every process but the current one has exited, and a connection runs over the current one. */
  predicate Inv(s: State) {
    && (forall p :: 0 <= p < |s.exited| && !s.exited[p] ==> s.proc == Some(p))
    && (s.proc.Some? ==> s.proc.value < |s.exited|)
    && (s.conn.Some? ==> s.conn == s.proc)
    && (s.closed ==> s.proc == None)
    && (forall c :: c in s.calls ==> s.calls[c] < |s.exited|)
    && (forall c :: c in s.failing ==> c in s.calls)
  }

  /** A session can be had without starting a process. */
  predicate Live(s: State) {
    s.proc.Some? && s.conn.Some? && s.proc.value < |s.exited| && !s.exited[s.proc.value]
  }

  function Discard(s: State): State {
    s.(proc := None, conn := None,
       exited := if s.proc.Some? && s.proc.value < |s.exited| then s.exited[s.proc.value := true] else s.exited)
  }

  /**
   What one call to `session` leaves behind, and the process its session runs over. A process may exit between
   the moment it was found running, or was spawned, and the return; `exits` says whether this one did.
   */
  function Sessioned(s: State, spawns: bool, connects: bool, exits: bool): (State, Result<nat, SessionError>) {
    if s.closed then (s, Err(NotConnected))
    else if Live(s) then (if exits then s.(exited := s.exited[s.proc.value := true]) else s, Ok(s.proc.value))
    else
      var d := if s.proc.Some? then Discard(s) else s;
      if !spawns then (d, Err(SpawnFailed))
      else if !connects then (d.(exited := d.exited + [true]), Err(ConnectFailed))
      else (d.(proc := Some(|d.exited|), conn := Some(|d.exited|), exited := d.exited + [exits]), Ok(|d.exited|))
  }

  /** Forgetting the session of a process that went away, unless it has been replaced meanwhile. */
  function Forgotten(s: State, p: nat): State {
    if s.proc == Some(p) then s.(conn := None) else s
  }

  ghost predicate Enabled(s: State, e: Event) {
    match e
    case Session(c, _, _, _) => c !in s.calls
    case Exit(p) => p < |s.exited|
    case Judge(c, lost) => c in s.calls && s.calls[c] < |s.exited| && (lost || s.exited[s.calls[c]])
    case Forget(c) => c in s.failing && c in s.calls
    case Finish(c) => c in s.calls && c !in s.failing
    case Close => true
  }

  function Step(s: State, e: Event): State {
    match e
    case Session(c, spawns, connects, exits) =>
      var r := Sessioned(s, spawns, connects, exits);
      if r.1.Ok? then r.0.(calls := s.calls[c := r.1.value]) else r.0
    case Exit(p) => if p < |s.exited| then s.(exited := s.exited[p := true]) else s
    case Judge(c, _) => s.(failing := s.failing + {c})
    case Forget(c) =>
      (if c in s.calls then Forgotten(s, s.calls[c]) else s).(calls := s.calls - {c}, failing := s.failing - {c})
    case Finish(c) => s.(calls := s.calls - {c})
    case Close => Discard(s).(closed := true)
  }

  const INITIAL := State(false, None, None, [], map[], {})

  ghost predicate Run(states: seq<State>, events: seq<Event>) {
    && |states| == |events| + 1
    && states[0] == INITIAL
    && forall i {:trigger events[i]} :: 0 <= i < |events| ==>
         Enabled(states[i], events[i]) && states[i + 1] == Step(states[i], events[i])
  }

  lemma StepKeeps(s: State, e: Event)
    requires Inv(s) && Enabled(s, e)
    ensures Inv(Step(s, e))
  {
  }

  lemma OthersExited(s: State)
    requires Inv(s)
    ensures s.proc.Some? ==> s.proc.value < |s.exited|
    ensures forall p :: 0 <= p < |s.exited| && !s.exited[p] ==> s.proc == Some(p)
  {
  }

  lemma {:induction false} RunInv(states: seq<State>, events: seq<Event>, i: nat)
    requires Run(states, events) && i < |states|
    ensures Inv(states[i])
  {
    hide Inv;
    if i == 0 {
      InitialInv();
    } else {
      RunInv(states, events, i - 1);
      StepKeeps(states[i - 1], events[i - 1]);
    }
  }

  lemma InitialInv()
    ensures Inv(INITIAL)
  {
  }

  function Alive(s: State): set<nat> {
    set p: nat | p < |s.exited| && !s.exited[p]
  }

  /** Over every run, with calls failing and processes exiting at any moment, at most one process is alive. */
  lemma AtMostOneAlive(states: seq<State>, events: seq<Event>, i: nat)
    requires Run(states, events) && i < |states|
    ensures |Alive(states[i])| <= 1
    ensures forall p :: p in Alive(states[i]) ==> states[i].proc == Some(p)
    ensures states[i].conn.Some? ==> states[i].conn == states[i].proc
  {
    RunInv(states, events, i);
    var s := states[i];
    if s.proc.Some? {
      SubsetCardinality(Alive(s), {s.proc.value});
    } else {
      assert Alive(s) == {};
    }
  }

  /**
   A session handed out runs over the current process, the only one that can be alive, and alive unless it exited
   during the call; a process is started only when there is no session to be had over a running one.
   */
  lemma SessionIsLive(states: seq<State>, events: seq<Event>, i: nat)
    requires Run(states, events) && i < |events| && events[i].Session?
    requires events[i].call in states[i + 1].calls
    ensures var s := states[i]; var s' := states[i + 1]; var p := s'.calls[events[i].call];
            && Alive(s') == (if events[i].exits then {} else {p}) && s'.proc == s'.conn == Some(p)
            && (if Live(s) then |s'.exited| == |s.exited| && s.proc == Some(p) else |s'.exited| == |s.exited| + 1 && p == |s.exited|)
  {
    RunInv(states, events, i);
    RunInv(states, events, i + 1);
  }

  /** A session that is refused leaves no process behind, and is refused only by a closed backend or for want of a process or a connection. */
  lemma RefusedSessionLeavesNothing(states: seq<State>, events: seq<Event>, i: nat)
    requires Run(states, events) && i < |events| && events[i].Session?
    requires events[i].call !in states[i + 1].calls
    ensures Alive(states[i + 1]) == {}
    ensures states[i].closed || (!Live(states[i]) && !(events[i].spawns && events[i].connects))
  {
    RunInv(states, events, i);
    RunInv(states, events, i + 1);
  }

  /**
   The error a call is given is the true one: that the backend is closed, or else, when there was no session over a
   running process to be had, that none could be spawned or that the one spawned could not be connected to; and what
   was spawned in vain has exited.
   */
  lemma SessionErrorIsTrue(states: seq<State>, events: seq<Event>, i: nat, error: SessionError)
    requires Run(states, events) && i < |events| && events[i].Session?
    ensures var s, e := states[i], events[i];
            var had := exists p :: s.proc == Some(p) && s.conn == Some(p) && p in Alive(s);
            && (Sessioned(s, e.spawns, e.connects, e.exits).1 == Err(error) <==>
                  match error
                  case NotConnected => s.closed
                  case SpawnFailed => !s.closed && !had && !e.spawns
                  case ConnectFailed => !s.closed && !had && e.spawns && !e.connects)
            && (Sessioned(s, e.spawns, e.connects, e.exits).1.Ok? <==> e.call in states[i + 1].calls)
            && |states[i + 1].exited| == |s.exited| + if s.closed || had || !e.spawns then 0 else 1
  {
    RunInv(states, events, i);
    var s := states[i];
    var had := exists p :: s.proc == Some(p) && s.conn == Some(p) && p in Alive(s);
    assert Live(s) <==> had by {
      if Live(s) {
        assert s.proc == Some(s.proc.value) && s.proc.value in Alive(s);
      }
    }
  }

  /** Session over `p` is over for good: `p` is not the current process, or its connection was forgotten. */
  predicate Spent(s: State, p: nat) {
    p < |s.exited| && !(s.proc == Some(p) && s.conn.Some?)
  }

  lemma SpentStep(s: State, e: Event, p: nat)
    requires Enabled(s, e) && Spent(s, p)
    ensures Spent(Step(s, e), p)
  {
  }

  lemma {:induction false} SpentForGood(states: seq<State>, events: seq<Event>, i: nat, j: nat, p: nat)
    requires Run(states, events) && i <= j < |states| && Spent(states[i], p)
    ensures Spent(states[j], p)
    decreases j - i
  {
    hide Spent;
    if i < j {
      SpentStep(states[i], events[i], p);
      SpentForGood(states, events, i + 1, j, p);
    }
  }

  /** Once a call has reported that its process went away, no later call is given a session over that process. */
  lemma FailedProcessIsReplaced(states: seq<State>, events: seq<Event>, i: nat, j: nat)
    requires Run(states, events) && i < j < |events| && events[i].Forget? && events[j].Session?
    requires events[j].call in states[j + 1].calls
    ensures events[i].call in states[i].calls && states[j + 1].calls[events[j].call] != states[i].calls[events[i].call]
  {
    var p := states[i].calls[events[i].call];
    RunInv(states, events, i);
    assert Spent(states[i + 1], p);
    SpentForGood(states, events, i + 1, j, p);
    SessionIsLive(states, events, j);
  }

  /** A late report about an old process leaves its replacement, and the session over it, as they were. */
  lemma LateFailureIsHarmless(states: seq<State>, events: seq<Event>, i: nat, q: nat)
    requires Run(states, events) && i < |events| && events[i].Forget?
    requires states[i].proc == states[i].conn == Some(q) && states[i].calls[events[i].call] != q
    ensures states[i + 1].proc == states[i + 1].conn == Some(q) && states[i + 1].exited == states[i].exited
  {
  }

  /** What a closed backend does, and what closing it does: no new process, no new session. */
  lemma ClosedStep(s: State, e: Event)
    requires Enabled(s, e) && (s.closed || e.Close?)
    ensures Step(s, e).closed && |Step(s, e).exited| == |s.exited|
    ensures forall c :: c in Step(s, e).calls ==> c in s.calls
  {
  }

  lemma ClosedIsDead(s: State)
    requires Inv(s) && s.closed
    ensures Alive(s) == {}
  {
  }

  /** After it is closed a backend has no live process, starts none and gives out no session. */
  lemma {:induction false} ClosedForGood(states: seq<State>, events: seq<Event>, i: nat, j: nat)
    requires Run(states, events) && i < j < |states| && events[i].Close?
    ensures states[j].closed && Alive(states[j]) == {} && |states[j].exited| == |states[i].exited|
    ensures forall c :: c in states[j].calls ==> c in states[i].calls
    decreases j
  {
    hide Inv, Alive, Enabled, Step;
    if j > i + 1 {
      ClosedForGood(states, events, i, j - 1);
    }
    ClosedStep(states[j - 1], events[j - 1]);
    RunInv(states, events, j);
    ClosedIsDead(states[j]);
  }
}

/** The backend as the object whose fields its locked sections update. */
module Backends {
  import opened Prelude
  import Spec = BackendSpec

  lemma DistinctFurther(called: seq<nat>, id: nat)
    requires id !in called && forall i, j :: 0 <= i < j < |called| ==> called[i] != called[j]
    ensures var more := called + [id];
            && (forall i, j :: 0 <= i < j < |more| ==> more[i] != more[j])
            && forall x :: x in more <==> x in called || x == id
  {
    var more := called + [id];
    assert forall i :: 0 <= i < |called| ==> more[i] == called[i] && called[i] in called;
    assert more[|called|] == id;
  }

  class Backend {
    // Guarded by the backend's own lock, which a session holds from its first check to its last assignment.
    var proc: Option<nat>
    var conn: Option<nat>
    var closed: bool
    // Guarded by a lock of their own.
    var listeners: map<nat, Callback>
    var nextID: nat
    // The operating system's side: for every process ever spawned, whether it has exited.
    var exited: seq<bool>
    // What the calls in progress hold, and how often the backend was closed.
    ghost var calls: map<nat, nat>
    ghost var failing: set<nat>
    ghost var closes: nat

    ghost function View(): Spec.State
      reads this
    {
      Spec.State(closed, proc, conn, exited, calls, failing)
    }

    ghost predicate Valid()
      reads this
    {
      && Spec.Inv(View())
      && (forall id :: id in listeners ==> id < nextID)
      && (closed <==> closes > 0)
    }

    constructor ()
      ensures Valid() && View() == Spec.INITIAL
      ensures listeners == map[] && nextID == 0 && closes == 0
    {
      proc, conn, closed := None, None, false;
      listeners, nextID := map[], 0;
      exited := [];
      calls, failing, closes := map[], {}, 0;
    }

    /** One call for a session: the running one, or one over a process spawned in place of what was there. */
    method Session(ghost call: nat, spawns: bool, connects: bool, exits: bool) returns (r: Result<nat, Spec.SessionError>)
      requires Valid() && call !in calls
      modifies this`proc, this`conn, this`exited, this`calls
      ensures Valid()
      ensures View() == Spec.Step(old(View()), Spec.Session(call, spawns, connects, exits))
      ensures r == Spec.Sessioned(old(View()), spawns, connects, exits).1
    {
      hide Spec.Inv;
      Spec.StepKeeps(View(), Spec.Session(call, spawns, connects, exits));
      Spec.OthersExited(View());
      if closed {
        return Err(Spec.NotConnected);
      }
      if proc.Some? && conn.Some? && !exited[proc.value] {
        r := Ok(proc.value);
        calls := calls[call := proc.value];
        if exits {
          exited := exited[proc.value := true];
        }
        return;
      }
      if proc.Some? {
        DiscardLocked();
      }
      if !spawns {
        return Err(Spec.SpawnFailed);
      }
      ghost var before := exited;
      var started := Spawn();
      if !connects {
        Stop(started);
        assert exited == before + [true];
        return Err(Spec.ConnectFailed);
      }
      exited := exited[started := exits];
      assert exited == before + [exits];
      proc, conn := Some(started), Some(started);
      calls := calls[call := started];
      r := Ok(started);
    }

    /** Starts a process. Whoever calls it has made sure that none is alive. */
    method Spawn() returns (p: nat)
      requires forall q :: 0 <= q < |exited| ==> exited[q]
      modifies this`exited
      ensures p == |old(exited)| && exited == old(exited) + [false]
    {
      p := |exited|;
      exited := exited + [false];
    }

    /** Ends a process, returning once it has exited. */
    method Stop(p: nat)
      requires p < |exited|
      modifies this`exited
      ensures exited == old(exited)[p := true]
    {
      exited := exited[p := true];
    }

    method DiscardLocked()
      requires proc.Some? ==> proc.value < |exited|
      modifies this`proc, this`conn, this`exited
      ensures View() == Spec.Discard(old(View()))
    {
      if conn.Some? {
        conn := None;
      }
      if proc.Some? {
        Stop(proc.value);
        proc := None;
      }
    }

    /**
     A call failed: whether its process went away, so that repeating the request is enough. It did if it has exited, or
     if the connection was lost and the exit may not have been seen yet.
     */
    method Classify(ghost call: nat, p: nat, lost: bool) returns (retryable: bool)
      requires Valid() && call in calls && call !in failing && p == calls[call]
      modifies this`failing
      ensures Valid()
      ensures retryable <==> lost || exited[p]
      ensures retryable ==> Spec.Enabled(old(View()), Spec.Judge(call, lost))
      ensures View() == if retryable then Spec.Step(old(View()), Spec.Judge(call, lost)) else old(View())
    {
      if !exited[p] && !lost {
        return false;
      }
      failing := failing + {call};
      retryable := true;
    }

    /** The locked part of reporting that a call's process went away. */
    method Forget(ghost call: nat, p: nat)
      requires Valid() && call in failing && p == calls[call]
      modifies this`conn, this`calls, this`failing
      ensures Valid()
      ensures View() == Spec.Step(old(View()), Spec.Forget(call))
    {
      if proc == Some(p) {
        conn := None;
      }
      calls, failing := calls - {call}, failing - {call};
    }

    /** No session after this, and no process: the current one is ended. */
    method Close()
      requires Valid()
      modifies this`proc, this`conn, this`exited, this`closed, this`closes
      ensures Valid() && closed && closes == old(closes) + 1
      ensures View() == Spec.Step(old(View()), Spec.Close)
    {
      closed := true;
      closes := closes + 1;
      DiscardLocked();
    }

    method Subscribe(f: Callback) returns (id: nat)
      requires Valid()
      modifies this`listeners, this`nextID
      ensures Valid()
      ensures id == old(nextID) && id !in old(listeners) && listeners == old(listeners)[id := f]
      ensures nextID == old(nextID) + 1
    {
      id := nextID;
      nextID := nextID + 1;
      listeners := listeners[id := f];
    }

    method Unsubscribe(id: nat)
      requires Valid()
      modifies this`listeners
      ensures Valid() && listeners == old(listeners) - {id}
    {
      listeners := listeners - {id};
    }

    /**
     Announces a change. The listeners called are those registered when the lock was held, each once and in no
     particular order; the calls come after it has been given up, so that one released meanwhile is still among them.
     */
    method Publish() returns (called: seq<nat>)
      requires Valid()
      ensures forall id :: id in called <==> id in listeners
      ensures forall i, j :: 0 <= i < j < |called| ==> called[i] != called[j]
    {
      called := [];
      var waiting := listeners.Keys;
      while waiting != {}
        invariant waiting <= listeners.Keys
        invariant forall id :: id in called <==> id in listeners.Keys - waiting
        invariant forall i, j :: 0 <= i < j < |called| ==> called[i] != called[j]
        decreases waiting
      {
        var id :| id in waiting;
        DistinctFurther(called, id);
        waiting := waiting - {id};
        called := called + [id];
      }
    }
  }
}
