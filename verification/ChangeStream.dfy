/**
 The coalescing change stream: every backend's announcements on one bounded channel to one client.

 Any number of deliveries and receives run at once. A delivery gives up the lock between marking a
 kind pending and sending it, and a receive takes it only after having received, so both have a
 step of their own on either side.
 */
module ChangeStreamSpec {
  import opened Prelude

  datatype Kind = Tools | Prompts | Resources

  const ALL_KINDS := {Tools, Prompts, Resources}

  /** The channel is made with one slot for each kind. */
  const CAPACITY: nat := 3

  /** `sending` holds the deliveries between their two steps, `taking` the receives between theirs. */
  datatype State = State(pending: set<Kind>, channel: seq<Kind>, sending: map<nat, Kind>, taking: map<nat, Kind>)

  datatype Event =
    | Mark(call: nat, kind: Kind)
    | Send(call: nat)
    | Receive(call: nat)
    | Unmark(call: nat)

  const INITIAL := State({}, [], map[], map[])

  /** A step a thread is ready to take; a send waits for a free slot, a receive for something to receive. */
  predicate Enabled(s: State, e: Event) {
    match e
    case Mark(c, _) => c !in s.sending
    case Send(c) => c in s.sending && |s.channel| < CAPACITY
    case Receive(c) => c !in s.taking && s.channel != []
    case Unmark(c) => c in s.taking
  }

  function Step(s: State, e: Event): State
    requires Enabled(s, e)
  {
    match e
    case Mark(c, k) =>
      if k in s.pending then s else s.(pending := s.pending + {k}, sending := s.sending[c := k])
    case Send(c) => s.(channel := s.channel + [s.sending[c]], sending := s.sending - {c})
    case Receive(c) => s.(channel := s.channel[1..], taking := s.taking[c := s.channel[0]])
    case Unmark(c) => s.(pending := s.pending - {s.taking[c]}, taking := s.taking - {c})
  }

  ghost predicate Run(states: seq<State>, events: seq<Event>) {
    && |states| == |events| + 1
    && states[0] == INITIAL
    && forall i {:trigger events[i]} :: 0 <= i < |events| ==>
         Enabled(states[i], events[i]) && states[i + 1] == Step(states[i], events[i])
  }

  ghost predicate Injective(m: map<nat, Kind>) {
    forall c, d :: c in m && d in m && m[c] == m[d] ==> c == d
  }

  /**
   A kind is pending exactly when one token for it is about: with a sender, in the channel, or with a
   receiver that has not unmarked it. It is never in two of these places, nor twice in one.
   */
  ghost predicate Inv(s: State) {
    && Injective(s.sending) && Injective(s.taking)
    && (forall i, j :: 0 <= i < j < |s.channel| ==> s.channel[i] != s.channel[j])
    && (forall c :: c in s.sending ==> s.sending[c] !in s.channel && s.sending[c] !in s.taking.Values)
    && (forall c :: c in s.taking ==> s.taking[c] !in s.channel)
    && (forall k :: k in s.pending <==> k in s.channel || k in s.sending.Values || k in s.taking.Values)
  }

  lemma ValuesAdded(m: map<nat, Kind>, c: nat, k: Kind)
    requires c !in m
    ensures m[c := k].Values == m.Values + {k}
  {
    var n := m[c := k];
    assert n[c] == k;
    forall x ensures x in n.Values <==> x in m.Values || x == k {
      if x in m.Values {
        var d :| d in m && m[d] == x;
        assert n[d] == x;
      }
    }
  }

  lemma ValuesRemoved(m: map<nat, Kind>, c: nat)
    requires c in m && Injective(m)
    ensures (m - {c}).Values == m.Values - {m[c]}
  {
    var rest := m - {c};
    assert rest[c := m[c]] == m;
    ValuesAdded(rest, c, m[c]);
  }

  lemma StepKeeps(s: State, e: Event)
    requires Inv(s) && Enabled(s, e)
    ensures Inv(Step(s, e))
  {
    match e
    case Mark(c, k) => MarkKeeps(s, c, k);
    case Send(c) => SendKeeps(s, c);
    case Receive(c) => ReceiveKeeps(s, c);
    case Unmark(c) => UnmarkKeeps(s, c);
  }

  lemma MarkKeeps(s: State, c: nat, k: Kind)
    requires Inv(s) && Enabled(s, Mark(c, k))
    ensures Inv(Step(s, Mark(c, k)))
  {
    var r := Step(s, Mark(c, k));
    if k !in s.pending {
      ValuesAdded(s.sending, c, k);
    }
  }

  lemma SendKeeps(s: State, c: nat)
    requires Inv(s) && Enabled(s, Send(c))
    ensures Inv(Step(s, Send(c)))
  {
    ValuesRemoved(s.sending, c);
  }

  lemma ReceiveKeeps(s: State, c: nat)
    requires Inv(s) && Enabled(s, Receive(c))
    ensures Inv(Step(s, Receive(c)))
  {
    assert s.channel == [s.channel[0]] + s.channel[1..];
    ValuesAdded(s.taking, c, s.channel[0]);
  }

  lemma UnmarkKeeps(s: State, c: nat)
    requires Inv(s) && Enabled(s, Unmark(c))
    ensures Inv(Step(s, Unmark(c)))
  {
    ValuesRemoved(s.taking, c);
  }

  lemma {:induction false} RunInv(states: seq<State>, events: seq<Event>, i: nat)
    requires Run(states, events) && i < |states|
    ensures Inv(states[i])
  {
    hide Inv;
    if i == 0 {
      InitialInv();
    } else {
      RunInv(states, events, i - 1);
      StepKeeps(states[i - 1], events[i - 1]);
    }
  }

  lemma InitialInv()
    ensures Inv(INITIAL)
  {
  }

  // ---------------------------------------------------------------------------------------------
  // It never blocks
  // ---------------------------------------------------------------------------------------------

  function KindsOf(channel: seq<Kind>): set<Kind> {
    set k | k in channel
  }

  lemma {:induction false} DistinctCount(channel: seq<Kind>)
    requires forall i, j :: 0 <= i < j < |channel| ==> channel[i] != channel[j]
    ensures |channel| == |KindsOf(channel)|
  {
    if channel != [] {
      DistinctCount(channel[1..]);
      assert channel == [channel[0]] + channel[1..];
      CardinalityGrows(KindsOf(channel[1..]), channel[0], KindsOf(channel));
    }
  }

  lemma AllKindsCount(kinds: set<Kind>)
    ensures |kinds| <= CAPACITY
    ensures forall k :: k !in kinds ==> |kinds| < CAPACITY
  {
    assert kinds <= ALL_KINDS by {
      forall k | k in kinds ensures k in ALL_KINDS {
        assert k == Tools || k == Prompts || k == Resources;
      }
    }
    SubsetCardinality(kinds, ALL_KINDS);
    forall k: Kind | k !in kinds ensures |kinds| < CAPACITY {
      assert k in ALL_KINDS by { assert k == Tools || k == Prompts || k == Resources; }
      assert kinds <= ALL_KINDS - {k};
      SubsetCardinality(kinds, ALL_KINDS - {k});
      assert |ALL_KINDS - {k}| == 2;
    }
  }

  lemma RoomToSend(s: State, call: nat)
    requires Inv(s) && call in s.sending
    ensures |s.channel| < CAPACITY
  {
    DistinctCount(s.channel);
    assert s.sending[call] !in KindsOf(s.channel);
    AllKindsCount(KindsOf(s.channel));
  }

  /** A delivery that has marked its kind finds a free slot, however many are under way at once: no backend's reader is ever held up. */
  lemma NeverBlocks(states: seq<State>, events: seq<Event>, i: nat, call: nat)
    requires Run(states, events) && i < |states| && call in states[i].sending
    ensures |states[i].channel| < CAPACITY && Enabled(states[i], Send(call))
  {
    RunInv(states, events, i);
    RoomToSend(states[i], call);
  }

  // ---------------------------------------------------------------------------------------------
  // It loses nothing
  // ---------------------------------------------------------------------------------------------

  /** Where the one token of a pending kind is. */
  datatype Holder = Sender(call: nat) | Queued(at: nat) | Receiver(call: nat)

  ghost predicate Holds(s: State, h: Holder, k: Kind) {
    match h
    case Sender(c) => c in s.sending && s.sending[c] == k
    case Queued(i) => i < |s.channel| && s.channel[i] == k
    case Receiver(c) => c in s.taking && s.taking[c] == k
  }

  /** A pending kind has exactly one token, and a kind that is not pending has none. */
  lemma OneToken(states: seq<State>, events: seq<Event>, i: nat, k: Kind)
    requires Run(states, events) && i < |states|
    ensures k in states[i].pending <==> exists h :: Holds(states[i], h, k)
    ensures forall h, g :: Holds(states[i], h, k) && Holds(states[i], g, k) ==> h == g
  {
    RunInv(states, events, i);
    var s := states[i];
    if k in s.channel {
      var at :| 0 <= at < |s.channel| && s.channel[at] == k;
      assert Holds(s, Queued(at), k);
    } else if k in s.sending.Values {
      var c :| c in s.sending && s.sending[c] == k;
      assert Holds(s, Sender(c), k);
    } else if k in s.taking.Values {
      var c :| c in s.taking && s.taking[c] == k;
      assert Holds(s, Receiver(c), k);
    }
  }

  /** `events[n]` is the end of a receive that tells its caller of kind `k`. */
  ghost predicate Tells(states: seq<State>, events: seq<Event>, n: nat, k: Kind)
    requires |states| == |events| + 1 && n < |events|
  {
    events[n].Unmark? && events[n].call in states[n].taking && states[n].taking[events[n].call] == k
  }

  /**
   No change is lost: after a delivery of kind `k`, coalesced or not, either some receive has since told
   its caller of `k`, having begun or not before the delivery, or `k` is still pending and so is owed.
   */
  lemma {:induction false} NothingLost(states: seq<State>, events: seq<Event>, i: nat, j: nat, k: Kind)
    requires Run(states, events) && i < j < |states| && events[i].Mark? && events[i].kind == k
    ensures k in states[j].pending || exists n :: i < n < j && Tells(states, events, n, k)
    decreases j
  {
    if j > i + 1 {
      NothingLost(states, events, i, j - 1, k);
      if k in states[j - 1].pending && k !in states[j].pending {
        assert Tells(states, events, j - 1, k);
      }
    }
  }

  /** How often kind `k` was newly marked, and how often it was told of, in the first `n` steps. */
  ghost function Marked(states: seq<State>, events: seq<Event>, n: nat, k: Kind): nat
    requires |states| == |events| + 1 && n <= |events|
  {
    if n == 0 then 0
    else Marked(states, events, n - 1, k) + (if events[n - 1] == Mark(events[n - 1].call, k) && k !in states[n - 1].pending then 1 else 0)
  }

  ghost function Told(states: seq<State>, events: seq<Event>, n: nat, k: Kind): nat
    requires |states| == |events| + 1 && n <= |events|
  {
    if n == 0 then 0 else Told(states, events, n - 1, k) + (if Tells(states, events, n - 1, k) then 1 else 0)
  }

  /** Nothing is told that was not announced: the two counts differ by exactly what is pending. */
  lemma {:induction false} ToldIsMarked(states: seq<State>, events: seq<Event>, n: nat, k: Kind)
    requires Run(states, events) && n <= |events|
    ensures Marked(states, events, n, k) == Told(states, events, n, k) + (if k in states[n].pending then 1 else 0)
  {
    if n > 0 {
      ToldIsMarked(states, events, n - 1, k);
      RunInv(states, events, n - 1);
      assert states[n] == Step(states[n - 1], events[n - 1]);
    }
  }

  // ---------------------------------------------------------------------------------------------
  // It drains
  // ---------------------------------------------------------------------------------------------

  /** What is left to do for the changes under way: three steps for one being sent, two for one queued, one for one received. */
  function Work(s: State): nat {
    3 * |s.sending| + 2 * |s.channel| + |s.taking|
  }

  lemma RemovedCount(m: map<nat, Kind>, c: nat)
    requires c in m
    ensures |m - {c}| == |m| - 1
  {
    CardinalityGrows((m - {c}).Keys, c, m.Keys);
  }

  lemma EachStepIsWork(s: State, e: Event)
    requires Enabled(s, e) && !e.Mark?
    ensures Work(Step(s, e)) == Work(s) - 1
  {
    match e
    case Send(c) => RemovedCount(s.sending, c);
    case Receive(c) => CardinalityGrows(s.taking.Keys, c, s.taking[c := s.channel[0]].Keys);
    case Unmark(c) => RemovedCount(s.taking, c);
  }

  lemma {:induction false} InjectiveCount(m: map<nat, Kind>)
    requires Injective(m)
    ensures |m| == |m.Values|
    decreases |m|
  {
    if m != map[] {
      var c :| c in m;
      var rest := m - {c};
      RemovedCount(m, c);
      InjectiveCount(rest);
      assert rest[c := m[c]] == m;
      ValuesRemoved(m, c);
      ValuesAdded(rest, c, m[c]);
      CardinalityGrows(rest.Values, m[c], m.Values);
    }
  }

  lemma UnionCount<T>(a: set<T>, b: set<T>, c: set<T>)
    requires a !! b && (a + b) !! c
    ensures |a + b + c| == |a| + |b| + |c|
  {
  }

  lemma WorkIsBounded(s: State)
    requires Inv(s)
    ensures Work(s) <= 3 * |s.pending|
    ensures |s.pending| <= CAPACITY
  {
    DistinctCount(s.channel);
    InjectiveCount(s.sending);
    InjectiveCount(s.taking);
    AllKindsCount(s.pending);
    TokensApart(s);
    UnionCount(s.sending.Values, KindsOf(s.channel), s.taking.Values);
  }

  lemma TokensApart(s: State)
    requires Inv(s)
    ensures s.pending == s.sending.Values + KindsOf(s.channel) + s.taking.Values
    ensures s.sending.Values !! KindsOf(s.channel) && (s.sending.Values + KindsOf(s.channel)) !! s.taking.Values
  {
  }

  /**
   The stream drains: between deliveries at most nine steps are taken, and as long as something is
   pending and the client is receiving, there is a step to take.
   */
  lemma {:induction false} Drains(states: seq<State>, events: seq<Event>, i: nat, j: nat)
    requires Run(states, events) && i <= j < |states|
    requires forall n :: i <= n < j ==> !events[n].Mark?
    ensures Work(states[j]) == Work(states[i]) - (j - i)
    ensures j - i <= 3 * |states[i].pending| <= 9
    decreases j - i
  {
    RunInv(states, events, i);
    WorkIsBounded(states[i]);
    if i < j {
      EachStepIsWork(states[i], events[i]);
      Drains(states, events, i + 1, j);
    }
  }

  lemma SomeStepIsEnabled(states: seq<State>, events: seq<Event>, i: nat, next: nat)
    requires Run(states, events) && i < |states| && states[i].pending != {} && next !in states[i].taking
    ensures exists e: Event :: !e.Mark? && Enabled(states[i], e)
  {
    var s := states[i];
    RunInv(states, events, i);
    var k :| k in s.pending;
    if k in s.channel {
      assert Enabled(s, Receive(next));
    } else if k in s.sending.Values {
      var c :| c in s.sending && s.sending[c] == k;
      NeverBlocks(states, events, i, c);
      assert Enabled(s, Send(c));
    } else {
      var c :| c in s.taking && s.taking[c] == k;
      assert Enabled(s, Unmark(c));
    }
  }

  // ---------------------------------------------------------------------------------------------
  // It keeps order
  // ---------------------------------------------------------------------------------------------

  /** The kind that call `c` announced last, in the first `i` steps. */
  function Announced(events: seq<Event>, i: nat, c: nat): Option<Kind>
    requires i <= |events|
  {
    if i == 0 then None
    else if events[i - 1].Mark? && events[i - 1].call == c then Some(events[i - 1].kind)
    else Announced(events, i - 1, c)
  }

  /** A delivery under way sends what its caller announced. */
  lemma {:induction false} SendsWhatWasAnnounced(states: seq<State>, events: seq<Event>, i: nat, c: nat)
    requires Run(states, events) && i < |states| && c in states[i].sending
    ensures Announced(events, i, c) == Some(states[i].sending[c])
  {
    if i > 0 {
      if !(events[i - 1].Mark? && events[i - 1].call == c) {
        SendsWhatWasAnnounced(states, events, i - 1, c);
      }
    }
  }

  /** The kinds sent in the first `i` steps, in order. */
  function SentKinds(events: seq<Event>, i: nat): seq<Kind>
    requires i <= |events|
  {
    if i == 0 then []
    else SentKinds(events, i - 1) + match events[i - 1]
      case Send(c) => if Announced(events, i - 1, c).Some? then [Announced(events, i - 1, c).value] else []
      case _ => []
  }

  /** The kinds received in them, in order. */
  ghost function ReceivedKinds(states: seq<State>, events: seq<Event>, i: nat): seq<Kind>
    requires |states| == |events| + 1 && i <= |events|
  {
    if i == 0 then []
    else ReceivedKinds(states, events, i - 1) + match events[i - 1]
      case Receive(c) => if c in states[i].taking then [states[i].taking[c]] else []
      case _ => []
  }

  lemma ReceiveFirst(received: seq<Kind>, channel: seq<Kind>)
    requires channel != []
    ensures received + channel == received + [channel[0]] + channel[1..]
  {
  }

  lemma SendLast(received: seq<Kind>, channel: seq<Kind>, k: Kind)
    ensures received + (channel + [k]) == received + channel + [k]
  {
  }

  /** First in, first out: what was received and then what is queued is what was sent, in the order it was sent. */
  lemma {:induction false} FirstInFirstOut(states: seq<State>, events: seq<Event>, i: nat)
    requires Run(states, events) && i < |states|
    ensures ReceivedKinds(states, events, i) + states[i].channel == SentKinds(events, i)
  {
    if i > 0 {
      var s, received := states[i - 1], ReceivedKinds(states, events, i - 1);
      FirstInFirstOut(states, events, i - 1);
      match events[i - 1]
      case Send(c) =>
        SendsWhatWasAnnounced(states, events, i - 1, c);
        SendLast(received, s.channel, s.sending[c]);
      case Receive(c) => ReceiveFirst(received, s.channel);
      case _ =>
    }
  }

  lemma {:induction false} ReceivedGrows(states: seq<State>, events: seq<Event>, i: nat, j: nat)
    requires |states| == |events| + 1 && i <= j <= |events|
    ensures ReceivedKinds(states, events, i) <= ReceivedKinds(states, events, j)
    ensures SentKinds(events, i) <= SentKinds(events, j)
    decreases j
  {
    if i < j {
      ReceivedGrows(states, events, i, j - 1);
    }
  }

  /** A queued kind is not overtaken: at most two others are received before it. */
  lemma ReceivedInTurn(states: seq<State>, events: seq<Event>, i: nat, j: nat, p: nat)
    requires Run(states, events) && i <= j < |states| && p < |states[i].channel|
    requires |ReceivedKinds(states, events, j)| > |ReceivedKinds(states, events, i)| + p
    ensures p <= 2 && ReceivedKinds(states, events, j)[|ReceivedKinds(states, events, i)| + p] == states[i].channel[p]
  {
    RunInv(states, events, i);
    DistinctCount(states[i].channel);
    AllKindsCount(KindsOf(states[i].channel));
    FirstInFirstOut(states, events, i);
    FirstInFirstOut(states, events, j);
    ReceivedGrows(states, events, i, j);
    hide Run, Inv;
    var at := |ReceivedKinds(states, events, i)| + p;
    assert SentKinds(events, i)[at] == states[i].channel[p];
    assert SentKinds(events, j)[at] == ReceivedKinds(states, events, j)[at];
  }
}

/** The listener as the object its steps update. */
module ChangeStreams {
  import opened ChangeStreamSpec

  class Listener {
    var changes: seq<Kind>
    var pending: set<Kind>
    ghost var sending: map<nat, Kind>
    ghost var taking: map<nat, Kind>

    ghost function View(): State
      reads this
    {
      State(pending, changes, sending, taking)
    }

    ghost predicate Valid()
      reads this
    {
      Inv(View())
    }

    constructor ()
      ensures Valid() && View() == INITIAL
    {
      changes, pending, sending, taking := [], {}, map[], map[];
    }

    /** The locked part of delivering a change: whether the caller is to send it. */
    method MarkPending(kind: Kind, ghost call: nat) returns (send: bool)
      requires Valid() && call !in sending
      modifies this`pending, this`sending
      ensures Valid() && View() == Step(old(View()), Mark(call, kind))
      ensures send <==> call in sending
    {
      MarkKeeps(View(), call, kind);
      if kind in pending {
        return false;
      }
      pending := pending + {kind};
      sending := sending[call := kind];
      send := true;
    }

    /** The send itself. There is room for it, so it neither waits nor drops anything. */
    method SendChange(kind: Kind, ghost call: nat)
      requires Valid() && call in sending && sending[call] == kind
      modifies this`changes, this`sending
      ensures Valid() && Enabled(old(View()), Send(call)) && View() == Step(old(View()), Send(call))
      ensures changes == old(changes) + [kind]
    {
      RoomToSend(View(), call);
      SendKeeps(View(), call);
      changes := changes + [kind];
      sending := sending - {call};
    }

    /** The receive of what was sent first, when there is something to receive. */
    method ReceiveChange(ghost call: nat) returns (kind: Kind)
      requires Valid() && call !in taking && changes != []
      modifies this`changes, this`taking
      ensures Valid() && View() == Step(old(View()), Receive(call)) && taking[call] == kind
      ensures old(changes) == [kind] + changes
    {
      ReceiveKeeps(View(), call);
      kind := changes[0];
      changes := changes[1..];
      taking := taking[call := kind];
    }

    /** The locked part of a receive, after which its caller is told of the change. */
    method Unpend(kind: Kind, ghost call: nat)
      requires Valid() && call in taking && taking[call] == kind
      modifies this`pending, this`taking
      ensures Valid() && View() == Step(old(View()), Unmark(call))
      ensures kind !in pending
    {
      UnmarkKeeps(View(), call);
      pending := pending - {kind};
      taking := taking - {call};
    }
  }
}
