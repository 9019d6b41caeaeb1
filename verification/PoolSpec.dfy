/**
 The process pool as a state machine.

 Every locked section of the pool is one step, and so is everything a goroutine does outside the
 lock: finishing a request, and closing an entry the pool has already let go of. An entry is named
 by the position at which it was created, so that a pointer to it stays meaningful after the pool
 has forgotten it. Threads are represented by what they hold: `holding` maps each unfinished request
 to the entry it was given, and `doomed` is the set of entries somebody has promised to close.
 */
module PoolSpec {
  import opened Prelude

  /** The subject, and the fingerprint of the configuration. */
  datatype Key = Key(subject: string, fingerprint: string)

  datatype Limits = Limits(maxProcesses: int, maxPerSubject: int, idleTTL: int)

  datatype Stats = Stats(created: nat, evicted: nat, idleExpired: nat, rejected: nat)

  /** One entry. `subs` holds the callbacks its backend runs, under the pool's identifiers. */
  datatype Record = Record(key: Key, lastUsed: int, inflight: int, subs: map<nat, Callback>, closes: nat)

  datatype State = State(
    limits: Limits,
    clock: int,
    records: seq<Record>,
    entries: map<Key, nat>,
    perSubject: map<string, int>,
    listeners: map<Key, map<nat, Callback>>,
    nextListen: nat,
    stats: Stats,
    closed: bool,
    holding: map<nat, nat>,
    doomed: set<nat>)

  datatype Refusal = PoolClosed | SubjectQuotaExhausted | PoolExhausted

  datatype Event =
    | Acquire(request: nat, key: Key, now: int, victim: Option<nat>)
    | Release(request: nat, now: int)
    | Expire(now: int, stale: seq<nat>)
    | Subscribe(key: Key, f: Callback)
    | Unsubscribe(key: Key, id: nat)
    | CloseEntry(entry: nat)
    | ClosePool

  // ---------------------------------------------------------------------------------------------
  // Reading the state
  // ---------------------------------------------------------------------------------------------

  function Count(m: map<string, int>, subject: string): int {
    if subject in m then m[subject] else 0
  }

  /** Who listens to a key. */
  function Row(listeners: map<Key, map<nat, Callback>>, k: Key): map<nat, Callback> {
    if k in listeners then listeners[k] else map[]
  }

  function Listening(s: State, k: Key): map<nat, Callback> {
    Row(s.listeners, k)
  }

  /** The entries of one subject. */
  function KeysOf(entries: map<Key, nat>, subject: string): set<Key> {
    set k | k in entries && k.subject == subject
  }

  /** The unfinished requests that were given entry `id`. */
  function HoldersOf(holding: map<nat, nat>, id: nat): set<nat> {
    set t | t in holding && holding[t] == id
  }

  /** Entry `id` is in the pool: it is the one filed under its key. */
  predicate Current(records: seq<Record>, entries: map<Key, nat>, id: nat) {
    id < |records| && records[id].key in entries && entries[records[id].key] == id
  }

  predicate Indexed(s: State) {
    && (forall k :: k in s.entries ==> s.entries[k] < |s.records| && s.records[s.entries[k]].key == k)
    && (forall t :: t in s.holding ==> s.holding[t] < |s.records|)
    && (forall id :: id in s.doomed ==> id < |s.records|)
  }

  predicate Idle(s: State, id: nat) {
    Current(s.records, s.entries, id) && s.records[id].inflight <= 0
  }

  predicate Stale(s: State, id: nat, now: int) {
    Current(s.records, s.entries, id) && s.records[id].inflight == 0 && now - s.records[id].lastUsed >= s.limits.idleTTL
  }

  /** `v` is what a scan for the least recently used idle entry may answer. */
  ghost predicate LeastRecentlyUsed(s: State, v: Option<nat>) {
    match v
    case None => forall id: nat :: !Idle(s, id)
    case Some(i) => Idle(s, i) && forall id: nat :: Idle(s, id) ==> s.records[i].lastUsed <= s.records[id].lastUsed
  }

  /** An acquire scans for a victim only when it must start an entry, may, and finds the pool full. */
  predicate NeedsRoom(s: State, k: Key) {
    && !s.closed
    && k !in s.entries
    && Count(s.perSubject, k.subject) < s.limits.maxPerSubject
    && |s.entries| >= s.limits.maxProcesses
  }

  /** What each refusal says. */
  ghost predicate Cause(s: State, k: Key, r: Refusal) {
    match r
    case PoolClosed => s.closed
    case SubjectQuotaExhausted => !s.closed && k !in s.entries && Count(s.perSubject, k.subject) >= s.limits.maxPerSubject
    case PoolExhausted => NeedsRoom(s, k) && LeastRecentlyUsed(s, None)
  }

  // ---------------------------------------------------------------------------------------------
  // The bookkeeping operations
  // ---------------------------------------------------------------------------------------------

  /** Marks an entry used now, with `delta` more requests in flight. */
  function Touch(s: State, id: nat, now: int, delta: int): State
    requires id < |s.records|
  {
    var r := s.records[id];
    s.(clock := now, records := s.records[id := r.(lastUsed := now, inflight := r.inflight + delta)])
  }

  /** The pool lets go of an entry; somebody must still close its backend. */
  function Detach(s: State, id: nat): (r: State)
    requires id < |s.records|
    ensures r == s.(entries := r.entries, perSubject := r.perSubject, doomed := s.doomed + {id})
  {
    var k := s.records[id].key;
    var left := Count(s.perSubject, k.subject) - 1;
    s.(entries := s.entries - {k},
       perSubject := if left <= 0 then s.perSubject - {k.subject} else s.perSubject[k.subject := left],
       doomed := s.doomed + {id})
  }

  /** Makes an entry that serves one request and runs the callbacks of all of its key's listeners. */
  function Insert(s: State, k: Key, now: int): State {
    s.(clock := now,
       records := s.records + [Record(k, now, 1, Listening(s, k), 0)],
       entries := s.entries[k := |s.records|],
       perSubject := s.perSubject[k.subject := Count(s.perSubject, k.subject) + 1],
       stats := s.stats.(created := s.stats.created + 1))
  }

  function Reject(s: State): State {
    s.(stats := s.stats.(rejected := s.stats.rejected + 1))
  }

  function Evict(s: State, id: nat): State
    requires id < |s.records|
  {
    var d := Detach(s, id);
    d.(stats := d.stats.(evicted := d.stats.evicted + 1))
  }

  function ExpireOne(s: State, id: nat): State
    requires id < |s.records|
  {
    var d := Detach(s, id);
    d.(stats := d.stats.(idleExpired := d.stats.idleExpired + 1))
  }

  function ExpireAll(s: State, stale: seq<nat>): (r: State)
    requires forall i :: 0 <= i < |stale| ==> stale[i] < |s.records|
    ensures r == s.(entries := r.entries, perSubject := r.perSubject, stats := r.stats, doomed := r.doomed)
    ensures forall k :: k in r.entries ==> k in s.entries && r.entries[k] == s.entries[k]
    decreases |stale|
  {
    if stale == [] then s else ExpireAll(ExpireOne(s, stale[0]), stale[1..])
  }

  /**
   The whole bookkeeping of one acquire: the new state, and the entry to serve from or why there is none.
   `victim` is the answer of the scan for the least recently used idle entry.
   */
  function TryAcquire(s: State, k: Key, now: int, victim: Option<nat>): (r: (State, Result<nat, Refusal>))
    requires Indexed(s)
    requires NeedsRoom(s, k) && victim.Some? ==> victim.value < |s.records|
    ensures r.1.Ok? ==> r.1.value < |r.0.records| && r.0.records[r.1.value].key == k
    ensures r.0.(clock := s.clock, records := s.records, entries := s.entries, perSubject := s.perSubject,
                 stats := s.stats, doomed := s.doomed) == s
  {
    if s.closed then (s, Err(PoolClosed))
    else if k in s.entries then (Touch(s, s.entries[k], now, 1), Ok(s.entries[k]))
    else if Count(s.perSubject, k.subject) >= s.limits.maxPerSubject then (Reject(s), Err(SubjectQuotaExhausted))
    else if |s.entries| >= s.limits.maxProcesses then
      if victim.None? then (Reject(s), Err(PoolExhausted))
      else (Insert(Evict(s, victim.value), k, now), Ok(|s.records|))
    else (Insert(s, k, now), Ok(|s.records|))
  }

  function AddListener(s: State, k: Key, f: Callback): State {
    var id := s.nextListen;
    s.(nextListen := id + 1,
       listeners := s.listeners[k := Listening(s, k)[id := f]],
       records := if k in s.entries && s.entries[k] < |s.records|
         then s.records[s.entries[k] := s.records[s.entries[k]].(subs := s.records[s.entries[k]].subs[id := f])]
         else s.records)
  }

  function RemoveListener(s: State, k: Key, id: nat): State {
    var left := Listening(s, k) - {id};
    s.(listeners := if left == map[] then s.listeners - {k} else s.listeners[k := left],
       records := if k in s.entries && s.entries[k] < |s.records|
         then s.records[s.entries[k] := s.records[s.entries[k]].(subs := s.records[s.entries[k]].subs - {id})]
         else s.records)
  }

  /** Closing the pool forgets every entry at once; each is still to be closed. */
  function Shut(s: State): State {
    if s.closed then s
    else s.(closed := true, entries := map[], perSubject := map[],
            doomed := s.doomed + set k | k in s.entries :: s.entries[k])
  }

  // ---------------------------------------------------------------------------------------------
  // Steps
  // ---------------------------------------------------------------------------------------------

  /** What a thread must have to take a step, and what the clock allows. */
  ghost predicate Enabled(s: State, e: Event) {
    match e
    case Acquire(t, k, now, victim) =>
      && t !in s.holding
      && now >= s.clock
      && (if NeedsRoom(s, k) then LeastRecentlyUsed(s, victim) else victim == None)
    case Release(t, now) => t in s.holding && now >= s.clock
    case Expire(now, stale) =>
      && now >= s.clock
      && (s.closed ==> stale == [])
      && (forall i :: 0 <= i < |stale| ==> Stale(s, stale[i], now))
      && (!s.closed ==> forall id: nat :: Stale(s, id, now) ==> id in stale)
      && (forall i, j :: 0 <= i < j < |stale| ==> stale[i] != stale[j])
    case Subscribe(k, f) => true
    case Unsubscribe(k, id) => true
    case CloseEntry(id) => id in s.doomed
    case ClosePool => true
  }

  ghost function Step(s: State, e: Event): State
    requires Indexed(s) && Enabled(s, e)
  {
    match e
    case Acquire(t, k, now, victim) =>
      var r := TryAcquire(s, k, now, victim);
      if r.1.Ok? then r.0.(holding := s.holding[t := r.1.value]) else r.0
    case Release(t, now) => Touch(s, s.holding[t], now, -1).(holding := s.holding - {t})
    case Expire(now, stale) => ExpireAll(s.(clock := now), stale)
    case Subscribe(k, f) => AddListener(s, k, f)
    case Unsubscribe(k, id) => RemoveListener(s, k, id)
    case CloseEntry(id) =>
      s.(doomed := s.doomed - {id}, records := s.records[id := s.records[id].(closes := s.records[id].closes + 1)])
    case ClosePool => Shut(s)
  }

  /** One step by any thread. The first conjunct is no restriction: every reachable state satisfies it. */
  ghost predicate Next(s: State, e: Event, s': State) {
    Indexed(s) && Enabled(s, e) && s' == Step(s, e)
  }

  function Initial(limits: Limits, clock: int): State {
    State(limits, clock, [], map[], map[], map[], 0, Stats(0, 0, 0, 0), false, map[], {})
  }
}
