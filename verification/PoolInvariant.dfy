/** What every step of the pool keeps, and what therefore holds over every run. */
module PoolInvariant {
  import opened Prelude
  import opened PoolSpec

  // Each part of the invariant names only the fields it speaks of, so that an operation which leaves
  // those fields alone keeps that part without an argument.

  /** The per-subject counters are a census of the entries, with no row for a subject that has none. */
  ghost predicate Census(entries: map<Key, nat>, perSubject: map<string, int>) {
    forall subject :: Count(perSubject, subject) == |KeysOf(entries, subject)|
                      && (subject in perSubject <==> |KeysOf(entries, subject)| > 0)
  }

  function AtLeastZero(n: int): int {
    if n < 0 then 0 else n
  }

  ghost predicate WithinLimits(limits: Limits, entries: map<Key, nat>) {
    && |entries| <= AtLeastZero(limits.maxProcesses)
    && forall subject :: |KeysOf(entries, subject)| <= AtLeastZero(limits.maxPerSubject)
  }

  /** An entry's in-flight count is the number of requests that were given it and have not finished. */
  ghost predicate InflightAgrees(records: seq<Record>, holding: map<nat, nat>) {
    forall id :: 0 <= id < |records| ==> records[id].inflight == |HoldersOf(holding, id)|
  }

  /**
   Every entry ever created is in exactly one of three conditions: in the pool, promised to somebody
   for closing, or closed exactly once.
   */
  ghost predicate Accounted(records: seq<Record>, entries: map<Key, nat>, doomed: set<nat>) {
    forall id :: 0 <= id < |records| ==>
      && !(Current(records, entries, id) && id in doomed)
      && records[id].closes == if Current(records, entries, id) || id in doomed then 0 else 1
  }

  /** Until the pool itself is closed, a request only ever holds an entry that is still in the pool. */
  ghost predicate HeldInPool(records: seq<Record>, entries: map<Key, nat>, holding: map<nat, nat>) {
    forall t :: t in holding ==> Current(records, entries, holding[t])
  }

  ghost predicate Conserved(stats: Stats, created: nat, size: nat, closed: bool) {
    && stats.created == created
    && (!closed ==> created == size + stats.evicted + stats.idleExpired)
  }

  /** Each current backend is subscribed by exactly the listeners of its key. */
  ghost predicate Subscribed(records: seq<Record>, entries: map<Key, nat>, listeners: map<Key, map<nat, Callback>>) {
    forall k :: k in entries ==>
      entries[k] < |records| && records[entries[k]].subs == if k in listeners then listeners[k] else map[]
  }

  /** No empty row is kept, every identifier in use was handed out, and none belongs to two keys. */
  ghost predicate Tidy(listeners: map<Key, map<nat, Callback>>, next: nat) {
    && (forall k :: k in listeners ==> listeners[k] != map[])
    && (forall k, id :: k in listeners && id in listeners[k] ==> id < next)
    && (forall k, k', id :: k in listeners && k' in listeners && id in listeners[k] && id in listeners[k'] ==> k == k')
  }

  ghost predicate ClockAhead(records: seq<Record>, clock: int) {
    forall id :: 0 <= id < |records| ==> records[id].lastUsed <= clock
  }

  ghost predicate Inv(s: State) {
    && Indexed(s)
    && Census(s.entries, s.perSubject)
    && WithinLimits(s.limits, s.entries)
    && InflightAgrees(s.records, s.holding)
    && Accounted(s.records, s.entries, s.doomed)
    && (if s.closed then s.entries == map[] else HeldInPool(s.records, s.entries, s.holding))
    && Conserved(s.stats, |s.records|, |s.entries|, s.closed)
    && Subscribed(s.records, s.entries, s.listeners)
    && Tidy(s.listeners, s.nextListen)
    && ClockAhead(s.records, s.clock)
  }

  // ---------------------------------------------------------------------------------------------
  // Counting
  // ---------------------------------------------------------------------------------------------

  lemma KeysOfAdded(entries: map<Key, nat>, k: Key, id: nat, subject: string)
    requires k !in entries
    ensures |KeysOf(entries[k := id], subject)| == |KeysOf(entries, subject)| + (if subject == k.subject then 1 else 0)
  {
    if subject == k.subject {
      CardinalityGrows(KeysOf(entries, subject), k, KeysOf(entries[k := id], subject));
    } else {
      assert KeysOf(entries[k := id], subject) == KeysOf(entries, subject);
    }
  }

  lemma KeysOfRemoved(entries: map<Key, nat>, k: Key, subject: string)
    requires k in entries
    ensures |KeysOf(entries - {k}, subject)| == |KeysOf(entries, subject)| - (if subject == k.subject then 1 else 0)
    ensures |entries - {k}| == |entries| - 1
  {
    var rest := entries - {k};
    assert rest[k := entries[k]] == entries;
    KeysOfAdded(rest, k, entries[k], subject);
    CardinalityGrows(rest.Keys, k, entries.Keys);
  }

  lemma HoldersAdded(holding: map<nat, nat>, t: nat, id: nat, other: nat)
    requires t !in holding
    ensures |HoldersOf(holding[t := id], other)| == |HoldersOf(holding, other)| + (if other == id then 1 else 0)
  {
    if other == id {
      CardinalityGrows(HoldersOf(holding, id), t, HoldersOf(holding[t := id], id));
    } else {
      assert HoldersOf(holding[t := id], other) == HoldersOf(holding, other);
    }
  }

  lemma HoldersRemoved(holding: map<nat, nat>, t: nat, other: nat)
    requires t in holding
    ensures |HoldersOf(holding - {t}, other)| == |HoldersOf(holding, other)| - (if other == holding[t] then 1 else 0)
  {
    var rest := holding - {t};
    assert rest[t := holding[t]] == holding;
    HoldersAdded(rest, t, holding[t], other);
  }

  /** An entry with nothing in flight is held by nobody. */
  lemma IdleIsUnheld(records: seq<Record>, holding: map<nat, nat>, id: nat)
    requires InflightAgrees(records, holding) && id < |records| && records[id].inflight <= 0
    ensures forall t :: t in holding ==> holding[t] != id
  {
    assert HoldersOf(holding, id) == {};
    forall t | t in holding ensures holding[t] != id {
      assert holding[t] == id ==> t in HoldersOf(holding, id);
    }
  }

  // ---------------------------------------------------------------------------------------------
  // Letting go of an entry
  // ---------------------------------------------------------------------------------------------

  lemma DetachCensus(s: State, id: nat)
    requires Census(s.entries, s.perSubject) && Current(s.records, s.entries, id)
    ensures Detach(s, id).entries == s.entries - {s.records[id].key}
    ensures Census(Detach(s, id).entries, Detach(s, id).perSubject)
  {
    var k, r := s.records[id].key, Detach(s, id);
    forall subject ensures Count(r.perSubject, subject) == |KeysOf(r.entries, subject)|
                           && (subject in r.perSubject <==> |KeysOf(r.entries, subject)| > 0) {
      KeysOfRemoved(s.entries, k, subject);
    }
  }

  lemma DetachLimits(limits: Limits, entries: map<Key, nat>, k: Key)
    requires WithinLimits(limits, entries) && k in entries
    ensures WithinLimits(limits, entries - {k})
  {
    KeysOfRemoved(entries, k, k.subject);
    forall subject ensures |KeysOf(entries - {k}, subject)| <= AtLeastZero(limits.maxPerSubject) {
      KeysOfRemoved(entries, k, subject);
    }
  }

  lemma DetachMembership(records: seq<Record>, entries: map<Key, nat>, id: nat, other: nat)
    requires Current(records, entries, id)
    ensures Current(records, entries - {records[id].key}, other) <==> Current(records, entries, other) && other != id
  {
  }

  lemma DetachAccounted(records: seq<Record>, entries: map<Key, nat>, doomed: set<nat>, id: nat)
    requires Accounted(records, entries, doomed) && Current(records, entries, id)
    ensures Accounted(records, entries - {records[id].key}, doomed + {id})
  {
    forall other: nat | other < |records|
      ensures Current(records, entries - {records[id].key}, other) <==> Current(records, entries, other) && other != id {
      DetachMembership(records, entries, id, other);
    }
  }

  lemma DetachHeld(records: seq<Record>, entries: map<Key, nat>, holding: map<nat, nat>, id: nat)
    requires HeldInPool(records, entries, holding) && Current(records, entries, id)
    requires forall t :: t in holding ==> holding[t] != id
    ensures HeldInPool(records, entries - {records[id].key}, holding)
  {
    forall t | t in holding ensures Current(records, entries - {records[id].key}, holding[t]) {
      DetachMembership(records, entries, id, holding[t]);
    }
  }

  lemma DetachSubscribed(records: seq<Record>, entries: map<Key, nat>, listeners: map<Key, map<nat, Callback>>, k: Key)
    requires Subscribed(records, entries, listeners)
    ensures Subscribed(records, entries - {k}, listeners)
  {
  }

  lemma DetachIndexed(s: State, id: nat, r: State)
    requires Indexed(s) && id < |s.records|
    requires r.records == s.records && r.entries == s.entries - {s.records[id].key}
    requires r.holding == s.holding && r.doomed == s.doomed + {id}
    ensures Indexed(r)
  {
  }

  /** Evicting an idle entry, or expiring it, keeps everything and makes the pool one smaller. */
  lemma DetachKeeps(s: State, id: nat, r: State)
    requires Inv(s) && !s.closed && Idle(s, id)
    requires r == Detach(s, id).(stats := r.stats) && r.stats.created == s.stats.created
    requires r.stats.evicted + r.stats.idleExpired == s.stats.evicted + s.stats.idleExpired + 1
    ensures Inv(r) && !r.closed
    ensures |r.entries| == |s.entries| - 1
  {
    hide Census, WithinLimits, InflightAgrees, Accounted, HeldInPool, Subscribed, Tidy, ClockAhead, Indexed;
    var k := s.records[id].key;
    DetachCensus(s, id);
    DetachLimits(s.limits, s.entries, k);
    KeysOfRemoved(s.entries, k, k.subject);
    IdleIsUnheld(s.records, s.holding, id);
    DetachAccounted(s.records, s.entries, s.doomed, id);
    DetachHeld(s.records, s.entries, s.holding, id);
    DetachSubscribed(s.records, s.entries, s.listeners, k);
    DetachIndexed(s, id, r);
  }

  // ---------------------------------------------------------------------------------------------
  // Starting an entry
  // ---------------------------------------------------------------------------------------------

  lemma InsertCensus(entries: map<Key, nat>, perSubject: map<string, int>, k: Key, id: nat)
    requires Census(entries, perSubject) && k !in entries
    ensures Census(entries[k := id], perSubject[k.subject := Count(perSubject, k.subject) + 1])
  {
    var perSubject' := perSubject[k.subject := Count(perSubject, k.subject) + 1];
    forall subject ensures Count(perSubject', subject) == |KeysOf(entries[k := id], subject)|
                           && (subject in perSubject' <==> |KeysOf(entries[k := id], subject)| > 0) {
      KeysOfAdded(entries, k, id, subject);
    }
  }

  lemma InsertLimits(limits: Limits, entries: map<Key, nat>, k: Key, id: nat)
    requires WithinLimits(limits, entries) && k !in entries
    requires |entries| < limits.maxProcesses && |KeysOf(entries, k.subject)| < limits.maxPerSubject
    ensures WithinLimits(limits, entries[k := id])
    ensures |entries[k := id]| == |entries| + 1
  {
    CardinalityGrows(entries.Keys, k, entries[k := id].Keys);
    var grown := entries[k := id];
    forall subject ensures |KeysOf(grown, subject)| <= AtLeastZero(limits.maxPerSubject) {
      KeysOfAdded(entries, k, id, subject);
    }
  }

  lemma InsertInflight(records: seq<Record>, holding: map<nat, nat>, t: nat, r: Record)
    requires InflightAgrees(records, holding) && t !in holding && r.inflight == 1
    requires forall u :: u in holding ==> holding[u] < |records|
    ensures InflightAgrees(records + [r], holding[t := |records|])
  {
    forall id: nat | id < |records + [r]|
      ensures (records + [r])[id].inflight == |HoldersOf(holding[t := |records|], id)| {
      HoldersAdded(holding, t, |records|, id);
      if id == |records| {
        assert HoldersOf(holding, id) == {};
      }
    }
  }

  lemma InsertMembership(records: seq<Record>, entries: map<Key, nat>, r: Record, id: nat)
    requires r.key !in entries && id <= |records|
    ensures Current(records + [r], entries[r.key := |records|], id) <==> id == |records| || Current(records, entries, id)
  {
  }

  lemma InsertAccounted(records: seq<Record>, entries: map<Key, nat>, doomed: set<nat>, r: Record)
    requires Accounted(records, entries, doomed) && r.key !in entries && r.closes == 0 && |records| !in doomed
    ensures Accounted(records + [r], entries[r.key := |records|], doomed)
  {
    forall id: nat | id <= |records|
      ensures Current(records + [r], entries[r.key := |records|], id) <==> id == |records| || Current(records, entries, id) {
      InsertMembership(records, entries, r, id);
    }
  }

  lemma InsertHeld(records: seq<Record>, entries: map<Key, nat>, holding: map<nat, nat>, t: nat, r: Record)
    requires HeldInPool(records, entries, holding) && r.key !in entries
    ensures HeldInPool(records + [r], entries[r.key := |records|], holding[t := |records|])
  {
    var holding' := holding[t := |records|];
    forall u | u in holding' ensures Current(records + [r], entries[r.key := |records|], holding'[u]) {
      InsertMembership(records, entries, r, holding'[u]);
    }
  }

  lemma InsertSubscribed(records: seq<Record>, entries: map<Key, nat>, listeners: map<Key, map<nat, Callback>>, r: Record)
    requires Subscribed(records, entries, listeners) && r.subs == if r.key in listeners then listeners[r.key] else map[]
    ensures Subscribed(records + [r], entries[r.key := |records|], listeners)
  {
  }

  lemma InsertClock(records: seq<Record>, clock: int, r: Record)
    requires ClockAhead(records, clock) && clock <= r.lastUsed
    ensures ClockAhead(records + [r], r.lastUsed)
  {
  }

  /** Starting an entry there is room for, and handing it to request `t`. */
  lemma InsertKeeps(s: State, k: Key, now: int, t: nat, r: State)
    requires Inv(s) && !s.closed && k !in s.entries && now >= s.clock && t !in s.holding
    requires |s.entries| < s.limits.maxProcesses && |KeysOf(s.entries, k.subject)| < s.limits.maxPerSubject
    requires r == Insert(s, k, now).(holding := s.holding[t := |s.records|])
    ensures Inv(r)
  {
    hide Census, WithinLimits, InflightAgrees, Accounted, HeldInPool, Subscribed, Tidy, ClockAhead;
    var added := Record(k, now, 1, Listening(s, k), 0);
    InsertCensus(s.entries, s.perSubject, k, |s.records|);
    InsertLimits(s.limits, s.entries, k, |s.records|);
    InsertInflight(s.records, s.holding, t, added);
    InsertAccounted(s.records, s.entries, s.doomed, added);
    InsertHeld(s.records, s.entries, s.holding, t, added);
    InsertSubscribed(s.records, s.entries, s.listeners, added);
    InsertClock(s.records, s.clock, added);
  }

  // ---------------------------------------------------------------------------------------------
  // Operations that change one record in place
  // ---------------------------------------------------------------------------------------------

  lemma UpdateMembership(records: seq<Record>, entries: map<Key, nat>, id: nat, r: Record, other: nat)
    requires id < |records| && r.key == records[id].key
    ensures Current(records[id := r], entries, other) <==> Current(records, entries, other)
  {
  }

  lemma UpdateAccounted(records: seq<Record>, entries: map<Key, nat>, doomed: set<nat>, id: nat, r: Record)
    requires Accounted(records, entries, doomed)
    requires id < |records| && r.key == records[id].key && r.closes == records[id].closes
    ensures Accounted(records[id := r], entries, doomed)
  {
    forall other: nat | other < |records|
      ensures Current(records[id := r], entries, other) <==> Current(records, entries, other) {
      UpdateMembership(records, entries, id, r, other);
    }
  }

  lemma UpdateHeld(records: seq<Record>, entries: map<Key, nat>, holding: map<nat, nat>, id: nat, r: Record)
    requires HeldInPool(records, entries, holding) && id < |records| && r.key == records[id].key
    ensures HeldInPool(records[id := r], entries, holding)
  {
    forall t | t in holding ensures Current(records[id := r], entries, holding[t]) {
      UpdateMembership(records, entries, id, r, holding[t]);
    }
  }

  lemma UpdateSubscribed(records: seq<Record>, entries: map<Key, nat>, listeners: map<Key, map<nat, Callback>>, id: nat, r: Record)
    requires Subscribed(records, entries, listeners) && id < |records| && r.subs == records[id].subs
    ensures Subscribed(records[id := r], entries, listeners)
  {
  }

  lemma UpdateClock(records: seq<Record>, clock: int, id: nat, r: Record, now: int)
    requires ClockAhead(records, clock) && id < |records| && clock <= now && r.lastUsed <= now
    ensures ClockAhead(records[id := r], now)
  {
  }

  lemma LastUsedBehind(records: seq<Record>, clock: int, id: nat)
    requires ClockAhead(records, clock) && id < |records|
    ensures records[id].lastUsed <= clock
  {
  }

  lemma UpdateInflight(records: seq<Record>, holding: map<nat, nat>, id: nat, r: Record)
    requires InflightAgrees(records, holding) && id < |records| && r.inflight == records[id].inflight
    ensures InflightAgrees(records[id := r], holding)
  {
  }

  lemma TouchInflight(records: seq<Record>, holding: map<nat, nat>, id: nat, t: nat, r: Record, holding': map<nat, nat>)
    requires InflightAgrees(records, holding) && id < |records|
    requires || (t !in holding && holding' == holding[t := id] && r.inflight == records[id].inflight + 1)
             || (t in holding && holding[t] == id && holding' == holding - {t} && r.inflight == records[id].inflight - 1)
    ensures InflightAgrees(records[id := r], holding')
  {
    forall other: nat | other < |records|
      ensures records[id := r][other].inflight == |HoldersOf(holding', other)| {
      if t in holding {
        HoldersRemoved(holding, t, other);
      } else {
        HoldersAdded(holding, t, id, other);
      }
    }
  }

  /** Marking an entry used keeps everything, given that the count still matches who holds it. */
  lemma TouchKeeps(s: State, id: nat, now: int, delta: int, holding: map<nat, nat>)
    requires Inv(s) && id < |s.records| && now >= s.clock
    requires forall t :: t in holding ==> holding[t] < |s.records|
    requires InflightAgrees(Touch(s, id, now, delta).records, holding)
    requires !s.closed ==> HeldInPool(s.records, s.entries, holding)
    ensures Inv(Touch(s, id, now, delta).(holding := holding))
  {
    hide Census, WithinLimits, InflightAgrees, Accounted, HeldInPool, Subscribed, Tidy, ClockAhead;
    var touched := s.records[id].(lastUsed := now, inflight := s.records[id].inflight + delta);
    UpdateAccounted(s.records, s.entries, s.doomed, id, touched);
    UpdateSubscribed(s.records, s.entries, s.listeners, id, touched);
    UpdateClock(s.records, s.clock, id, touched, now);
    if !s.closed {
      UpdateHeld(s.records, s.entries, holding, id, touched);
    }
  }

  lemma ReuseKeeps(s: State, id: nat, now: int, t: nat)
    requires Inv(s) && Current(s.records, s.entries, id) && now >= s.clock && t !in s.holding && !s.closed
    ensures Inv(Touch(s, id, now, 1).(holding := s.holding[t := id]))
  {
    hide Census, WithinLimits, InflightAgrees, Accounted, HeldInPool, Subscribed, Tidy, ClockAhead;
    TouchInflight(s.records, s.holding, id, t, Touch(s, id, now, 1).records[id], s.holding[t := id]);
    HoldingHeld(s.records, s.entries, s.holding, id, t);
    TouchKeeps(s, id, now, 1, s.holding[t := id]);
  }

  lemma ReleaseKeeps(s: State, now: int, t: nat)
    requires Inv(s) && t in s.holding && now >= s.clock
    ensures Inv(Touch(s, s.holding[t], now, -1).(holding := s.holding - {t}))
  {
    hide Census, WithinLimits, InflightAgrees, Accounted, HeldInPool, Subscribed, Tidy, ClockAhead;
    var id := s.holding[t];
    TouchInflight(s.records, s.holding, id, t, Touch(s, id, now, -1).records[id], s.holding - {t});
    if !s.closed {
      HoldingHeld(s.records, s.entries, s.holding, id, t);
    }
    TouchKeeps(s, id, now, -1, s.holding - {t});
  }

  lemma HoldingHeld(records: seq<Record>, entries: map<Key, nat>, holding: map<nat, nat>, id: nat, t: nat)
    requires HeldInPool(records, entries, holding)
    ensures Current(records, entries, id) ==> HeldInPool(records, entries, holding[t := id])
    ensures HeldInPool(records, entries, holding - {t})
  {
  }

  lemma AddListenerTidy(s: State, k: Key, f: Callback)
    requires Tidy(s.listeners, s.nextListen)
    ensures Tidy(AddListener(s, k, f).listeners, s.nextListen + 1)
  {
    assert s.nextListen in Listening(s, k)[s.nextListen := f];
  }

  lemma RemoveListenerTidy(s: State, k: Key, id: nat)
    requires Tidy(s.listeners, s.nextListen)
    ensures Tidy(RemoveListener(s, k, id).listeners, s.nextListen)
  {
  }

  /** The listeners of one key and the subscriptions of its entry change together. */
  lemma RelistenSubscribed(s: State, k: Key, r: State, subs: map<nat, Callback>)
    requires Indexed(s) && Subscribed(s.records, s.entries, s.listeners)
    requires r.entries == s.entries && Listening(r, k) == subs
    requires forall key :: key != k ==> Listening(r, key) == Listening(s, key)
    requires r.records == if k in s.entries then s.records[s.entries[k] := s.records[s.entries[k]].(subs := subs)] else s.records
    ensures Subscribed(r.records, r.entries, r.listeners)
  {
    forall key | key in s.entries
      ensures r.records[r.entries[key]].subs == if key in r.listeners then r.listeners[key] else map[] {
      assert key != k && k in s.entries ==> s.entries[key] != s.entries[k];
      assert Listening(r, key) == if key in r.listeners then r.listeners[key] else map[];
      assert Listening(s, key) == if key in s.listeners then s.listeners[key] else map[];
    }
  }

  lemma RelistenKeeps(s: State, k: Key, r: State, subs: map<nat, Callback>)
    requires Inv(s)
    requires r == s.(listeners := r.listeners, nextListen := r.nextListen, records := r.records)
    requires r.records == if k in s.entries then s.records[s.entries[k] := s.records[s.entries[k]].(subs := subs)] else s.records
    requires Tidy(r.listeners, r.nextListen) && Subscribed(r.records, r.entries, r.listeners)
    ensures Inv(r)
  {
    hide Census, WithinLimits, InflightAgrees, Accounted, HeldInPool, Subscribed, Tidy, ClockAhead;
    if k in s.entries {
      var at := s.entries[k];
      UpdateAccounted(s.records, s.entries, s.doomed, at, r.records[at]);
      UpdateInflight(s.records, s.holding, at, r.records[at]);
      LastUsedBehind(s.records, s.clock, at);
      UpdateClock(s.records, s.clock, at, r.records[at], s.clock);
      if !s.closed {
        UpdateHeld(s.records, s.entries, s.holding, at, r.records[at]);
      }
    }
  }

  lemma SubscribeKeeps(s: State, k: Key, f: Callback)
    requires Inv(s)
    ensures Inv(AddListener(s, k, f))
  {
    hide Census, WithinLimits, InflightAgrees, Accounted, HeldInPool, Subscribed, Tidy, ClockAhead;
    var r := AddListener(s, k, f);
    var subs := Listening(s, k)[s.nextListen := f];
    SubsOfEntry(s, k);
    AddListenerTidy(s, k, f);
    RelistenSubscribed(s, k, r, subs);
    RelistenKeeps(s, k, r, subs);
  }

  lemma RemoveListening(s: State, k: Key, id: nat)
    ensures Listening(RemoveListener(s, k, id), k) == Listening(s, k) - {id}
    ensures forall key :: key != k ==> Listening(RemoveListener(s, k, id), key) == Listening(s, key)
  {
  }

  lemma UnsubscribeKeeps(s: State, k: Key, id: nat)
    requires Inv(s)
    ensures Inv(RemoveListener(s, k, id))
  {
    hide Census, WithinLimits, InflightAgrees, Accounted, HeldInPool, Subscribed, Tidy, Listening;
    var r := RemoveListener(s, k, id);
    var subs := Listening(s, k) - {id};
    SubsOfEntry(s, k);
    RemoveListening(s, k, id);
    RemoveListenerTidy(s, k, id);
    RelistenSubscribed(s, k, r, subs);
    RelistenKeeps(s, k, r, subs);
  }

  lemma SubsOfEntry(s: State, k: Key)
    requires Subscribed(s.records, s.entries, s.listeners)
    ensures k in s.entries ==> s.entries[k] < |s.records| && s.records[s.entries[k]].subs == Listening(s, k)
  {
  }

  lemma CloseAccounted(records: seq<Record>, entries: map<Key, nat>, doomed: set<nat>, id: nat, r: Record)
    requires Accounted(records, entries, doomed) && id < |records| && id in doomed
    requires r.key == records[id].key && r.closes == records[id].closes + 1
    ensures Accounted(records[id := r], entries, doomed - {id})
  {
    forall other: nat | other < |records|
      ensures Current(records[id := r], entries, other) <==> Current(records, entries, other) {
      UpdateMembership(records, entries, id, r, other);
    }
  }

  lemma CloseEntryKeeps(s: State, e: Event)
    requires Inv(s) && e.CloseEntry? && Enabled(s, e)
    ensures Inv(Step(s, e))
  {
    hide Census, WithinLimits, InflightAgrees, Accounted, HeldInPool, Subscribed, Tidy, ClockAhead;
    var id := e.entry;
    var closing := s.records[id].(closes := s.records[id].closes + 1);
    CloseAccounted(s.records, s.entries, s.doomed, id, closing);
    UpdateSubscribed(s.records, s.entries, s.listeners, id, closing);
    UpdateInflight(s.records, s.holding, id, closing);
    LastUsedBehind(s.records, s.clock, id);
    UpdateClock(s.records, s.clock, id, closing, s.clock);
    if !s.closed {
      UpdateHeld(s.records, s.entries, s.holding, id, closing);
    }
  }

  // ---------------------------------------------------------------------------------------------
  // Whole steps
  // ---------------------------------------------------------------------------------------------

  lemma CensusOf(entries: map<Key, nat>, perSubject: map<string, int>, subject: string)
    requires Census(entries, perSubject)
    ensures Count(perSubject, subject) == |KeysOf(entries, subject)|
  {
  }

  lemma EntryIsCurrent(s: State, k: Key)
    requires Indexed(s) && k in s.entries
    ensures Current(s.records, s.entries, s.entries[k])
  {
  }

  lemma AcquireKeeps(s: State, e: Event)
    requires Inv(s) && e.Acquire? && Enabled(s, e)
    ensures Inv(Step(s, e))
  {
    hide Census, WithinLimits, InflightAgrees, Accounted, HeldInPool, Subscribed, Tidy, ClockAhead, LeastRecentlyUsed;
    if s.closed {
    } else if e.key in s.entries {
      EntryIsCurrent(s, e.key);
      ReuseKeeps(s, s.entries[e.key], e.now, e.request);
    } else if Count(s.perSubject, e.key.subject) >= s.limits.maxPerSubject {
    } else if |s.entries| < s.limits.maxProcesses {
      CensusOf(s.entries, s.perSubject, e.key.subject);
      InsertKeeps(s, e.key, e.now, e.request, Step(s, e));
    } else if e.victim.Some? {
      EvictThenInsertKeeps(s, e, e.victim.value);
    }
  }

  lemma VictimIsIdle(s: State, id: nat)
    requires LeastRecentlyUsed(s, Some(id))
    ensures Idle(s, id)
  {
  }

  lemma EvictThenInsertKeeps(s: State, e: Event, id: nat)
    requires Inv(s) && e.Acquire? && Enabled(s, e) && NeedsRoom(s, e.key) && e.victim == Some(id)
    ensures Inv(Step(s, e))
  {
    hide Census, WithinLimits, InflightAgrees, Accounted, HeldInPool, Subscribed, Tidy, ClockAhead, LeastRecentlyUsed;
    VictimIsIdle(s, id);
    var d := Evict(s, id);
    DetachKeeps(s, id, d);
    EvictionMakesRoom(s, id, e.key);
    InsertKeeps(d, e.key, e.now, e.request, Step(s, e));
  }

  lemma EvictionMakesRoom(s: State, id: nat, k: Key)
    requires Indexed(s) && Census(s.entries, s.perSubject) && WithinLimits(s.limits, s.entries)
    requires NeedsRoom(s, k) && Idle(s, id)
    ensures |Evict(s, id).entries| < s.limits.maxProcesses
    ensures |KeysOf(Evict(s, id).entries, k.subject)| < s.limits.maxPerSubject
  {
    KeysOfRemoved(s.entries, s.records[id].key, k.subject);
  }

  lemma StaleAfter(s: State, stale: seq<nat>, now: int)
    requires stale != [] && Stale(s, stale[0], now)
    requires forall i :: 0 <= i < |stale| ==> Stale(s, stale[i], now)
    requires forall i, j :: 0 <= i < j < |stale| ==> stale[i] != stale[j]
    ensures forall i :: 0 <= i < |stale[1..]| ==> Stale(ExpireOne(s, stale[0]), stale[1..][i], now)
  {
    forall i | 0 <= i < |stale[1..]| ensures Stale(ExpireOne(s, stale[0]), stale[1..][i], now) {
      assert stale[1..][i] == stale[i + 1];
      DetachMembership(s.records, s.entries, stale[0], stale[i + 1]);
    }
  }

  lemma {:induction false} ExpireKeeps(s: State, stale: seq<nat>, now: int)
    requires Inv(s) && (stale != [] ==> !s.closed)
    requires forall i :: 0 <= i < |stale| ==> Stale(s, stale[i], now)
    requires forall i, j :: 0 <= i < j < |stale| ==> stale[i] != stale[j]
    ensures forall i :: 0 <= i < |stale| ==> stale[i] < |s.records|
    ensures Inv(ExpireAll(s, stale))
    decreases |stale|
  {
    hide Inv;
    if stale != [] {
      var r := ExpireOne(s, stale[0]);
      DetachKeeps(s, stale[0], r);
      StaleAfter(s, stale, now);
      ExpireKeeps(r, stale[1..], now);
    }
  }

  lemma ShutAccounted(s: State)
    requires Indexed(s) && Accounted(s.records, s.entries, s.doomed) && !s.closed
    ensures Accounted(s.records, map[], Shut(s).doomed)
  {
    forall id: nat | id < |s.records|
      ensures id in Shut(s).doomed <==> Current(s.records, s.entries, id) || id in s.doomed {
      if Current(s.records, s.entries, id) {
        assert s.records[id].key in s.entries;
      }
    }
  }

  lemma ShutEmpty(s: State)
    ensures Census(map[], map[]) && WithinLimits(s.limits, map[]) && Subscribed(s.records, map[], s.listeners)
  {
    forall subject ensures KeysOf(map[], subject) == {} {
    }
  }

  lemma ShutKeeps(s: State)
    requires Inv(s)
    ensures Inv(Shut(s))
  {
    hide Census, WithinLimits, InflightAgrees, Accounted, HeldInPool, Subscribed, Tidy, ClockAhead;
    if !s.closed {
      ShutEmpty(s);
      ShutAccounted(s);
    }
  }

  lemma InitialInv(limits: Limits, clock: int)
    ensures Inv(Initial(limits, clock))
  {
    forall subject ensures KeysOf(Initial(limits, clock).entries, subject) == {} {
    }
  }

  /** The invariant is inductive: every step any thread can take keeps it. */
  lemma StepKeeps(s: State, e: Event)
    requires Inv(s) && Enabled(s, e)
    ensures Inv(Step(s, e))
  {
    match e
    case Acquire(_, _, _, _) => AcquireKeeps(s, e);
    case Release(t, now) => ReleaseKeeps(s, now, t);
    case Expire(now, stale) =>
      var at := s.(clock := now);
      assert Inv(at);
      assert forall i :: 0 <= i < |stale| ==> Stale(at, stale[i], now);
      ExpireKeeps(at, stale, now);
    case Subscribe(k, f) => SubscribeKeeps(s, k, f);
    case Unsubscribe(k, id) => UnsubscribeKeeps(s, k, id);
    case CloseEntry(_) => CloseEntryKeeps(s, e);
    case ClosePool => ShutKeeps(s);
  }
}
