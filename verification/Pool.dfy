/**
 The pool as the object whose fields its locked sections update.

 Each method is one locked section, or one thing a goroutine does outside the lock, and is proved to
 take exactly the step of the same name in `PoolSpec`, whichever order a map is ranged over in.
 */
module Pools {
  import opened Prelude
  import opened PoolSpec
  import opened PoolInvariant
  import opened Backends

  /** An entry: a backend, for whom it runs, and how it is being used. */
  class Entry {
    const key: Key
    const backend: Backend
    var lastUsed: int
    var inflight: int
    // Under each of the pool's identifiers, the one the backend gave that subscription.
    var releases: map<nat, nat>
    // The order in which the entry was created.
    ghost const id: nat

    constructor (key: Key, now: int, ghost id: nat)
      ensures this.key == key && this.id == id && lastUsed == now && inflight == 1 && releases == map[]
      ensures fresh(backend) && backend.Valid() && backend.listeners == map[] && backend.closes == 0
    {
      this.key, this.id := key, id;
      lastUsed, inflight, releases := now, 1, map[];
      backend := new Backend();
    }

    /** `r` describes this entry; in particular its releases name every subscription of its backend, each once. */
    ghost predicate Matches(r: Record)
      reads this, backend
    {
      && backend.Valid()
      && r.key == key && r.lastUsed == lastUsed && r.inflight == inflight && r.closes == backend.closes
      && r.subs.Keys == releases.Keys
      && (forall n :: n in releases ==> releases[n] in backend.listeners && backend.listeners[releases[n]] == r.subs[n])
      && (forall n, m :: n in releases && m in releases && releases[n] == releases[m] ==> n == m)
      && (forall b :: b in backend.listeners ==> exists n :: n in releases && releases[n] == b)
    }

    /** Marks the entry used now, with `delta` more requests in flight. */
    method Use(now: int, delta: int, ghost r: Record)
      requires Matches(r)
      modifies this`lastUsed, this`inflight
      ensures Matches(r.(lastUsed := now, inflight := r.inflight + delta))
    {
      lastUsed := now;
      inflight := inflight + delta;
    }

    /** Closes the backend for good. */
    method Stop(ghost r: Record)
      requires Matches(r)
      modifies backend
      ensures backend.closed && Matches(r.(closes := r.closes + 1))
    {
      backend.Close();
    }

    method Listen(n: nat, f: Callback, ghost r: Record)
      requires Matches(r) && n !in releases
      modifies this`releases, backend`listeners, backend`nextID
      ensures Matches(r.(subs := r.subs[n := f]))
    {
      var b := backend.Subscribe(f);
      ghost var was := releases;
      releases := releases[n := b];
      forall b' | b' in backend.listeners ensures exists n' :: n' in releases && releases[n'] == b' {
        if b' == b {
          assert releases[n] == b';
        } else {
          var n' :| n' in was && was[n'] == b';
          assert releases[n'] == b';
        }
      }
    }

    method Unlisten(n: nat, ghost r: Record)
      requires Matches(r)
      modifies this`releases, backend`listeners
      ensures Matches(r.(subs := r.subs - {n}))
    {
      if n in releases {
        ghost var was := releases;
        backend.Unsubscribe(releases[n]);
        releases := releases - {n};
        forall b' | b' in backend.listeners ensures exists n' :: n' in releases && releases[n'] == b' {
          var n' :| n' in was && was[n'] == b';
          assert n' in releases;
        }
      }
    }
  }

  /** `records` describes the entries one by one; each knows its place, and no two share a backend. */
  ghost predicate Described(all: seq<Entry>, records: seq<Record>, repr: set<object>)
    reads repr
  {
    && |records| == |all|
    && (forall i :: 0 <= i < |all| ==> all[i].id == i)
    && (forall e :: e in all ==> e in repr && e.backend in repr && e.id < |all| && all[e.id] == e && e.Matches(records[e.id]))
    && (forall e, f :: e in all && f in all && e != f ==> e.backend != f.backend)
  }

  lemma DescribedAt(all: seq<Entry>, records: seq<Record>, repr: set<object>, e: Entry)
    requires Described(all, records, repr) && e.id < |all| && all[e.id] == e
    ensures |records| == |all| && e in all && e in repr && e.backend in repr && e.Matches(records[e.id])
    ensures records[e.id].key == e.key && records[e.id].lastUsed == e.lastUsed && records[e.id].inflight == e.inflight
  {
  }

  lemma DescribedMore(all: seq<Entry>, records: seq<Record>, repr: set<object>, e: Entry, r: Record)
    requires Described(all, records, repr) && e.id == |all| && e.Matches(r)
    requires e.backend !in repr
    ensures Described(all + [e], records + [r], repr + {e, e.backend})
  {
    hide Entry.Matches;
  }

  /** The same of every entry but `e`, whatever becomes of `e` and its backend. */
  ghost predicate DescribedBut(all: seq<Entry>, records: seq<Record>, repr: set<object>, e: Entry)
    reads repr - {e, e.backend}
  {
    && |records| == |all|
    && (forall i :: 0 <= i < |all| ==> all[i].id == i)
    && (forall f :: f in all ==> f in repr && f.backend in repr && f.id < |all| && all[f.id] == f)
    && (forall f, g :: f in all && g in all && f != g ==> f.backend != g.backend)
    && (forall f :: f in all && f != e && f.backend != e.backend ==> f.Matches(records[f.id]))
  }

  lemma Apart(all: seq<Entry>, records: seq<Record>, repr: set<object>, e: Entry)
    requires Described(all, records, repr) && e.id < |all| && all[e.id] == e
    ensures DescribedBut(all, records, repr, e)
  {
  }

  lemma Together(all: seq<Entry>, records: seq<Record>, repr: set<object>, e: Entry, r: Record)
    requires DescribedBut(all, records, repr, e) && e.id < |all| && all[e.id] == e && e.Matches(r)
    ensures Described(all, records[e.id := r], repr)
  {
    hide Entry.Matches;
    forall f | f in all ensures f.Matches(records[e.id := r][f.id]) {
      assert f != e ==> f.id != e.id;
    }
  }

  /** Each entry is filed under its own key, and `ids` says which entry it is. */
  ghost predicate Filed(entries: map<Key, Entry>, ids: map<Key, nat>, all: seq<Entry>) {
    && entries.Keys == ids.Keys
    && forall k :: k in entries ==> entries[k].key == k && entries[k].id == ids[k] < |all| && all[ids[k]] == entries[k]
  }

  lemma FiledLess(entries: map<Key, Entry>, ids: map<Key, nat>, all: seq<Entry>, k: Key)
    requires Filed(entries, ids, all)
    ensures Filed(entries - {k}, ids - {k}, all)
  {
  }

  lemma FiledMore(entries: map<Key, Entry>, ids: map<Key, nat>, all: seq<Entry>, e: Entry)
    requires Filed(entries, ids, all) && e.id == |all|
    ensures Filed(entries[e.key := e], ids[e.key := |all|], all + [e])
  {
  }

  /** Every entry ever created, the objects they are made of, and the state they are in. */
  datatype World = World(all: seq<Entry>, repr: set<object>, state: State)

  class Pool {
    const limits: Limits
    var entries: map<Key, Entry>
    var perSubject: map<string, int>
    var listeners: map<Key, map<nat, Callback>>
    var nextListen: nat
    var stats: Stats
    var closed: bool
    ghost var world: World

    ghost function View(): State
      reads this`world
    {
      world.state
    }

    /** The fields and the objects are the ones the state describes. */
    ghost predicate Linked()
      reads this, world.repr
    {
      && this !in world.repr
      && Described(world.all, View().records, world.repr)
      && Filed(entries, View().entries, world.all)
      && limits == View().limits && perSubject == View().perSubject && listeners == View().listeners
      && nextListen == View().nextListen && stats == View().stats && closed == View().closed
    }

    ghost predicate Valid()
      reads this, world.repr
    {
      Linked() && Inv(View())
    }

    /** `e` is one of the pool's entries, current or not. */
    ghost predicate Owns(e: Entry)
      reads this`world
    {
      e.id < |world.all| && world.all[e.id] == e
    }

    constructor (limits: Limits, ghost now: int)
      ensures Valid() && world.repr == {} && View() == Initial(limits, now)
    {
      hide Inv;
      this.limits := limits;
      entries, perSubject, listeners, nextListen := map[], map[], map[], 0;
      stats, closed := Stats(0, 0, 0, 0), false;
      world := World([], {}, Initial(limits, now));
      new;
      InitialInv(limits, now);
    }

    lemma FiledIsCurrent(e: Entry)
      requires Linked() && exists k :: k in entries && entries[k] == e
      ensures Owns(e) && Current(View().records, View().entries, e.id)
      ensures View().records[e.id].lastUsed == e.lastUsed && View().records[e.id].inflight == e.inflight
    {
      DescribedAt(world.all, View().records, world.repr, e);
    }

    lemma CurrentIsFiled(id: nat)
      requires Linked() && Current(View().records, View().entries, id)
      ensures View().records[id].key in entries
      ensures var e := entries[View().records[id].key];
              e.id == id && View().records[id].lastUsed == e.lastUsed && View().records[id].inflight == e.inflight
    {
      DescribedAt(world.all, View().records, world.repr, entries[View().records[id].key]);
    }

    /** The entry unused for longest among those serving no request, or null if every one is busy. */
    method LeastRecentlyUsedLocked() returns (oldest: Entry?)
      requires Linked()
      ensures LeastRecentlyUsed(View(), if oldest == null then None else Some(oldest.id))
      ensures oldest != null ==> Owns(oldest) && oldest.id < |View().records|
    {
      hide Described;
      oldest := null;
      var waiting := entries.Keys;
      while waiting != {}
        invariant waiting <= entries.Keys
        invariant oldest == null ==> forall k :: k in entries.Keys - waiting ==> entries[k].inflight > 0
        invariant oldest != null ==>
          && oldest.inflight <= 0
          && (exists k :: k in entries && entries[k] == oldest)
          && (forall k :: k in entries.Keys - waiting && entries[k].inflight <= 0 ==> oldest.lastUsed <= entries[k].lastUsed)
        decreases waiting
      {
        var k :| k in waiting;
        waiting := waiting - {k};
        var e := entries[k];
        if e.inflight <= 0 && (oldest == null || e.lastUsed < oldest.lastUsed) {
          oldest := e;
        }
      }
      if oldest != null {
        FiledIsCurrent(oldest);
      }
      forall id: nat | Idle(View(), id) ensures oldest != null && oldest.lastUsed <= View().records[id].lastUsed {
        CurrentIsFiled(id);
      }
    }

    /** The pool lets go of an entry. */
    method DetachLocked(e: Entry)
      requires Linked() && Owns(e)
      modifies this`entries, this`perSubject, this`world
      ensures Linked() && View() == Detach(old(View()), e.id) && world == old(world).(state := View())
    {
      hide Described, Filed, Entry.Matches;
      DescribedAt(world.all, View().records, world.repr, e);
      FiledLess(entries, View().entries, world.all, e.key);
      entries := entries - {e.key};
      var left := (if e.key.subject in perSubject then perSubject[e.key.subject] else 0) - 1;
      perSubject := if left <= 0 then perSubject - {e.key.subject} else perSubject[e.key.subject := left];
      world := world.(state := Detach(View(), e.id));
    }

    /** An entry is made, serving its first request and heard by all of its key's listeners. */
    method InsertLocked(k: Key, now: int) returns (e: Entry)
      requires Linked()
      modifies this`entries, this`perSubject, this`stats, this`world
      ensures Linked() && fresh(world.repr - old(world.repr))
      ensures View() == Insert(old(View()), k, now) && Owns(e) && e.id == |old(View()).records|
      ensures world.repr >= old(world.repr) && world.all == old(world.all) + [e]
    {
      hide Described, Filed, Entry.Matches, Backend.Valid;
      SameLength(world.all, View().records, world.repr);
      var heard := Row(listeners, k);
      e := Start(k, now, heard, |world.all|);
      DescribedMore(world.all, View().records, world.repr, e, Record(k, now, 1, heard, 0));
      FiledMore(entries, View().entries, world.all, e);
      entries := entries[k := e];
      perSubject := perSubject[k.subject := (if k.subject in perSubject then perSubject[k.subject] else 0) + 1];
      stats := stats.(created := stats.created + 1);
      world := World(world.all + [e], world.repr + {e, e.backend}, Insert(View(), k, now));
    }

    /** Marks an entry used now, with `delta` more requests in flight. */
    method Use(e: Entry, now: int, delta: int)
      requires Linked() && Owns(e)
      modifies e`lastUsed, e`inflight, this`world
      ensures Linked() && View() == Touch(old(View()), e.id, now, delta) && world == old(world).(state := View())
    {
      hide Described, DescribedBut, Filed, Entry.Matches;
      ghost var s := View();
      DescribedAt(world.all, s.records, world.repr, e);
      Apart(world.all, s.records, world.repr, e);
      e.Use(now, delta, s.records[e.id]);
      ghost var r := Touch(s, e.id, now, delta);
      Together(world.all, s.records, world.repr, e, r.records[e.id]);
      world := world.(state := r);
    }

    /**
     One acquire as far as the lock reaches: the entry that serves it or the refusal, and the victim, if an
     entry had to go, which is then the caller's to close.
     */
    method TryAcquire(k: Key, now: int, ghost request: nat) returns (acquired: Result<Entry, Refusal>, victim: Entry?)
      requires Valid() && now >= View().clock && request !in View().holding
      modifies this`entries, this`perSubject, this`stats, this`world, world.repr
      ensures Valid() && fresh(world.repr - old(world.repr))
      ensures Next(old(View()), Acquire(request, k, now, if victim == null then None else Some(victim.id)), View())
      ensures acquired.Ok? ==> Owns(acquired.value) && request in View().holding && View().holding[request] == acquired.value.id
      ensures acquired.Err? ==> View().holding == old(View()).holding && Cause(old(View()), k, acquired.error)
      ensures victim != null ==> Owns(victim)
    {
      hide Described, Filed, Entry.Matches, LeastRecentlyUsed, Insert, Evict, Touch, Count, Inv;
      InvIndexed(View());
      victim := null;
      FiledEntries(entries, View().entries, world.all);
      if closed {
        acquired := Err(PoolClosed);
      } else if k in entries {
        var e := entries[k];
        DescribedAt(world.all, View().records, world.repr, e);
        Use(e, now, 1);
        acquired := Ok(e);
        Hold(request, e);
      } else {
        acquired, victim := Admit(k, now);
        if acquired.Ok? {
          Hold(request, acquired.value);
        }
      }
      NextKeeps(old(View()), Acquire(request, k, now, if victim == null then None else Some(victim.id)), View());
    }

    /** Starting an entry for a key that has none, if the limits allow it. */
    method Admit(k: Key, now: int) returns (acquired: Result<Entry, Refusal>, victim: Entry?)
      requires Linked() && Indexed(View()) && !closed && k !in View().entries && |entries| == |View().entries|
      modifies this`entries, this`perSubject, this`stats, this`world
      ensures Linked() && fresh(world.repr - old(world.repr))
      ensures var v := if victim == null then None else Some(victim.id);
              && (if NeedsRoom(old(View()), k) then LeastRecentlyUsed(old(View()), v) else v == None)
              && (v.Some? ==> v.value < |old(View()).records|)
              && View() == PoolSpec.TryAcquire(old(View()), k, now, v).0
              && (match acquired
                  case Ok(e) => PoolSpec.TryAcquire(old(View()), k, now, v).1 == Ok(e.id)
                  case Err(r) => PoolSpec.TryAcquire(old(View()), k, now, v).1 == Err(r) && Cause(old(View()), k, r))
      ensures acquired.Ok? ==> Owns(acquired.value)
      ensures victim != null ==> Owns(victim)
    {
      hide Described, Filed, Entry.Matches, LeastRecentlyUsed, Insert, Detach;
      victim := null;
      if (if k.subject in perSubject then perSubject[k.subject] else 0) >= limits.maxPerSubject {
        RejectLocked();
        return Err(SubjectQuotaExhausted), null;
      }
      if |entries| >= limits.maxProcesses {
        victim := LeastRecentlyUsedLocked();
        if victim == null {
          RejectLocked();
          return Err(PoolExhausted), null;
        }
        EvictLocked(victim);
      }
      var e := InsertLocked(k, now);
      acquired := Ok(e);
    }

    /** Records that a request was given an entry. */
    ghost method Hold(request: nat, e: Entry)
      requires Linked()
      modifies this`world
      ensures Linked() && world == old(world).(state := View())
      ensures View() == old(View()).(holding := old(View()).holding[request := e.id])
    {
      hide Described, Filed;
      world := world.(state := View().(holding := View().holding[request := e.id]));
    }

    method RejectLocked()
      requires Linked()
      modifies this`stats, this`world
      ensures Linked() && View() == Reject(old(View())) && world == old(world).(state := View())
    {
      hide Described, Filed;
      stats := stats.(rejected := stats.rejected + 1);
      world := world.(state := Reject(View()));
    }

    method EvictLocked(e: Entry)
      requires Linked() && Owns(e) && e.id < |View().records|
      modifies this`entries, this`perSubject, this`stats, this`world
      ensures Linked() && View() == Evict(old(View()), e.id) && world == old(world).(state := View())
    {
      hide Described, Filed;
      DetachLocked(e);
      stats := stats.(evicted := stats.evicted + 1);
      world := world.(state := View().(stats := stats));
    }

    /** While the pool is open, so is the backend behind any entry that a request holds. */
    lemma HeldIsOpen(e: Entry, request: nat)
      requires Valid() && !closed && Owns(e) && request in View().holding && View().holding[request] == e.id
      ensures !e.backend.closed
    {
      DescribedAt(world.all, View().records, world.repr, e);
    }

    /** Marks a request finished. */
    method Release(e: Entry, now: int, ghost request: nat)
      requires Valid() && now >= View().clock
      requires Owns(e) && request in View().holding && View().holding[request] == e.id
      modifies this`world, world.repr
      ensures Valid() && world.repr == old(world.repr)
      ensures Next(old(View()), PoolSpec.Release(request, now), View())
    {
      hide Described, Filed, Entry.Matches, Inv;
      InvIndexed(View());
      DescribedAt(world.all, View().records, world.repr, e);
      Use(e, now, -1);
      world := world.(state := View().(holding := View().holding - {request}));
      ReleaseKeeps(old(View()), now, request);
    }

    /** One scan of the reaper: the stale entries leave the pool and are handed over to be closed. */
    method Expired(now: int) returns (stale: seq<Entry>)
      requires Valid() && now >= View().clock
      modifies this`entries, this`perSubject, this`stats, this`world
      ensures Valid() && world.repr == old(world.repr)
      ensures Among(world.all, stale)
      ensures Next(old(View()), Expire(now, IdsOf(stale)), View())
    {
      hide Described, Filed, Entry.Matches, Scanning, Indexed, Inv, Among, IdsOf;
      InvIndexed(View());
      NoneStale(world.all);
      stale := [];
      ghost var s := View().(clock := now);
      Tick(s);
      ScanStarts(old(View()), now);
      FiledEntries(entries, s.entries, world.all);
      var waiting := entries.Keys;
      while waiting != {}
        invariant Linked() && world.all == old(world.all) && world.repr == old(world.repr)
        invariant Among(world.all, stale)
        invariant Scanning(s, View(), now, IdsOf(stale), waiting)
        decreases waiting
      {
        var k :| k in waiting;
        ghost var ids := IdsOf(stale);
        var gone := ExpireIfStale(k, now, s, ids, waiting);
        if gone != null {
          var e: Entry := gone;
          OneMoreStale(world.all, stale, e);
          stale := stale + [e];
        }
        waiting := waiting - {k};
      }
      ScanKeeps(old(View()), View(), now, IdsOf(stale));
    }

    /** One turn of the scan for stale entries. */
    method ExpireIfStale(k: Key, now: int, ghost s: State, ghost ids: seq<nat>, ghost waiting: set<Key>) returns (gone: Entry?)
      requires Linked() && Scanning(s, View(), now, ids, waiting) && k in waiting
      modifies this`entries, this`perSubject, this`stats, this`world
      ensures Linked() && world == old(world).(state := View())
      ensures gone == null ==> Scanning(s, View(), now, ids, waiting - {k})
      ensures gone != null ==> Owns(gone) && Scanning(s, View(), now, ids + [gone.id], waiting - {k})
    {
      hide Described, Filed, Entry.Matches, Scanning, Indexed;
      gone := null;
      ghost var v := View();
      ScanSees(s, v, now, ids, waiting, k);
      FiledEntries(entries, v.entries, world.all);
      var e := entries[k];
      DescribedAt(world.all, v.records, world.repr, e);
      if e.inflight == 0 && now - e.lastUsed >= limits.idleTTL {
        ScanTakes(s, v, now, ids, waiting, k);
        ExpireLocked(e);
        gone := e;
      } else {
        ScanSkips(s, v, now, ids, waiting, k);
      }
    }

    ghost method Tick(s: State)
      requires Linked() && s == View().(clock := s.clock)
      modifies this`world
      ensures Linked() && world == old(world).(state := s)
    {
      hide Described, Filed;
      world := world.(state := s);
    }

    method ExpireLocked(e: Entry)
      requires Linked() && Owns(e) && e.id < |View().records|
      modifies this`entries, this`perSubject, this`stats, this`world
      ensures Linked() && View() == ExpireOne(old(View()), e.id) && world == old(world).(state := View())
    {
      hide Described, Filed;
      DetachLocked(e);
      stats := stats.(idleExpired := stats.idleExpired + 1);
      world := world.(state := View().(stats := stats));
    }

    /** Adds a listener to a key, whether or not anything serves it. */
    method Subscribe(k: Key, f: Callback) returns (id: nat)
      requires Valid()
      modifies this`listeners, this`nextListen, this`world, world.repr
      ensures Valid() && world.repr == old(world.repr)
      ensures id == old(View()).nextListen && Next(old(View()), PoolSpec.Subscribe(k, f), View())
    {
      hide Described, Filed, Entry.Matches, Inv, Indexed;
      InvIndexed(View());
      FiledEntries(entries, View().entries, world.all);
      id := nextListen;
      var heard := Row(listeners, k);
      if k in entries {
        NextIsUnheard(k);
        HeardBy(entries[k], id, f);
      }
      Relisten(listeners[k := heard[id := f]], nextListen + 1);
      SubscribeKeeps(old(View()), k, f);
    }

    /** Takes a listener away from a key, and from what serves the key now. */
    method Unsubscribe(k: Key, id: nat)
      requires Valid()
      modifies this`listeners, this`nextListen, this`world, world.repr
      ensures Valid() && world.repr == old(world.repr)
      ensures Next(old(View()), PoolSpec.Unsubscribe(k, id), View())
    {
      hide Described, Filed, Entry.Matches, Inv, Indexed, Row, Enabled, Step, Next;
      InvIndexed(View());
      FiledEntries(entries, View().entries, world.all);
      UnsubscribeKeeps(View(), k, id);
      UnsubscribeIsNext(View(), k, id);
      var left := Without(k, id);
      if k in entries {
        UnheardBy(entries[k], id);
      }
      Relisten(left, nextListen);
    }

    /** The listeners without one subscription, and without its row if that leaves the row empty. */
    method Without(k: Key, id: nat) returns (changed: map<Key, map<nat, Callback>>)
      requires listeners == View().listeners
      ensures changed == RemoveListener(View(), k, id).listeners
    {
      var left := Row(listeners, k) - {id};
      changed := if left == map[] then listeners - {k} else listeners[k := left];
    }

    method Relisten(changed: map<Key, map<nat, Callback>>, next: nat)
      requires Linked()
      modifies this`listeners, this`nextListen, this`world
      ensures Linked() && View() == old(View()).(listeners := changed, nextListen := next)
      ensures world == old(world).(state := View())
    {
      hide Described, Filed;
      listeners, nextListen := changed, next;
      world := world.(state := View().(listeners := changed, nextListen := next));
    }

    lemma NextIsUnheard(k: Key)
      requires Valid() && k in entries
      ensures nextListen !in entries[k].releases
    {
      DescribedAt(world.all, View().records, world.repr, entries[k]);
      assert View().records[entries[k].id].subs == Listening(View(), k);
    }

    method HeardBy(e: Entry, id: nat, f: Callback)
      requires Linked() && Owns(e) && e.id < |View().records| && id !in e.releases
      modifies this`world, world.repr
      ensures Linked() && Owns(e) && world.repr == old(world.repr)
      ensures var s := old(View());
              View() == s.(records := s.records[e.id := s.records[e.id].(subs := s.records[e.id].subs[id := f])])
    {
      hide Described, DescribedBut, Filed, Entry.Matches;
      ghost var s := View();
      DescribedAt(world.all, s.records, world.repr, e);
      Apart(world.all, s.records, world.repr, e);
      e.Listen(id, f, s.records[e.id]);
      ghost var r := s.records[e.id].(subs := s.records[e.id].subs[id := f]);
      Together(world.all, s.records, world.repr, e, r);
      world := world.(state := s.(records := s.records[e.id := r]));
    }

    method UnheardBy(e: Entry, id: nat)
      requires Linked() && Owns(e) && e.id < |View().records|
      modifies this`world, world.repr
      ensures Linked() && Owns(e) && world.repr == old(world.repr)
      ensures var s := old(View());
              View() == s.(records := s.records[e.id := s.records[e.id].(subs := s.records[e.id].subs - {id})])
    {
      hide Described, DescribedBut, Filed, Entry.Matches;
      ghost var s := View();
      DescribedAt(world.all, s.records, world.repr, e);
      Apart(world.all, s.records, world.repr, e);
      e.Unlisten(id, s.records[e.id]);
      ghost var r := s.records[e.id].(subs := s.records[e.id].subs - {id});
      Together(world.all, s.records, world.repr, e, r);
      world := world.(state := s.(records := s.records[e.id := r]));
    }

    /** Closes the backend of an entry that is no longer the pool's. */
    method CloseEntry(e: Entry)
      requires Valid() && Owns(e) && e.id in View().doomed
      modifies this`world, world.repr
      ensures Valid() && world.repr == old(world.repr) && e.backend.closed
      ensures Next(old(View()), PoolSpec.CloseEntry(e.id), View())
    {
      hide Described, DescribedBut, Filed, Entry.Matches, Inv;
      InvIndexed(View());
      ghost var s := View();
      DescribedAt(world.all, s.records, world.repr, e);
      Apart(world.all, s.records, world.repr, e);
      e.Stop(s.records[e.id]);
      ghost var r := PoolSpec.Step(s, PoolSpec.CloseEntry(e.id));
      Together(world.all, s.records, world.repr, e, r.records[e.id]);
      world := world.(state := r);
      CloseEntryKeeps(s, PoolSpec.CloseEntry(e.id));
    }

    /** The pool is over: no request is served any more, and its entries are handed over to be closed. */
    method Close() returns (live: seq<Entry>)
      requires Valid()
      modifies this`entries, this`perSubject, this`closed, this`world
      ensures Valid() && world.repr == old(world.repr)
      ensures Next(old(View()), ClosePool, View())
      ensures forall e :: e in live <==> !old(closed) && exists k :: k in old(entries) && old(entries)[k] == e
      ensures !old(closed) ==> |live| == |old(entries)|
    {
      hide Described, Filed, Entry.Matches, Indexed, Inv;
      InvIndexed(View());
      ShutKeeps(View());
      live := [];
      if !closed {
        live := EntriesLocked();
        ShutLocked();
      }
    }

    /** The entries of the pool, each once and in no particular order. */
    method EntriesLocked() returns (live: seq<Entry>)
      ensures forall e :: e in live <==> exists k :: k in entries && entries[k] == e
      ensures |live| == |entries|
    {
      live := [];
      var waiting := entries.Keys;
      while waiting != {}
        invariant waiting <= entries.Keys && |live| == |entries| - |waiting|
        invariant forall e :: e in live ==> exists k :: k in entries && entries[k] == e
        invariant forall k :: k in entries && k !in waiting ==> entries[k] in live
        decreases waiting
      {
        var k :| k in waiting;
        waiting := waiting - {k};
        live := live + [entries[k]];
      }
    }

    method ShutLocked()
      requires Linked() && !closed
      modifies this`entries, this`perSubject, this`closed, this`world
      ensures Linked() && View() == Shut(old(View())) && world == old(world).(state := View())
    {
      hide Described, Filed;
      FiledNothing(world.all);
      closed := true;
      entries, perSubject := map[], map[];
      world := world.(state := Shut(View()));
    }
  }

  lemma InvIndexed(s: State)
    requires Inv(s)
    ensures Indexed(s) && (s.closed ==> s.entries == map[])
  {
  }

  lemma UnsubscribeIsNext(s: State, k: Key, id: nat)
    requires Indexed(s)
    ensures Next(s, PoolSpec.Unsubscribe(k, id), RemoveListener(s, k, id))
  {
  }

  /** The invariant is kept by whatever the pool's methods do, since each takes a step. */
  lemma NextKeeps(s: State, e: Event, s': State)
    requires Inv(s) && Next(s, e, s')
    ensures Inv(s')
  {
    StepKeeps(s, e);
  }

  lemma FiledNothing(all: seq<Entry>)
    ensures Filed(map[], map[], all)
  {
  }

  lemma ScanKeeps(s: State, v: State, now: int, ids: seq<nat>)
    requires Inv(s) && s.clock <= now && Scanning(s.(clock := now), v, now, ids, {})
    ensures Next(s, Expire(now, ids), v) && Inv(v)
  {
    hide Inv, Next, Scanning, Indexed;
    InvIndexed(s);
    ScanEnds(s, v, now, ids);
    NextKeeps(s, Expire(now, ids), v);
  }

  ghost function IdsOf(es: seq<Entry>): seq<nat> {
    seq(|es|, i requires 0 <= i < |es| => es[i].id)
  }

  /** Each of `es` is one of the entries, current or not. */
  ghost predicate Among(all: seq<Entry>, es: seq<Entry>) {
    forall e :: e in es ==> e.id < |all| && all[e.id] == e
  }

  lemma NoneStale(all: seq<Entry>)
    ensures Among(all, []) && IdsOf([]) == []
  {
  }

  lemma OneMoreStale(all: seq<Entry>, es: seq<Entry>, e: Entry)
    requires Among(all, es) && e.id < |all| && all[e.id] == e
    ensures Among(all, es + [e]) && IdsOf(es + [e]) == IdsOf(es) + [e.id]
  {
  }

  /** How far a scan for stale entries has come: `v` is what `s` has become, and `waiting` is still to be looked at. */
  ghost predicate Scanning(s: State, v: State, now: int, ids: seq<nat>, waiting: set<Key>) {
    && Indexed(s) && s.clock == now
    && (forall i :: 0 <= i < |ids| ==> Stale(s, ids[i], now) && s.records[ids[i]].key !in waiting)
    && (forall i, j :: 0 <= i < j < |ids| ==> ids[i] != ids[j])
    && v == ExpireAll(s, ids)
    && (forall k :: k in waiting ==> k in v.entries)
    && (forall k :: k in s.entries && k !in waiting && Stale(s, s.entries[k], now) ==> s.entries[k] in ids)
  }

  lemma ScanStarts(s: State, now: int)
    requires Indexed(s)
    ensures var t := s.(clock := now); Scanning(t, t, now, [], t.entries.Keys)
  {
  }

  lemma ScanSees(s: State, v: State, now: int, ids: seq<nat>, waiting: set<Key>, k: Key)
    requires Scanning(s, v, now, ids, waiting) && k in waiting
    ensures k in v.entries && v.records == s.records && v.limits == s.limits
    ensures k in s.entries && v.entries[k] == s.entries[k] < |s.records| && s.records[s.entries[k]].key == k
  {
  }

  lemma ScanSkips(s: State, v: State, now: int, ids: seq<nat>, waiting: set<Key>, k: Key)
    requires Scanning(s, v, now, ids, waiting) && k in s.entries && !Stale(s, s.entries[k], now)
    ensures Scanning(s, v, now, ids, waiting - {k})
  {
  }

  lemma {:induction false} ExpireAllAppend(s: State, ids: seq<nat>, id: nat)
    requires id < |s.records| && forall i :: 0 <= i < |ids| ==> ids[i] < |s.records|
    ensures ExpireAll(s, ids + [id]) == ExpireOne(ExpireAll(s, ids), id)
    decreases |ids|
  {
    if ids == [] {
      assert ExpireAll(ExpireOne(s, id), []) == ExpireOne(s, id);
    } else {
      assert (ids + [id])[1..] == ids[1..] + [id];
      ExpireAllAppend(ExpireOne(s, ids[0]), ids[1..], id);
    }
  }

  lemma ScanTakes(s: State, v: State, now: int, ids: seq<nat>, waiting: set<Key>, k: Key)
    requires Scanning(s, v, now, ids, waiting) && k in waiting && k in s.entries && Stale(s, s.entries[k], now)
    ensures s.entries[k] < |v.records| && Scanning(s, ExpireOne(v, s.entries[k]), now, ids + [s.entries[k]], waiting - {k})
  {
    hide ExpireAll, ExpireOne, Indexed;
    var id := s.entries[k];
    ScanSees(s, v, now, ids, waiting, k);
    ExpireAllAppend(s, ids, id);
    TakesOne(v, id, k);
    assert id !in ids;
  }

  lemma TakesOne(v: State, id: nat, k: Key)
    requires id < |v.records| && v.records[id].key == k
    ensures ExpireOne(v, id).entries == v.entries - {k}
  {
  }

  lemma ScanEnds(s: State, v: State, now: int, ids: seq<nat>)
    requires Indexed(s) && s.clock <= now && (s.closed ==> s.entries == map[])
    requires Scanning(s.(clock := now), v, now, ids, {})
    ensures Next(s, Expire(now, ids), v)
  {
    hide ExpireAll;
    var t := s.(clock := now);
    forall i | 0 <= i < |ids| ensures Stale(s, ids[i], now) {
      assert Stale(t, ids[i], now);
    }
    forall id: nat | Stale(s, id, now) ensures id in ids {
      assert s.entries[s.records[id].key] == id;
    }
    assert ids != [] ==> Stale(s, ids[0], now);
  }

  lemma FiledEntries(entries: map<Key, Entry>, ids: map<Key, nat>, all: seq<Entry>)
    requires Filed(entries, ids, all)
    ensures entries.Keys == ids.Keys && |entries| == |ids|
    ensures forall k :: k in entries ==> entries[k].id == ids[k] < |all| && all[ids[k]] == entries[k]
  {
    assert |entries| == |entries.Keys|;
  }

  lemma SameLength(all: seq<Entry>, records: seq<Record>, repr: set<object>)
    requires Described(all, records, repr)
    ensures |all| == |records|
  {
  }

  /** A new entry whose backend runs every callback in `heard`. */
  method Start(k: Key, now: int, heard: map<nat, Callback>, ghost id: nat) returns (e: Entry)
    ensures fresh(e) && fresh(e.backend) && e.id == id && e.key == k && e.Matches(Record(k, now, 1, heard, 0))
  {
    e := new Entry(k, now, id);
    ghost var r := Record(k, now, 1, map[], 0);
    var waiting := heard.Keys;
    while waiting != {}
      invariant waiting <= heard.Keys
      invariant e.Matches(r) && r == Record(k, now, 1, map n | n in heard.Keys - waiting :: heard[n], 0)
      decreases waiting
    {
      var n :| n in waiting;
      waiting := waiting - {n};
      e.Listen(n, heard[n], r);
      r := r.(subs := r.subs[n := heard[n]]);
    }
    assert r.subs == heard;
  }
}
