/** No process is shared by two subjects or by two configurations. */
module Isolation {
  import opened PoolSpec
  import PoolRuns
  import opened Config
  import opened Text
  import opened Fingerprints

  /** The pool's key for one subject's use of one server, as a handle computes it. */
  ghost function HandleKey(digest: Bytes -> Bytes, subject: Subject, server: Server): Key {
    var k := KeyFor(digest, subject, server);
    Key(k.subject, k.fingerprint)
  }

  /** Request `t`, which step `i` served through a handle of `subject` and `server`, is still unfinished in state `j`. */
  ghost predicate Serving(states: seq<State>, events: seq<Event>, digest: Bytes -> Bytes, subject: Subject, server: Server,
                          i: nat, j: nat, t: nat)
  {
    && |states| == |events| + 1 && i < j < |states|
    && events[i].Acquire? && events[i].request == t && events[i].key == HandleKey(digest, subject, server)
    && t in states[i + 1].holding
    && forall n :: i < n < j ==> !(events[n].Release? && events[n].request == t)
  }

  /** An entry's key never changes. */
  lemma {:induction false} KeyStays(states: seq<State>, events: seq<Event>, j: nat, j': nat, id: nat)
    requires PoolRuns.Run(states, events) && j <= j' < |states| && id < |states[j].records|
    ensures id < |states[j'].records| && states[j'].records[id].key == states[j].records[id].key
    decreases j' - j
  {
    hide Next;
    if j < j' {
      PoolRuns.StepIsLater(states[j], events[j], states[j + 1]);
      KeyStays(states, events, j + 1, j', id);
    }
  }

  /**
   Two requests that one entry, and so one process, serves, at whatever times, come from one subject and ask for one
   configuration, unless the digest collides on their configurations; issuers are assumed to hold no NUL.
   */
  lemma OneEntryOneSubject(states: seq<State>, events: seq<Event>, digest: Bytes -> Bytes,
                           subject: Subject, server: Server, i: nat, j: nat, t: nat,
                           subject': Subject, server': Server, i': nat, j': nat, t': nat)
    requires PoolRuns.Run(states, events)
    requires Serving(states, events, digest, subject, server, i, j, t)
    requires Serving(states, events, digest, subject', server', i', j', t')
    requires NUL !in subject.issuer && NUL !in subject'.issuer && Sized(server) && Sized(server')
    ensures t in states[j].holding && t' in states[j'].holding
    ensures states[j].holding[t] == states[j'].holding[t'] ==>
              subject == subject' && (server == server' || Collides(digest, server, server'))
  {
    PoolRuns.ServedUnderItsKey(states, events, i, j, t);
    PoolRuns.ServedUnderItsKey(states, events, i', j', t');
    hide PoolRuns.Run, SubjectKey, Encode, Sized;
    var id := states[j].holding[t];
    if id == states[j'].holding[t'] {
      if j <= j' {
        KeyStays(states, events, j, j', id);
      } else {
        KeyStays(states, events, j', j, id);
      }
      PoolKeyIsInjective(digest, subject, server, subject', server');
    }
  }

  /**
   While the pool is open, requests for one key that are unfinished at the same time are served by one and the same
   entry: a subject never has two processes of one configuration busy.
   */
  lemma OneKeyOneEntry(states: seq<State>, events: seq<Event>, i: nat, t: nat, t': nat)
    requires PoolRuns.Run(states, events) && i < |states| && !states[i].closed
    requires t in states[i].holding && t' in states[i].holding
    ensures var s := states[i];
            && s.holding[t] < |s.records| && s.holding[t'] < |s.records|
            && (s.records[s.holding[t]].key == s.records[s.holding[t']].key ==> s.holding[t] == s.holding[t'])
  {
    PoolRuns.NoUseAfterClose(states, events, i, t);
    PoolRuns.NoUseAfterClose(states, events, i, t');
    hide PoolRuns.Run;
  }
}
