/** Configuration as values: what a deployment describes, what a request's header says, and how one is laid over the other. */
module Config {
  import opened Prelude
  import opened Text

  type EnvMap = map<Bytes, Bytes>

  datatype Server = Server(id: Bytes, command: Bytes, args: seq<Bytes>, env: EnvMap, era: Bytes)

  /** One server's part of the header. An absent field keeps what is there; an empty one does not. */
  datatype Patch = Patch(id: Bytes, command: Option<Bytes>, args: Option<seq<Bytes>>, env: Option<EnvMap>, era: Option<Bytes>) {
    predicate TouchesEnv() { env.Some? }
    predicate TouchesProcess() { command.Some? || args.Some? || era.Some? }
  }

  const ERA_AUTO: Bytes := "auto"
  const ERA_MODERN: Bytes := "modern"
  const ERA_LEGACY: Bytes := "legacy"
  const ERAS := [ERA_AUTO, ERA_MODERN, ERA_LEGACY]

  // ---------------------------------------------------------------------------------------------
  // Merging
  // ---------------------------------------------------------------------------------------------

  function Or<T>(o: Option<T>, otherwise: T): T { if o.Some? then o.value else otherwise }

  /** Variables are set one by one, any other field as a whole. */
  function Apply(s: Server, p: Patch): Server {
    Server(s.id, Or(p.command, s.command), Or(p.args, s.args), s.env + Or(p.env, map[]), Or(p.era, s.era))
  }

  /** Where a server that only the header knows starts from. */
  function Undescribed(id: Bytes): Server { Server(id, [], [], map[], ERA_AUTO) }

  function Ids(servers: seq<Server>): (ids: seq<Bytes>)
    ensures |ids| == |servers| && forall i :: 0 <= i < |ids| ==> ids[i] == servers[i].id
  {
    seq(|servers|, i requires 0 <= i < |servers| => servers[i].id)
  }

  /** The last server with the identifier: that is the one a patch is applied to. */
  function Find(servers: seq<Server>, id: Bytes): (r: Option<nat>)
    ensures r.Some? ==> r.value < |servers| && servers[r.value].id == id && forall j :: r.value < j < |servers| ==> servers[j].id != id
    ensures r.None? ==> forall s :: s in servers ==> s.id != id
  {
    if servers == [] then None
    else if servers[|servers| - 1].id == id then Some(|servers| - 1)
    else Find(servers[..|servers| - 1], id)
  }

  function Merge(servers: seq<Server>, p: Patch): seq<Server> {
    match Find(servers, p.id)
    case Some(at) => servers[at := Apply(servers[at], p)]
    case None => servers + [Apply(Undescribed(p.id), p)]
  }

  function MergeAll(servers: seq<Server>, patches: seq<Patch>): seq<Server> {
    if patches == [] then servers else Merge(MergeAll(servers, patches[..|patches| - 1]), patches[|patches| - 1])
  }

  // ---------------------------------------------------------------------------------------------
  // Validation
  // ---------------------------------------------------------------------------------------------

  datatype Problem = MissingId(at: nat) | MissingCommand(at: nat) | UnknownEra(at: nat) | DuplicateId(at: nat, first: nat) | EmptyKey(at: nat)

  /** What is wrong with the server at `i`, given the positions at which identifiers were first seen. */
  function ProblemAt(s: Server, i: nat, seen: map<Bytes, nat>): Option<Problem> {
    if s.id == [] then Some(MissingId(i))
    else if s.command == [] then Some(MissingCommand(i))
    else if s.era !in ERAS then Some(UnknownEra(i))
    else if s.id in seen then Some(DuplicateId(i, seen[s.id]))
    else if [] in s.env then Some(EmptyKey(i))
    else None
  }

  /** The problem the servers from `i` on have first. */
  function FirstProblem(servers: seq<Server>, i: nat, seen: map<Bytes, nat>): Option<Problem>
    requires i <= |servers|
    decreases |servers| - i
  {
    if i == |servers| then None
    else
      var problem := ProblemAt(servers[i], i, seen);
      if problem.Some? then problem else FirstProblem(servers, i + 1, seen[servers[i].id := i])
  }

  method ValidateServers(servers: seq<Server>) returns (problem: Option<Problem>)
    ensures problem == FirstProblem(servers, 0, map[])
  {
    var seen: map<Bytes, nat> := map[];
    for i := 0 to |servers|
      invariant FirstProblem(servers, i, seen) == FirstProblem(servers, 0, map[])
    {
      problem := ProblemAt(servers[i], i, seen);
      if problem.Some? {
        return;
      }
      seen := seen[servers[i].id := i];
    }
    return None;
  }

  predicate KnownEra(era: Bytes) { era == "auto" || era == "modern" || era == "legacy" }

  predicate ValidServer(s: Server) {
    s.id != [] && s.command != [] && KnownEra(s.era) && [] !in s.env
  }

  lemma ErasAreKnown(era: Bytes)
    ensures era in ERAS <==> KnownEra(era)
  {
  }

  predicate ValidServers(servers: seq<Server>) {
    && (forall s :: s in servers ==> ValidServer(s))
    && forall i, j :: 0 <= i < j < |servers| ==> servers[i].id != servers[j].id
  }

  lemma {:induction false} NoProblemFrom(servers: seq<Server>, i: nat, seen: map<Bytes, nat>)
    requires i <= |servers|
    requires forall id :: id in seen <==> exists j :: 0 <= j < i && servers[j].id == id
    ensures FirstProblem(servers, i, seen) == None <==>
              && (forall j :: i <= j < |servers| ==> ValidServer(servers[j]))
              && (forall j, k :: 0 <= j < k < |servers| && i <= k ==> servers[j].id != servers[k].id)
    decreases |servers| - i
  {
    if i < |servers| {
      ErasAreKnown(servers[i].era);
      hide KnownEra;
      var more := seen[servers[i].id := i];
      assert forall id :: id in more <==> exists j :: 0 <= j < i + 1 && servers[j].id == id by {
        forall id ensures id in more <==> exists j :: 0 <= j < i + 1 && servers[j].id == id {
          if id in seen {
            var j :| 0 <= j < i && servers[j].id == id;
          }
        }
      }
      NoProblemFrom(servers, i + 1, more);
    }
  }

  /** Servers are accepted exactly when each is complete, with a known era and no empty variable name, and no two share an identifier. */
  lemma AcceptedExactlyWhenValid(servers: seq<Server>)
    ensures FirstProblem(servers, 0, map[]) == None <==> ValidServers(servers)
  {
    NoProblemFrom(servers, 0, map[]);
  }

  /**
   The problem reported is real, and nothing before it was wrong: no server before it, and nothing of its own that
   comes earlier among identifier, command, era, uniqueness and environment.
   */
  predicate Real(servers: seq<Server>, p: Problem) {
    && p.at < |servers| && ValidServers(servers[..p.at])
    && var s := servers[p.at];
       match p
       case MissingId(_) => s.id == []
       case MissingCommand(_) => s.id != [] && s.command == []
       case UnknownEra(_) => s.id != [] && s.command != [] && !KnownEra(s.era)
       case DuplicateId(i, first) =>
         s.id != [] && s.command != [] && KnownEra(s.era) && first < i && servers[first].id == s.id
       case EmptyKey(_) =>
         s.id != [] && s.command != [] && KnownEra(s.era) && [] in s.env && forall j :: 0 <= j < p.at ==> servers[j].id != s.id
  }

  lemma {:induction false} ProblemFrom(servers: seq<Server>, i: nat, seen: map<Bytes, nat>)
    requires i <= |servers| && FirstProblem(servers, i, seen).Some? && ValidServers(servers[..i])
    requires forall id :: id in seen <==> exists j :: 0 <= j < i && servers[j].id == id
    requires forall id :: id in seen ==> seen[id] < i && servers[seen[id]].id == id
    ensures Real(servers, FirstProblem(servers, i, seen).value)
    decreases |servers| - i
  {
    ErasAreKnown(servers[i].era);
    hide KnownEra;
    if ProblemAt(servers[i], i, seen).None? {
      SeenFurther(servers, i, seen);
      ProblemFrom(servers, i + 1, seen[servers[i].id := i]);
    }
  }

  lemma SeenFurther(servers: seq<Server>, i: nat, seen: map<Bytes, nat>)
    requires i < |servers| && ValidServers(servers[..i]) && ProblemAt(servers[i], i, seen).None?
    requires forall id :: id in seen <==> exists j :: 0 <= j < i && servers[j].id == id
    requires forall id :: id in seen ==> seen[id] < i && servers[seen[id]].id == id
    ensures ValidServers(servers[..i + 1])
    ensures var more := seen[servers[i].id := i];
            && (forall id :: id in more <==> exists j :: 0 <= j < i + 1 && servers[j].id == id)
            && (forall id :: id in more ==> more[id] < i + 1 && servers[more[id]].id == id)
  {
    ErasAreKnown(servers[i].era);
    hide KnownEra;
    var more := seen[servers[i].id := i];
    forall id ensures id in more <==> exists j :: 0 <= j < i + 1 && servers[j].id == id {
      if id in seen {
        var j :| 0 <= j < i && servers[j].id == id;
      }
    }
    assert servers[..i + 1] == servers[..i] + [servers[i]];
    assert forall j :: 0 <= j < i ==> servers[..i][j] == servers[j];
  }

  /** A refusal names the first server at fault, and a fault it has. */
  lemma ProblemIsReal(servers: seq<Server>)
    requires FirstProblem(servers, 0, map[]).Some?
    ensures Real(servers, FirstProblem(servers, 0, map[]).value)
  {
    assert servers[..0] == [];
    ProblemFrom(servers, 0, map[]);
  }

  // ---------------------------------------------------------------------------------------------
  // Resolution
  // ---------------------------------------------------------------------------------------------

  function Resolved(base: seq<Server>, header: Option<seq<Patch>>): Result<seq<Server>, Problem> {
    var servers := MergeAll(base, Or(header, []));
    match FirstProblem(servers, 0, map[])
    case Some(problem) => Err(problem)
    case None => Ok(servers)
  }

  // ---------------------------------------------------------------------------------------------
  // What a merge is, field by field
  // ---------------------------------------------------------------------------------------------

  /** The identifiers the patches mention that are not among `known`, each where it is mentioned first. */
  function Mentioned(known: seq<Bytes>, patches: seq<Patch>): seq<Bytes> {
    if patches == [] then []
    else
      var before, id := Mentioned(known, patches[..|patches| - 1]), patches[|patches| - 1].id;
      if id in known || id in before then before else before + [id]
  }

  /** The base's servers in their order, then those the header declares, in the order it first mentions them. */
  lemma {:induction false} MergedIds(base: seq<Server>, patches: seq<Patch>)
    ensures Ids(MergeAll(base, patches)) == Ids(base) + Mentioned(Ids(base), patches)
  {
    if patches == [] {
      assert Ids(base) + [] == Ids(base);
    } else {
      var front, p := patches[..|patches| - 1], patches[|patches| - 1];
      MergedIds(base, front);
      MergeIds(MergeAll(base, front), p);
      var ids := Ids(base) + Mentioned(Ids(base), front);
      assert p.id in ids <==> p.id in Ids(base) || p.id in Mentioned(Ids(base), front);
      assert Ids(base) + (Mentioned(Ids(base), front) + [p.id]) == ids + [p.id];
    }
  }

  lemma MergeIds(servers: seq<Server>, p: Patch)
    ensures Ids(Merge(servers, p)) == if p.id in Ids(servers) then Ids(servers) else Ids(servers) + [p.id]
  {
    var at := Find(servers, p.id);
    if at.Some? {
      assert Ids(servers)[at.value] == p.id;
    } else {
      assert forall i :: 0 <= i < |servers| ==> servers[i] in servers && Ids(servers)[i] == servers[i].id;
    }
  }

  /** What the last patch for `id` that says anything says, or `initial` if none does. */
  function Last<T>(patches: seq<Patch>, id: Bytes, get: Patch -> Option<T>, initial: T): T {
    if patches == [] then initial
    else
      var p := patches[|patches| - 1];
      if p.id == id && get(p).Some? then get(p).value else Last(patches[..|patches| - 1], id, get, initial)
  }

  /** `Last` is what its name says. */
  lemma {:induction false} LastIsLast<T>(patches: seq<Patch>, id: Bytes, get: Patch -> Option<T>, initial: T, i: nat)
    requires i < |patches| && patches[i].id == id && get(patches[i]).Some?
    requires forall j :: i < j < |patches| && patches[j].id == id ==> get(patches[j]).None?
    ensures Last(patches, id, get, initial) == get(patches[i]).value
  {
    if i < |patches| - 1 {
      LastIsLast(patches[..|patches| - 1], id, get, initial, i);
    }
  }

  lemma {:induction false} NoneIsInitial<T>(patches: seq<Patch>, id: Bytes, get: Patch -> Option<T>, initial: T)
    requires forall p :: p in patches && p.id == id ==> get(p).None?
    ensures Last(patches, id, get, initial) == initial
  {
    if patches != [] {
      assert patches[|patches| - 1] in patches;
      assert forall p :: p in patches[..|patches| - 1] ==> p in patches;
      NoneIsInitial(patches[..|patches| - 1], id, get, initial);
    }
  }

  function CommandOf(): Patch -> Option<Bytes> { (p: Patch) => p.command }
  function ArgsOf(): Patch -> Option<seq<Bytes>> { (p: Patch) => p.args }
  function EraOf(): Patch -> Option<Bytes> { (p: Patch) => p.era }

  /** What a patch says about one environment variable. */
  function VariableOf(k: Bytes): Patch -> Option<Option<Bytes>> {
    (p: Patch) => if p.env.Some? && k in p.env.value then Some(Some(p.env.value[k])) else None
  }

  function Lookup(env: EnvMap, k: Bytes): Option<Bytes> { if k in env then Some(env[k]) else None }

  /** The server `after` is what `before` becomes under the patches for it: each field, and each variable, as the last patch to set it says. */
  ghost predicate Overlaid(before: Server, patches: seq<Patch>, after: Server) {
    && after.id == before.id
    && after.command == Last(patches, before.id, CommandOf(), before.command)
    && after.args == Last(patches, before.id, ArgsOf(), before.args)
    && after.era == Last(patches, before.id, EraOf(), before.era)
    && forall k :: Lookup(after.env, k) == Last(patches, before.id, VariableOf(k), Lookup(before.env, k))
  }

  lemma OverlaidOnce(before: Server, front: seq<Patch>, middle: Server, p: Patch)
    requires Overlaid(before, front, middle)
    ensures Overlaid(before, front + [p], if p.id == before.id then Apply(middle, p) else middle)
  {
    assert (front + [p])[..|front|] == front;
  }

  /** What a merged server starts from: its base server, or nothing but its identifier and an era to be found out. */
  function Start(base: seq<Server>, merged: seq<Server>, i: nat): Server
    requires i < |merged|
  {
    if i < |base| then base[i] else Server(merged[i].id, [], [], map[], "auto")
  }

  predicate DistinctIds(servers: seq<Server>) {
    forall i, j :: 0 <= i < j < |servers| ==> servers[i].id != servers[j].id
  }

  /** Each of `merged` is its base server, or a new one nothing was said about, under the patches for it. */
  ghost predicate AllOverlaid(base: seq<Server>, patches: seq<Patch>, merged: seq<Server>) {
    && |merged| >= |base| && DistinctIds(merged)
    && (forall p :: p in patches ==> exists i :: 0 <= i < |merged| && merged[i].id == p.id)
    && forall i :: 0 <= i < |merged| ==> Overlaid(Start(base, merged, i), patches, merged[i])
  }

  lemma NothingAllOverlaid(base: seq<Server>)
    requires DistinctIds(base)
    ensures AllOverlaid(base, [], base)
  {
    hide Overlaid;
    forall i | 0 <= i < |base| ensures Overlaid(base[i], [], base[i]) {
      NothingOverlaid(base[i]);
    }
  }

  /** Merging overlays every server with the patches for it, and every patch is for one of the servers. */
  lemma {:induction false} MergedFields(base: seq<Server>, patches: seq<Patch>)
    requires DistinctIds(base)
    ensures AllOverlaid(base, patches, MergeAll(base, patches))
  {
    hide AllOverlaid, Merge;
    if patches == [] {
      NothingAllOverlaid(base);
    } else {
      var front, p := patches[..|patches| - 1], patches[|patches| - 1];
      MergedFields(base, front);
      MergedOnce(base, front, MergeAll(base, front), p);
      assert patches == front + [p];
    }
  }

  lemma NothingOverlaid(s: Server)
    ensures Overlaid(s, [], s)
  {
  }

  /** A server no patch mentions is left as it was. */
  lemma UnmentionedOverlaid(s: Server, patches: seq<Patch>)
    requires forall p :: p in patches ==> p.id != s.id
    ensures Overlaid(s, patches, s)
  {
    NoneIsInitial(patches, s.id, CommandOf(), s.command);
    NoneIsInitial(patches, s.id, ArgsOf(), s.args);
    NoneIsInitial(patches, s.id, EraOf(), s.era);
    forall k ensures Lookup(s.env, k) == Last(patches, s.id, VariableOf(k), Lookup(s.env, k)) {
      NoneIsInitial(patches, s.id, VariableOf(k), Lookup(s.env, k));
    }
  }

  lemma SameId(before: Server, patches: seq<Patch>, after: Server)
    requires Overlaid(before, patches, after)
    ensures before.id == after.id
  {
  }

  lemma MergedOnce(base: seq<Server>, front: seq<Patch>, middle: seq<Server>, p: Patch)
    requires AllOverlaid(base, front, middle)
    ensures AllOverlaid(base, front + [p], Merge(middle, p))
  {
    hide Overlaid, Apply;
    var merged := Merge(middle, p);
    MergeIds(middle, p);
    forall i | 0 <= i < |middle| ensures Overlaid(Start(base, merged, i), front + [p], merged[i]) {
      SameId(Start(base, middle, i), front, middle[i]);
      OverlaidOnce(Start(base, middle, i), front, middle[i], p);
      assert Ids(merged)[i] == merged[i].id == middle[i].id;
    }
    if |merged| > |middle| {
      UnmentionedOverlaid(Undescribed(p.id), front);
      OverlaidOnce(Undescribed(p.id), front, Undescribed(p.id), p);
    }
    MergedOnceIds(base, front, middle, p);
  }

  lemma MergedOnceIds(base: seq<Server>, front: seq<Patch>, middle: seq<Server>, p: Patch)
    requires AllOverlaid(base, front, middle)
    ensures var merged := Merge(middle, p);
            && |merged| >= |base| && DistinctIds(merged)
            && forall q :: q in front + [p] ==> exists i :: 0 <= i < |merged| && merged[i].id == q.id
  {
    hide Overlaid;
    var merged := Merge(middle, p);
    var at := Find(middle, p.id);
    assert forall i :: 0 <= i < |middle| ==> merged[i].id == middle[i].id;
    assert merged[if at.Some? then at.value else |middle|].id == p.id;
    assert at.None? ==> forall i :: 0 <= i < |middle| ==> middle[i] in middle;
    forall q | q in front + [p] ensures exists i :: 0 <= i < |merged| && merged[i].id == q.id {
      if q in front {
        var i :| 0 <= i < |middle| && middle[i].id == q.id;
        assert merged[i].id == q.id;
      }
    }
  }

  /**
   A server that only the header knows has the command, the arguments and the era that the last patch to set each
   gives it, or none, none and `auto`; and exactly the variables that patches for it set, as the last one sets each.
   */
  lemma DeclaredServers(base: seq<Server>, patches: seq<Patch>, i: nat)
    requires DistinctIds(base) && |base| <= i < |MergeAll(base, patches)|
    ensures var s := MergeAll(base, patches)[i];
            && s.command == Last<Bytes>(patches, s.id, CommandOf(), [])
            && s.args == Last<seq<Bytes>>(patches, s.id, ArgsOf(), [])
            && s.era == Last<Bytes>(patches, s.id, EraOf(), "auto")
            && (forall k :: Lookup(s.env, k) == Last<Option<Bytes>>(patches, s.id, VariableOf(k), None))
            && (forall k :: k in s.env <==> exists p :: p in patches && p.id == s.id && p.env.Some? && k in p.env.value)
  {
    var merged := MergeAll(base, patches);
    MergedFields(base, patches);
    hide MergeAll;
    assert Overlaid(Start(base, merged, i), patches, merged[i]);
    hide AllOverlaid;
    OverlaidOnNothing(merged[i].id, patches, merged[i]);
  }

  lemma OverlaidOnNothing(id: Bytes, patches: seq<Patch>, s: Server)
    requires Overlaid(Server(id, [], [], map[], "auto"), patches, s)
    ensures s.command == Last<Bytes>(patches, s.id, CommandOf(), []) && s.args == Last<seq<Bytes>>(patches, s.id, ArgsOf(), [])
    ensures s.era == Last<Bytes>(patches, s.id, EraOf(), "auto")
    ensures forall k :: Lookup(s.env, k) == Last<Option<Bytes>>(patches, s.id, VariableOf(k), None)
    ensures forall k :: k in s.env <==> exists p :: p in patches && p.id == s.id && p.env.Some? && k in p.env.value
  {
    hide Last;
    forall k ensures Lookup(s.env, k) == Last<Option<Bytes>>(patches, s.id, VariableOf(k), None) {
      assert Lookup(Server(id, [], [], map[], "auto").env, k) == None;
    }
    forall k ensures k in s.env <==> exists p :: p in patches && p.id == s.id && p.env.Some? && k in p.env.value {
      assert Lookup(s.env, k) == Last<Option<Bytes>>(patches, s.id, VariableOf(k), None);
      VariablesSet(patches, s.id, k);
    }
  }

  lemma {:induction false} VariablesSet(patches: seq<Patch>, id: Bytes, k: Bytes)
    ensures Last<Option<Bytes>>(patches, id, VariableOf(k), None).Some? <==>
              exists p :: p in patches && p.id == id && p.env.Some? && k in p.env.value
  {
    if patches != [] {
      var front, last := patches[..|patches| - 1], patches[|patches| - 1];
      VariablesSet(front, id, k);
      assert forall p :: p in patches <==> p in front || p == last;
    }
  }

  /**
   Resolution fails exactly when the merged servers are invalid, naming a problem they have. Otherwise it yields the base's servers in
   their order and then the declared ones as first mentioned, each overlaid with the patches for it.
   */
  lemma ResolvesToOverlay(base: seq<Server>, header: Option<seq<Patch>>)
    requires DistinctIds(base)
    ensures var patches, r := Or(header, []), Resolved(base, header);
            && (r.Ok? <==> ValidServers(MergeAll(base, patches)))
            && (r.Err? ==> Real(MergeAll(base, patches), r.error))
            && (r.Ok? ==> Ids(r.value) == Ids(base) + Mentioned(Ids(base), patches) && AllOverlaid(base, patches, r.value))
  {
    var patches := Or(header, []);
    if Resolved(base, header).Err? {
      ProblemIsReal(MergeAll(base, patches));
    }
    hide AllOverlaid, ValidServers, FirstProblem, Real;
    AcceptedExactlyWhenValid(MergeAll(base, patches));
    MergedIds(base, patches);
    MergedFields(base, patches);
  }
}
