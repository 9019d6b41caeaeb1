/** The merge as it runs: argument arrays and environments are shared by reference, and the base must not see the header. */
module Resolving {
  import opened Prelude
  import opened Text
  import opened Config

  class Env {
    var vars: EnvMap

    constructor (initial: EnvMap)
      ensures vars == initial
    {
      vars := initial;
    }
  }

  /** A server as the program holds it. */
  datatype ServerRef = ServerRef(id: Bytes, command: Bytes, args: array<Bytes>, env: Env?, era: Bytes)

  datatype PatchRef = PatchRef(id: Bytes, command: Option<Bytes>, args: Option<array<Bytes>>, env: Option<Env>, era: Option<Bytes>)

  function EnvOf(env: Env?): EnvMap
    reads if env == null then {} else {env}
  {
    if env == null then map[] else env.vars
  }

  function View(s: ServerRef): Server
    reads s.args, if s.env == null then {} else {s.env}
  {
    Server(s.id, s.command, s.args[..], EnvOf(s.env), s.era)
  }

  function ViewPatch(p: PatchRef): Patch
    reads if p.args.Some? then {p.args.value} else {}, if p.env.Some? then {p.env.value} else {}
  {
    Patch(p.id, p.command, if p.args.Some? then Some(p.args.value[..]) else None,
          if p.env.Some? then Some(p.env.value.vars) else None, p.era)
  }

  /** The objects behind servers and behind patches. */
  ghost function Arrays(servers: seq<ServerRef>): set<object> { set s | s in servers :: s.args }
  ghost function Envs(servers: seq<ServerRef>): set<object> { set s | s in servers && s.env != null :: s.env }
  ghost function PatchArrays(patches: seq<PatchRef>): set<object> { set p | p in patches && p.args.Some? :: p.args.value }
  ghost function PatchEnvs(patches: seq<PatchRef>): set<object> { set p | p in patches && p.env.Some? :: p.env.value }

  function ViewAll(servers: seq<ServerRef>): (r: seq<Server>)
    reads Arrays(servers), Envs(servers)
    ensures |r| == |servers| && forall i :: 0 <= i < |r| ==> r[i] == View(servers[i])
  {
    seq(|servers|, i requires 0 <= i < |servers| reads Arrays(servers), Envs(servers) => View(servers[i]))
  }

  function ViewPatches(patches: seq<PatchRef>): (r: seq<Patch>)
    reads PatchArrays(patches), PatchEnvs(patches)
    ensures |r| == |patches| && forall i :: 0 <= i < |r| ==> r[i] == ViewPatch(patches[i])
  {
    seq(|patches|, i requires 0 <= i < |patches| reads PatchArrays(patches), PatchEnvs(patches) => ViewPatch(patches[i]))
  }

  method CloneArray(a: array<Bytes>) returns (b: array<Bytes>)
    ensures fresh(b) && b[..] == a[..]
  {
    b := new Bytes[a.Length](i requires 0 <= i < a.Length reads a => a[i]);
  }

  /** A copy that shares nothing with the original. */
  method CloneServer(s: ServerRef) returns (c: ServerRef)
    ensures fresh(c.args) && (c.env != null ==> fresh(c.env)) && View(c) == View(s)
  {
    var args := CloneArray(s.args);
    var env: Env? := null;
    if s.env != null {
      env := new Env(s.env.vars);
    }
    c := s.(args := args, env := env);
  }

  /** One patch over one server, whose environment is written in place. */
  method ApplyPatch(s: ServerRef, p: PatchRef) returns (r: ServerRef)
    requires s.env != null ==> p.env != Some(s.env)
    modifies if s.env == null then {} else {s.env}
    ensures View(r) == Apply(old(View(s)), old(ViewPatch(p)))
    ensures r.args == s.args || fresh(r.args)
    ensures r.env == s.env || (s.env == null && r.env != null && fresh(r.env))
  {
    r := s;
    if p.command.Some? {
      r := r.(command := p.command.value);
    }
    if p.args.Some? {
      var args := CloneArray(p.args.value);
      r := r.(args := args);
    }
    if p.era.Some? {
      r := r.(era := p.era.value);
    }
    if p.env.Some? {
      if r.env == null {
        var env := new Env(map[]);
        r := r.(env := env);
      }
      r.env.vars := r.env.vars + p.env.value.vars;
    }
  }

  /** No two servers share an environment. */
  ghost predicate Separate(servers: seq<ServerRef>) {
    forall i, j :: 0 <= i < j < |servers| ==> servers[i].env == null || servers[i].env != servers[j].env
  }

  lemma OneMore(servers: seq<ServerRef>, c: ServerRef)
    ensures Arrays(servers + [c]) == Arrays(servers) + {c.args}
    ensures Envs(servers + [c]) == Envs(servers) + if c.env == null then {} else {c.env}
  {
    var more := servers + [c];
    assert more[|servers|] == c;
    assert forall s :: s in more <==> s in servers || s == c;
  }

  /** Copies that share nothing with the originals or with each other. */
  method CloneAll(base: seq<ServerRef>) returns (servers: seq<ServerRef>)
    ensures fresh(Arrays(servers)) && fresh(Envs(servers)) && Separate(servers)
    ensures ViewAll(servers) == ViewAll(base)
  {
    servers := [];
    for i := 0 to |base|
      invariant |servers| == i && fresh(Arrays(servers)) && fresh(Envs(servers)) && Separate(servers)
      invariant forall j :: 0 <= j < i ==> View(servers[j]) == View(base[j])
    {
      var c := CloneServer(base[i]);
      OneMore(servers, c);
      servers := servers + [c];
    }
  }

  /** Where each identifier is to be found. */
  ghost predicate Indexed(index: map<Bytes, nat>, servers: seq<Server>) {
    forall id :: (if id in index then Some(index[id]) else None) == Find(servers, id)
  }

  lemma {:induction false} FindById(a: seq<Server>, b: seq<Server>, id: Bytes)
    requires Ids(a) == Ids(b)
    ensures Find(a, id) == Find(b, id)
  {
    assert |Ids(a)| == |a| && |Ids(b)| == |b|;
    if a != [] {
      var n := |a| - 1;
      assert a[n].id == Ids(a)[n] == Ids(b)[n] == b[n].id;
      assert Ids(a[..n]) == Ids(a)[..n] && Ids(b[..n]) == Ids(b)[..n];
      FindById(a[..n], b[..n], id);
    }
  }

  lemma SameIdsIndexed(index: map<Bytes, nat>, a: seq<Server>, b: seq<Server>)
    requires Indexed(index, a) && Ids(a) == Ids(b)
    ensures Indexed(index, b)
  {
    hide Find;
    forall id ensures Find(a, id) == Find(b, id) {
      FindById(a, b, id);
    }
  }

  lemma OneMoreIndexed(index: map<Bytes, nat>, servers: seq<Server>, s: Server)
    requires Indexed(index, servers)
    ensures Indexed(index[s.id := |servers|], servers + [s])
  {
    assert (servers + [s])[..|servers|] == servers;
  }

  lemma IndexedMerge(index: map<Bytes, nat>, servers: seq<Server>, p: Patch)
    requires Indexed(index, servers)
    ensures p.id in index ==> index[p.id] < |servers| && Merge(servers, p) == servers[index[p.id] := Apply(servers[index[p.id]], p)]
    ensures p.id in index ==> Indexed(index, Merge(servers, p))
    ensures p.id !in index ==> Merge(servers, p) == servers + [Apply(Undescribed(p.id), p)]
    ensures p.id !in index ==> Indexed(index[p.id := |servers|], Merge(servers, p))
  {
    assert (if p.id in index then Some(index[p.id]) else None) == Find(servers, p.id);
    hide Indexed, Apply;
    if p.id in index {
      MergeIds(servers, p);
      assert Ids(servers)[index[p.id]] == p.id;
      SameIdsIndexed(index, servers, Merge(servers, p));
    } else {
      OneMoreIndexed(index, servers, Apply(Undescribed(p.id), p));
      assert Apply(Undescribed(p.id), p).id == p.id by { NewId(p); }
    }
  }

  lemma NewId(p: Patch)
    ensures Apply(Undescribed(p.id), p).id == p.id
  {
  }

  /** A patch for a server that is known. */
  method MergeKnown(servers: seq<ServerRef>, at: nat, p: PatchRef) returns (merged: seq<ServerRef>)
    requires at < |servers| && Separate(servers) && (p.env.Some? ==> p.env.value !in Envs(servers))
    modifies Envs(servers)
    ensures Separate(merged) && fresh(Arrays(merged) - Arrays(servers)) && fresh(Envs(merged) - Envs(servers))
    ensures ViewAll(merged) == old(ViewAll(servers))[at := Apply(old(View(servers[at])), old(ViewPatch(p)))]
  {
    var s := ApplyPatch(servers[at], p);
    merged := servers[at := s];
    forall j | 0 <= j < |servers| && j != at ensures View(merged[j]) == old(View(servers[j])) {
      assert servers[j].env == null || servers[j].env != servers[at].env;
    }
  }

  /** A patch for a server that is not. */
  method MergeNew(servers: seq<ServerRef>, p: PatchRef) returns (merged: seq<ServerRef>)
    requires Separate(servers)
    ensures Separate(merged) && fresh(Arrays(merged) - Arrays(servers)) && fresh(Envs(merged) - Envs(servers))
    ensures ViewAll(merged) == ViewAll(servers) + [Apply(Undescribed(p.id), ViewPatch(p))]
  {
    var none := new Bytes[0];
    var s := ApplyPatch(ServerRef(p.id, [], none, null, ERA_AUTO), p);
    merged := servers + [s];
  }

  /** One patch: applied to the server it names, or to a new one. */
  method MergePatch(servers: seq<ServerRef>, index: map<Bytes, nat>, p: PatchRef)
    returns (merged: seq<ServerRef>, reindexed: map<Bytes, nat>)
    requires Separate(servers) && Indexed(index, ViewAll(servers)) && (p.env.Some? ==> p.env.value !in Envs(servers))
    modifies Envs(servers)
    ensures Separate(merged) && Indexed(reindexed, ViewAll(merged)) && fresh(Arrays(merged) - Arrays(servers)) && fresh(Envs(merged) - Envs(servers))
    ensures ViewAll(merged) == Merge(old(ViewAll(servers)), old(ViewPatch(p)))
  {
    IndexedMerge(index, ViewAll(servers), ViewPatch(p));
    hide Indexed, Separate, Apply, Arrays, Envs, Merge, Undescribed, View, ViewPatch;
    if p.id in index {
      merged := MergeKnown(servers, index[p.id], p);
      reindexed := index;
    } else {
      merged := MergeNew(servers, p);
      reindexed := index[p.id := |servers|];
    }
  }

  method IndexAll(servers: seq<ServerRef>) returns (index: map<Bytes, nat>)
    ensures Indexed(index, ViewAll(servers))
  {
    index := map[];
    for i := 0 to |servers|
      invariant Indexed(index, ViewAll(servers)[..i])
    {
      OneMoreIndexed(index, ViewAll(servers)[..i], View(servers[i]));
      index := index[servers[i].id := i];
      assert ViewAll(servers)[..i + 1] == ViewAll(servers)[..i] + [View(servers[i])];
    }
    assert ViewAll(servers)[..|servers|] == ViewAll(servers);
  }

  /** An argument array is no environment. */
  lemma Apart(patches: seq<PatchRef>, servers: seq<ServerRef>)
    ensures PatchArrays(patches) !! Envs(servers)
  {
  }

  /** The header's patches, one after another. */
  method MergePatches(servers: seq<ServerRef>, patches: seq<PatchRef>) returns (merged: seq<ServerRef>)
    requires Separate(servers) && PatchEnvs(patches) !! Envs(servers)
    modifies Envs(servers)
    ensures Separate(merged) && fresh(Arrays(merged) - Arrays(servers)) && fresh(Envs(merged) - Envs(servers))
    ensures ViewAll(merged) == MergeAll(old(ViewAll(servers)), old(ViewPatches(patches)))
  {
    ghost var values, changes := ViewAll(servers), ViewPatches(patches);
    merged := servers;
    var index := IndexAll(servers);
    hide Separate, Indexed, Merge;
    for i := 0 to |patches|
      invariant Separate(merged) && Indexed(index, ViewAll(merged))
      invariant fresh(Arrays(merged) - Arrays(servers)) && fresh(Envs(merged) - Envs(servers))
      invariant ViewAll(merged) == MergeAll(values, changes[..i])
      invariant ViewPatches(patches) == changes
    {
      assert changes[..i + 1][..i] == changes[..i] && changes[i] == ViewPatch(patches[i]);
      assert patches[i].env.Some? ==> patches[i].env.value in PatchEnvs(patches);
      assert PatchEnvs(patches) !! Envs(merged);
      Apart(patches, merged);
      merged, index := MergePatch(merged, index, patches[i]);
    }
    assert changes[..|patches|] == changes;
  }

  function ViewHeader(header: Option<seq<PatchRef>>): Option<seq<Patch>>
    reads PatchArrays(Or(header, [])), PatchEnvs(Or(header, []))
  {
    if header.Some? then Some(ViewPatches(header.value)) else None
  }

  lemma ResolvedBy(values: seq<Server>, header: Option<seq<Patch>>, merged: seq<Server>)
    requires merged == if header.Some? then MergeAll(values, header.value) else values
    ensures var problem := FirstProblem(merged, 0, map[]);
            Resolved(values, header) == if problem.Some? then Err(problem.value) else Ok(merged)
  {
  }

  /**
   The header laid over the base. Nothing that existed before is written, so the base, shared by every
   subject, is as it was; and nothing of the result is shared with it.
   */
  method Resolve(base: seq<ServerRef>, header: Option<seq<PatchRef>>) returns (r: Result<seq<ServerRef>, Problem>)
    ensures r.Ok? ==> fresh(Arrays(r.value)) && fresh(Envs(r.value)) && Separate(r.value)
    ensures r.Ok? ==> Resolved(old(ViewAll(base)), old(ViewHeader(header))) == Ok(ViewAll(r.value))
    ensures r.Err? ==> Resolved(old(ViewAll(base)), old(ViewHeader(header))) == Err(r.error)
    ensures ViewAll(base) == old(ViewAll(base))
  {
    hide Separate, Merge, FirstProblem, Resolved, MergeAll;
    ghost var values, seen := ViewAll(base), ViewHeader(header);
    var servers := CloneAll(base);
    assert ViewAll(base) == values && ViewAll(servers) == values;
    if header.Some? {
      assert ViewPatches(header.value) == seen.value;
      servers := MergePatches(servers, header.value);
      assert ViewAll(servers) == MergeAll(values, seen.value);
    }
    ResolvedBy(values, seen, ViewAll(servers));
    var problem := ValidateServers(ViewAll(servers));
    if problem.Some? {
      return Err(problem.value);
    }
    r := Ok(servers);
  }
}
