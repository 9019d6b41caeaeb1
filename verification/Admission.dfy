/** One request's configuration: the header is judged, laid over the base, and the result judged again, in that order. */
module Admission {
  import opened Prelude
  import opened Text
  import opened Config
  import opened Policies
  import opened EnvKeys

  datatype Breach = CommandNotAllowed(id: Bytes, command: Bytes) | KeyDenied(id: Bytes, key: Bytes)

  datatype Refusal = Refused(verdict: Verdict) | Invalid(problem: Problem) | Breached(breach: Breach)

  function Known(base: seq<Server>): set<Bytes> { set s | s in base :: s.id }

  /** Without a header there is nothing to judge; a header is judged even if it is empty. */
  function CheckHeader(policy: Policy, scopes: set<Bytes>, base: seq<Server>, header: Option<seq<Patch>>): Verdict {
    match header case None => Accepted case Some(patches) => DecideSpec(policy.mode, scopes, Known(base), patches)
  }

  // ---------------------------------------------------------------------------------------------
  // Judging the result
  // ---------------------------------------------------------------------------------------------

  function CommandBreach(allowlist: seq<Bytes>, servers: seq<Server>): Option<Breach> {
    if servers == [] then None
    else
      var earlier, last := CommandBreach(allowlist, servers[..|servers| - 1]), servers[|servers| - 1];
      if earlier.Some? then earlier
      else if |allowlist| > 0 && last.command !in allowlist then Some(CommandNotAllowed(last.id, last.command))
      else None
  }

  function FirstDenied(denylist: seq<Bytes>, keys: seq<Bytes>): Option<Bytes> {
    if keys == [] then None
    else
      var earlier, last := FirstDenied(denylist, keys[..|keys| - 1]), keys[|keys| - 1];
      if earlier.Some? then earlier else if last in denylist then Some(last) else None
  }

  ghost function KeysOf(p: Patch): seq<Bytes> { SortedKeys(Or(p.env, map[]).Keys) }

  ghost function KeyBreach(denylist: seq<Bytes>, patches: seq<Patch>): Option<Breach> {
    if patches == [] then None
    else
      var earlier, last := KeyBreach(denylist, patches[..|patches| - 1]), patches[|patches| - 1];
      if earlier.Some? then earlier
      else
        var denied := FirstDenied(denylist, KeysOf(last));
        if denied.Some? then Some(KeyDenied(last.id, denied.value)) else None
  }

  ghost function ResolvedBreach(policy: Policy, resolved: seq<Server>, header: Option<seq<Patch>>): Option<Breach> {
    var breach := CommandBreach(policy.allowlist, resolved);
    if breach.Some? then breach else KeyBreach(policy.denylist, Or(header, []))
  }

  lemma {:induction false} CommandBreachStands(allowlist: seq<Bytes>, servers: seq<Server>, i: nat)
    requires i <= |servers| && CommandBreach(allowlist, servers[..i]).Some?
    ensures CommandBreach(allowlist, servers) == CommandBreach(allowlist, servers[..i])
  {
    if i == |servers| {
      assert servers[..i] == servers;
    } else {
      assert servers[..|servers| - 1][..i] == servers[..i];
      CommandBreachStands(allowlist, servers[..|servers| - 1], i);
    }
  }

  lemma {:induction false} FirstDeniedStands(denylist: seq<Bytes>, keys: seq<Bytes>, i: nat)
    requires i <= |keys| && FirstDenied(denylist, keys[..i]).Some?
    ensures FirstDenied(denylist, keys) == FirstDenied(denylist, keys[..i])
  {
    if i == |keys| {
      assert keys[..i] == keys;
    } else {
      assert keys[..|keys| - 1][..i] == keys[..i];
      FirstDeniedStands(denylist, keys[..|keys| - 1], i);
    }
  }

  lemma {:induction false} KeyBreachStands(denylist: seq<Bytes>, patches: seq<Patch>, i: nat)
    requires i <= |patches| && KeyBreach(denylist, patches[..i]).Some?
    ensures KeyBreach(denylist, patches) == KeyBreach(denylist, patches[..i])
  {
    if i == |patches| {
      assert patches[..i] == patches;
    } else {
      assert patches[..|patches| - 1][..i] == patches[..i];
      KeyBreachStands(denylist, patches[..|patches| - 1], i);
    }
  }

  method CheckCommands(allowlist: seq<Bytes>, servers: seq<Server>) returns (breach: Option<Breach>)
    ensures breach == CommandBreach(allowlist, servers)
  {
    for i := 0 to |servers|
      invariant CommandBreach(allowlist, servers[..i]) == None
    {
      assert servers[..i + 1][..i] == servers[..i];
      if |allowlist| > 0 && servers[i].command !in allowlist {
        CommandBreachStands(allowlist, servers, i + 1);
        return Some(CommandNotAllowed(servers[i].id, servers[i].command));
      }
    }
    assert servers[..|servers|] == servers;
    return None;
  }

  method CheckKeys(denylist: seq<Bytes>, keys: seq<Bytes>) returns (denied: Option<Bytes>)
    ensures denied == FirstDenied(denylist, keys)
  {
    for i := 0 to |keys|
      invariant FirstDenied(denylist, keys[..i]) == None
    {
      assert keys[..i + 1][..i] == keys[..i];
      if keys[i] in denylist {
        FirstDeniedStands(denylist, keys, i + 1);
        return Some(keys[i]);
      }
    }
    assert keys[..|keys|] == keys;
    return None;
  }

  /** The commands of the whole result are judged, and the variables the header supplied. */
  method CheckResolved(policy: Policy, resolved: seq<Server>, header: Option<seq<Patch>>) returns (breach: Option<Breach>)
    ensures breach == ResolvedBreach(policy, resolved, header)
  {
    breach := CheckCommands(policy.allowlist, resolved);
    if breach.Some? || header.None? {
      return;
    }
    var patches := header.value;
    for i := 0 to |patches|
      invariant KeyBreach(policy.denylist, patches[..i]) == None
    {
      assert patches[..i + 1][..i] == patches[..i];
      var keys := Keys(Or(patches[i].env, map[]));
      var denied := CheckKeys(policy.denylist, keys);
      if denied.Some? {
        KeyBreachStands(policy.denylist, patches, i + 1);
        return Some(KeyDenied(patches[i].id, denied.value));
      }
    }
    assert patches[..|patches|] == patches;
    return None;
  }

  predicate AllListed(allowlist: seq<Bytes>, servers: seq<Server>) {
    allowlist == [] || forall s :: s in servers ==> s.command in allowlist
  }

  predicate NoneDenied(denylist: seq<Bytes>, patches: seq<Patch>) {
    forall p, k :: p in patches && k in Or(p.env, map[]) ==> k !in denylist
  }

  /** The server at `i` is the first whose command is off the list. */
  predicate Unlisted(allowlist: seq<Bytes>, servers: seq<Server>, i: nat, id: Bytes, command: Bytes) {
    && i < |servers| && servers[i].id == id && servers[i].command == command
    && allowlist != [] && command !in allowlist && AllListed(allowlist, servers[..i])
  }

  /** The patch at `i` is the first that supplies a denied variable, and of its denied ones `key` is the least. */
  predicate Denies(denylist: seq<Bytes>, patches: seq<Patch>, i: nat, id: Bytes, key: Bytes) {
    && i < |patches| && patches[i].id == id && NoneDenied(denylist, patches[..i])
    && key in Or(patches[i].env, map[]) && key in denylist
    && forall k :: k in Or(patches[i].env, map[]) && k in denylist ==> AtMost(key, k)
  }

  /** Commands come before variables; of each, what is named is the first at fault. */
  ghost predicate TrueBreach(policy: Policy, resolved: seq<Server>, patches: seq<Patch>, b: Breach) {
    match b
    case CommandNotAllowed(id, command) => exists i: nat :: Unlisted(policy.allowlist, resolved, i, id, command)
    case KeyDenied(id, key) =>
      AllListed(policy.allowlist, resolved) && exists i: nat :: Denies(policy.denylist, patches, i, id, key)
  }

  lemma {:induction false} CommandBreachIsTrue(allowlist: seq<Bytes>, servers: seq<Server>)
    requires CommandBreach(allowlist, servers).Some?
    ensures var b := CommandBreach(allowlist, servers).value;
            b.CommandNotAllowed? && exists i: nat :: Unlisted(allowlist, servers, i, b.id, b.command)
  {
    var n := |servers| - 1;
    var front, b := servers[..n], CommandBreach(allowlist, servers).value;
    if CommandBreach(allowlist, front).Some? {
      CommandBreachIsTrue(allowlist, front);
      var i: nat :| Unlisted(allowlist, front, i, b.id, b.command);
      assert front[..i] == servers[..i];
      assert Unlisted(allowlist, servers, i, b.id, b.command);
    } else {
      CommandsChecked(allowlist, front);
      assert Unlisted(allowlist, servers, n, b.id, b.command);
    }
  }

  lemma {:induction false} FirstDeniedIsFirst(denylist: seq<Bytes>, keys: seq<Bytes>)
    requires FirstDenied(denylist, keys).Some?
    ensures var d := FirstDenied(denylist, keys).value;
            exists i :: 0 <= i < |keys| && keys[i] == d && d in denylist && forall j :: 0 <= j < i ==> keys[j] !in denylist
  {
    var n := |keys| - 1;
    var front, d := keys[..n], FirstDenied(denylist, keys).value;
    if FirstDenied(denylist, front).Some? {
      FirstDeniedIsFirst(denylist, front);
      var i :| 0 <= i < |front| && front[i] == d && d in denylist && forall j :: 0 <= j < i ==> front[j] !in denylist;
      assert keys[i] == d && forall j :: 0 <= j < i ==> keys[j] == front[j];
    } else {
      DeniedChecked(denylist, front);
      assert keys[n] == d && forall j :: 0 <= j < n ==> keys[j] in front;
    }
  }

  /** Of variables in order, the first denied is the least. */
  lemma FirstDeniedIsLeast(denylist: seq<Bytes>, env: EnvMap)
    requires FirstDenied(denylist, SortedKeys(env.Keys)).Some?
    ensures var d := FirstDenied(denylist, SortedKeys(env.Keys)).value;
            d in env && d in denylist && forall k :: k in env && k in denylist ==> AtMost(d, k)
  {
    var keys := SortedKeys(env.Keys);
    var d := FirstDenied(denylist, keys).value;
    SortedKeysExactly(env.Keys);
    FirstDeniedIsFirst(denylist, keys);
    hide FirstDenied, SortedKeys, AtMost;
    var i :| 0 <= i < |keys| && keys[i] == d && d in denylist && forall j :: 0 <= j < i ==> keys[j] !in denylist;
    forall k | k in env && k in denylist ensures AtMost(d, k) {
      var j :| 0 <= j < |keys| && keys[j] == k;
      AtMostIsTotal(d, d);
    }
  }

  lemma {:induction false} KeyBreachIsTrue(denylist: seq<Bytes>, patches: seq<Patch>)
    requires KeyBreach(denylist, patches).Some?
    ensures var b := KeyBreach(denylist, patches).value; b.KeyDenied? && exists i: nat :: Denies(denylist, patches, i, b.id, b.key)
  {
    var n := |patches| - 1;
    var front, b := patches[..n], KeyBreach(denylist, patches).value;
    if KeyBreach(denylist, front).Some? {
      KeyBreachIsTrue(denylist, front);
      var i: nat :| Denies(denylist, front, i, b.id, b.key);
      assert front[..i] == patches[..i];
      assert Denies(denylist, patches, i, b.id, b.key);
    } else {
      KeysChecked(denylist, front);
      FirstDeniedIsLeast(denylist, Or(patches[n].env, map[]));
      assert Denies(denylist, patches, n, b.id, b.key);
    }
  }

  /**
   A refusal of the result names the first server whose command is off the list; or, if there is none, the first patch
   that supplies a denied variable, and the least such variable.
   */
  lemma BreachIsTrue(policy: Policy, resolved: seq<Server>, header: Option<seq<Patch>>)
    requires ResolvedBreach(policy, resolved, header).Some?
    ensures TrueBreach(policy, resolved, Or(header, []), ResolvedBreach(policy, resolved, header).value)
  {
    hide CommandBreach, KeyBreach, Unlisted, Denies;
    if CommandBreach(policy.allowlist, resolved).Some? {
      CommandBreachIsTrue(policy.allowlist, resolved);
    } else {
      CommandsChecked(policy.allowlist, resolved);
      KeyBreachIsTrue(policy.denylist, Or(header, []));
    }
  }

  lemma {:induction false} CommandsChecked(allowlist: seq<Bytes>, servers: seq<Server>)
    ensures CommandBreach(allowlist, servers) == None <==> AllListed(allowlist, servers)
  {
    if servers != [] {
      CommandsChecked(allowlist, servers[..|servers| - 1]);
      assert forall s :: s in servers <==> s in servers[..|servers| - 1] || s == servers[|servers| - 1];
    }
  }

  lemma {:induction false} DeniedChecked(denylist: seq<Bytes>, keys: seq<Bytes>)
    ensures FirstDenied(denylist, keys) == None <==> forall k :: k in keys ==> k !in denylist
  {
    if keys != [] {
      DeniedChecked(denylist, keys[..|keys| - 1]);
      assert forall k :: k in keys <==> k in keys[..|keys| - 1] || k == keys[|keys| - 1];
    }
  }

  lemma {:induction false} KeysChecked(denylist: seq<Bytes>, patches: seq<Patch>)
    ensures KeyBreach(denylist, patches) == None <==> NoneDenied(denylist, patches)
  {
    if patches != [] {
      var front, last := patches[..|patches| - 1], patches[|patches| - 1];
      KeysChecked(denylist, front);
      DeniedChecked(denylist, KeysOf(last));
      SortedKeysExactly(Or(last.env, map[]).Keys);
      hide FirstDenied, SortedKeys;
      assert forall p :: p in patches <==> p in front || p == last;
    }
  }

  /** The result is accepted exactly when its commands are on the allowlist, if there is one, and the header supplied no denied variable. */
  lemma CheckedExactly(policy: Policy, resolved: seq<Server>, header: Option<seq<Patch>>)
    ensures ResolvedBreach(policy, resolved, header) == None <==>
              && (policy.allowlist == [] || forall s :: s in resolved ==> s.command in policy.allowlist)
              && (forall p, k :: p in Or(header, []) && k in Or(p.env, map[]) ==> k !in policy.denylist)
  {
    CommandsChecked(policy.allowlist, resolved);
    KeysChecked(policy.denylist, Or(header, []));
  }

  // ---------------------------------------------------------------------------------------------
  // The whole sequence
  // ---------------------------------------------------------------------------------------------

  ghost function Admit(policy: Policy, scopes: set<Bytes>, base: seq<Server>, header: Option<seq<Patch>>): Result<seq<Server>, Refusal> {
    var verdict := CheckHeader(policy, scopes, base, header);
    if verdict != Accepted then Err(Refused(verdict))
    else match Resolved(base, header)
      case Err(problem) => Err(Invalid(problem))
      case Ok(resolved) =>
        var breach := ResolvedBreach(policy, resolved, header);
        if breach.Some? then Err(Breached(breach.value)) else Ok(resolved)
  }

  lemma {:induction false} MentionedIsNew(known: seq<Bytes>, patches: seq<Patch>)
    ensures Mentioned(known, patches) != [] ==> exists p :: p in patches && p.id !in known
  {
    if patches != [] {
      var front, last := patches[..|patches| - 1], patches[|patches| - 1];
      MentionedIsNew(known, front);
      if Mentioned(known, front) != [] {
        var p :| p in front && p.id !in known;
        assert p in patches;
      }
    }
  }

  /** A field that is not what it was was set by a patch for the server. */
  lemma ChangedBy<T>(patches: seq<Patch>, id: Bytes, get: Patch -> Option<T>, initial: T)
    requires Last(patches, id, get, initial) != initial
    ensures exists p :: p in patches && p.id == id && get(p).Some?
  {
    if forall p :: p in patches && p.id == id ==> get(p).None? {
      NoneIsInitial(patches, id, get, initial);
    }
  }

  lemma ProcessChangedBy(before: Server, patches: seq<Patch>, after: Server)
    requires Overlaid(before, patches, after)
    requires after.command != before.command || after.args != before.args || after.era != before.era
    ensures exists p :: p in patches && p.id == before.id && p.TouchesProcess()
  {
    hide Last;
    if after.command != before.command {
      ChangedBy(patches, before.id, CommandOf(), before.command);
      var p :| p in patches && p.id == before.id && CommandOf()(p).Some?;
    } else if after.args != before.args {
      ChangedBy(patches, before.id, ArgsOf(), before.args);
      var p :| p in patches && p.id == before.id && ArgsOf()(p).Some?;
    } else {
      ChangedBy(patches, before.id, EraOf(), before.era);
      var p :| p in patches && p.id == before.id && EraOf()(p).Some?;
    }
  }

  lemma EnvChangedBy(before: Server, patches: seq<Patch>, after: Server)
    requires Overlaid(before, patches, after) && after.env != before.env
    ensures exists p :: p in patches && p.id == before.id && p.TouchesEnv()
  {
    hide Last;
    SameLookups(after.env, before.env);
    var k :| Lookup(after.env, k) != Lookup(before.env, k);
    ChangedBy(patches, before.id, VariableOf(k), Lookup(before.env, k));
    var p :| p in patches && p.id == before.id && VariableOf(k)(p).Some?;
  }

  lemma SameLookups(a: EnvMap, b: EnvMap)
    ensures a == b <==> forall k :: Lookup(a, k) == Lookup(b, k)
  {
    if forall k :: Lookup(a, k) == Lookup(b, k) {
      assert forall k :: k in a <==> Lookup(a, k).Some?;
      assert forall k :: k in b <==> Lookup(b, k).Some?;
      assert a == b;
    }
  }

  /** A privilege that a header exercises to be admitted is one the deployment permits and the token covers. */
  ghost predicate Permitted(policy: Policy, scopes: set<Bytes>, m: Mode) {
    Rank(m) <= Rank(policy.mode) && ScopeFor(m).Some? && ScopeFor(m).value in scopes
  }

  lemma ExercisedIsPermitted(policy: Policy, scopes: set<Bytes>, base: seq<Server>, patches: seq<Patch>, p: Patch, m: Mode)
    requires CheckHeader(policy, scopes, base, Some(patches)) == Accepted
    requires p in patches && ExercisedBy(Known(base), p, m)
    ensures Permitted(policy, scopes, m)
  {
    AcceptedExactly(policy.mode, scopes, Known(base), patches);
    assert Exercises(Known(base), patches, m);
  }

  /**
   What an admitted header changed, the mode and the token allow: new servers take define-new, a changed
   command, argument list or era of a known server takes override-known, a changed environment takes
   env-only; without them the server, in its place, is what the base says it is.
   */
  lemma ChangesArePermitted(policy: Policy, scopes: set<Bytes>, base: seq<Server>, patches: seq<Patch>)
    requires DistinctIds(base) && Admit(policy, scopes, base, Some(patches)).Ok?
    ensures var resolved := Admit(policy, scopes, base, Some(patches)).value;
            && |base| <= |resolved|
            && (forall i :: 0 <= i < |base| ==> resolved[i].id == base[i].id)
            && (|resolved| > |base| ==> Permitted(policy, scopes, DefineNew))
            && (!Permitted(policy, scopes, OverrideKnown) ==> forall i :: 0 <= i < |base| ==>
                  resolved[i].command == base[i].command && resolved[i].args == base[i].args && resolved[i].era == base[i].era)
            && (!Permitted(policy, scopes, EnvOnly) ==> forall i :: 0 <= i < |base| ==> resolved[i].env == base[i].env)
  {
    var resolved := Admit(policy, scopes, base, Some(patches)).value;
    ResolvesToOverlay(base, Some(patches));
    hide Overlaid, Permitted, Resolved, MergeAll, ValidServers, CheckHeader, ResolvedBreach, Mentioned;
    forall i | 0 <= i < |base|
      ensures resolved[i].id == base[i].id
      ensures !Permitted(policy, scopes, OverrideKnown) ==>
                resolved[i].command == base[i].command && resolved[i].args == base[i].args && resolved[i].era == base[i].era
      ensures !Permitted(policy, scopes, EnvOnly) ==> resolved[i].env == base[i].env
    {
      assert Start(base, resolved, i) == base[i];
      SameId(base[i], patches, resolved[i]);
      assert base[i].id in Known(base);
      if resolved[i].command != base[i].command || resolved[i].args != base[i].args || resolved[i].era != base[i].era {
        ProcessChangedBy(base[i], patches, resolved[i]);
        var p :| p in patches && p.id == base[i].id && p.TouchesProcess();
        ExercisedIsPermitted(policy, scopes, base, patches, p, OverrideKnown);
      }
      if resolved[i].env != base[i].env {
        EnvChangedBy(base[i], patches, resolved[i]);
        var p :| p in patches && p.id == base[i].id && p.TouchesEnv();
        ExercisedIsPermitted(policy, scopes, base, patches, p, EnvOnly);
      }
    }
    if |resolved| > |base| {
      MentionedIsNew(Ids(base), patches);
      assert |Ids(resolved)| > |Ids(base)|;
      var p :| p in patches && p.id !in Ids(base);
      UnknownId(base, p.id);
      ExercisedIsPermitted(policy, scopes, base, patches, p, DefineNew);
    }
  }

  lemma UnknownId(base: seq<Server>, id: Bytes)
    requires id !in Ids(base)
    ensures id !in Known(base)
  {
    forall s | s in base ensures s.id != id {
      var i :| 0 <= i < |base| && base[i] == s;
      assert Ids(base)[i] == s.id;
    }
  }

  /**
   Whatever the mode: every admitted command is on the allowlist, if there is one, and every denied
   variable has the value the base gives it, or is absent where the base has none.
   */
  lemma ListsHold(policy: Policy, scopes: set<Bytes>, base: seq<Server>, header: Option<seq<Patch>>)
    requires DistinctIds(base) && Admit(policy, scopes, base, header).Ok?
    ensures var resolved := Admit(policy, scopes, base, header).value;
            && |base| <= |resolved|
            && (policy.allowlist != [] ==> forall s :: s in resolved ==> s.command in policy.allowlist)
            && (forall i, k :: 0 <= i < |base| && k in policy.denylist ==> Lookup(resolved[i].env, k) == Lookup(base[i].env, k))
            && (forall i, k :: |base| <= i < |resolved| && k in policy.denylist ==> k !in resolved[i].env)
  {
    var resolved, patches := Admit(policy, scopes, base, header).value, Or(header, []);
    ResolvesToOverlay(base, header);
    CheckedExactly(policy, resolved, header);
    hide Overlaid, Resolved, MergeAll, ValidServers, CheckHeader, ResolvedBreach, Mentioned;
    forall i, k | 0 <= i < |resolved| && k in policy.denylist
      ensures Lookup(resolved[i].env, k) == Lookup(Start(base, resolved, i).env, k)
    {
      DeniedUntouched(Start(base, resolved, i), patches, resolved[i], k);
    }
  }

  lemma DeniedUntouched(before: Server, patches: seq<Patch>, after: Server, k: Bytes)
    requires Overlaid(before, patches, after)
    requires forall p :: p in patches ==> k !in Or(p.env, map[])
    ensures Lookup(after.env, k) == Lookup(before.env, k)
  {
    NoneIsInitial(patches, before.id, VariableOf(k), Lookup(before.env, k));
  }

  /** Under env-only the header changes nothing but environments: every server keeps its place, command, arguments and era. */
  lemma EnvOnlyKeepsProcesses(policy: Policy, scopes: set<Bytes>, base: seq<Server>, header: Option<seq<Patch>>)
    requires DistinctIds(base) && Admit(policy, scopes, base, header).Ok? && Rank(policy.mode) <= Rank(EnvOnly)
    ensures var resolved := Admit(policy, scopes, base, header).value;
            |resolved| == |base| && forall i :: 0 <= i < |base| ==> resolved[i].(env := base[i].env) == base[i]
  {
    if header.Some? {
      ChangesArePermitted(policy, scopes, base, header.value);
    }
  }

  /** Under override-known the servers are those of the base. */
  lemma OverrideKnownKeepsServers(policy: Policy, scopes: set<Bytes>, base: seq<Server>, header: Option<seq<Patch>>)
    requires DistinctIds(base) && Admit(policy, scopes, base, header).Ok? && Rank(policy.mode) <= Rank(OverrideKnown)
    ensures Ids(Admit(policy, scopes, base, header).value) == Ids(base)
  {
    if header.Some? {
      ChangesArePermitted(policy, scopes, base, header.value);
    }
  }

  lemma SameCount(a: seq<Server>, b: seq<Server>)
    requires Ids(a) == Ids(b)
    ensures |a| == |b|
  {
    assert |Ids(a)| == |a| && |Ids(b)| == |b|;
  }

  // ---------------------------------------------------------------------------------------------
  // Building a policy
  // ---------------------------------------------------------------------------------------------

  datatype PolicyError = UnknownMode | NoAllowlist

  function ModeNamed(name: Bytes): Option<Mode> {
    if name == [] || name == "off" then Some(Off)
    else if name == "env-only" then Some(EnvOnly)
    else if name == "override-known" then Some(OverrideKnown)
    else if name == "define-new" then Some(DefineNew)
    else None
  }

  function NewPolicy(mode: Bytes, allowlist: seq<Bytes>, denylist: seq<Bytes>): Result<Policy, PolicyError> {
    match ModeNamed(mode)
    case None => Err(UnknownMode)
    case Some(m) => if m == DefineNew && |allowlist| == 0 then Err(NoAllowlist) else Ok(Policy(m, allowlist, denylist))
  }

  /** A policy is built from a known mode, none standing for off, unless it is to define servers without an allowlist. */
  lemma PolicyIsBuilt(mode: Bytes, allowlist: seq<Bytes>, denylist: seq<Bytes>)
    ensures var r := NewPolicy(mode, allowlist, denylist);
            && (r == Err(UnknownMode) <==> mode !in ["", "off", "env-only", "override-known", "define-new"])
            && (r == Err(NoAllowlist) <==> mode == "define-new" && allowlist == [])
            && (r.Ok? ==> r.value.allowlist == allowlist && r.value.denylist == denylist)
  {
  }

  /** Some patch is for a server that the base does not have. */
  ghost predicate Declares(base: seq<Server>, patches: seq<Patch>) {
    exists p :: p in patches && forall s :: s in base ==> s.id != p.id
  }

  /** Some patch sets the command, the arguments or the era of a server of the base. */
  ghost predicate Overrides(base: seq<Server>, patches: seq<Patch>) {
    exists p, s :: p in patches && s in base && s.id == p.id && (p.command.Some? || p.args.Some? || p.era.Some?)
  }

  /** Some patch hands a server of the base other variables. */
  ghost predicate Credits(base: seq<Server>, patches: seq<Patch>) {
    exists p, s :: p in patches && s in base && s.id == p.id && p.env.Some?
  }

  /** The deployment's mode and the token's scopes, by name, allow a header all that it does. */
  ghost predicate Grants(mode: Bytes, scopes: set<Bytes>, base: seq<Server>, patches: seq<Patch>) {
    && mode in ["env-only", "override-known", "define-new"]
    && (Declares(base, patches) ==> mode == "define-new" && "mcp:config:define" in scopes)
    && (Overrides(base, patches) ==> mode in ["override-known", "define-new"] && "mcp:config:override" in scopes)
    && (Credits(base, patches) ==> "mcp:config:env" in scopes)
  }

  lemma ExercisedInWords(base: seq<Server>, patches: seq<Patch>)
    ensures Exercises(Known(base), patches, DefineNew) <==> Declares(base, patches)
    ensures Exercises(Known(base), patches, OverrideKnown) <==> Overrides(base, patches)
    ensures Exercises(Known(base), patches, EnvOnly) <==> Credits(base, patches)
    ensures !Exercises(Known(base), patches, Off)
  {
    assert forall id :: id in Known(base) <==> exists s :: s in base && s.id == id;
  }

  lemma GrantedExactly(mode: Bytes, allowlist: seq<Bytes>, denylist: seq<Bytes>, scopes: set<Bytes>,
                       base: seq<Server>, patches: seq<Patch>)
    requires NewPolicy(mode, allowlist, denylist).Ok?
    ensures DecideSpec(NewPolicy(mode, allowlist, denylist).value.mode, scopes, Known(base), patches) == Accepted
       <==> Grants(mode, scopes, base, patches)
  {
    var m := NewPolicy(mode, allowlist, denylist).value.mode;
    AcceptedExactly(m, scopes, Known(base), patches);
    ExercisedInWords(base, patches);
    hide DecideSpec, Exercises, Declares, Overrides, Credits, Known;
  }

  /**
   A request is admitted exactly if it has no header or the mode and the scopes allow what the header does, the merged
   servers are valid, their commands are on the allowlist, if there is one, and the header supplies no denied variable;
   and then it is given the merged servers. A deployment with headers off serves requests without one.
   */
  lemma AdmittedExactly(mode: Bytes, allowlist: seq<Bytes>, denylist: seq<Bytes>, scopes: set<Bytes>,
                        base: seq<Server>, header: Option<seq<Patch>>)
    requires NewPolicy(mode, allowlist, denylist).Ok?
    ensures var r := Admit(NewPolicy(mode, allowlist, denylist).value, scopes, base, header);
            var merged := MergeAll(base, Or(header, []));
            && (r.Ok? <==>
                  && (header.Some? ==> Grants(mode, scopes, base, header.value))
                  && ValidServers(merged)
                  && (allowlist != [] ==> forall s :: s in merged ==> s.command in allowlist)
                  && (forall p, k :: p in Or(header, []) && p.env.Some? && k in p.env.value ==> k !in denylist))
            && (r.Ok? ==> r.value == merged)
  {
    var policy := NewPolicy(mode, allowlist, denylist).value;
    PolicyIsBuilt(mode, allowlist, denylist);
    AcceptedExactlyWhenValid(MergeAll(base, Or(header, [])));
    CheckedExactly(policy, MergeAll(base, Or(header, [])), header);
    if header.Some? {
      GrantedExactly(mode, allowlist, denylist, scopes, base, header.value);
    }
    hide DecideSpec, Grants, NewPolicy, FirstProblem, MergeAll, ValidServers, ResolvedBreach;
  }

  /**
   A refusal is the first of three: the header is refused for what it does, though the merge be invalid too; then the
   merge is refused for the first problem it has; and only a valid one for its commands and variables.
   */
  lemma RefusedInOrder(policy: Policy, scopes: set<Bytes>, base: seq<Server>, header: Option<seq<Patch>>)
    requires Admit(policy, scopes, base, header).Err?
    ensures var merged, allowed := MergeAll(base, Or(header, [])),
                                   header.None? || DecideSpec(policy.mode, scopes, Known(base), header.value) == Accepted;
            match Admit(policy, scopes, base, header).error
            case Refused(v) => !allowed && v == DecideSpec(policy.mode, scopes, Known(base), header.value)
            case Invalid(problem) => allowed && !ValidServers(merged) && Real(merged, problem)
            case Breached(b) => allowed && ValidServers(merged) && TrueBreach(policy, merged, Or(header, []), b)
  {
    var merged := MergeAll(base, Or(header, []));
    AcceptedExactlyWhenValid(merged);
    if FirstProblem(merged, 0, map[]).Some? {
      ProblemIsReal(merged);
    } else if ResolvedBreach(policy, merged, header).Some? {
      BreachIsTrue(policy, merged, header);
    }
    hide DecideSpec, FirstProblem, MergeAll, ValidServers, ResolvedBreach, TrueBreach, Real;
  }

  /** Whatever server a header declares runs a command from the allowlist. */
  lemma DeclaredCommandsAreListed(mode: Bytes, allowlist: seq<Bytes>, denylist: seq<Bytes>, scopes: set<Bytes>,
                                  base: seq<Server>, header: Option<seq<Patch>>, i: nat)
    requires NewPolicy(mode, allowlist, denylist).Ok? && DistinctIds(base)
    requires Admit(NewPolicy(mode, allowlist, denylist).value, scopes, base, header).Ok?
    requires |base| <= i < |Admit(NewPolicy(mode, allowlist, denylist).value, scopes, base, header).value|
    ensures Admit(NewPolicy(mode, allowlist, denylist).value, scopes, base, header).value[i].command in allowlist
  {
    var policy := NewPolicy(mode, allowlist, denylist).value;
    ListsHold(policy, scopes, base, header);
    if policy.mode != DefineNew {
      OverrideKnownKeepsServers(policy, scopes, base, header);
      SameCount(Admit(policy, scopes, base, header).value, base);
    }
  }
}
