/** What a request's header may do: the mode says how far any header may go, and scopes how far this one. */
module Policies {
  import opened Prelude
  import opened Text
  import opened Config
  import Sorting

  datatype Mode = Off | EnvOnly | OverrideKnown | DefineNew

  function Rank(m: Mode): nat {
    match m case Off => 0 case EnvOnly => 1 case OverrideKnown => 2 case DefineNew => 3
  }

  const MODES := [Off, EnvOnly, OverrideKnown, DefineNew]

  function ScopeFor(m: Mode): Option<Bytes> {
    match m
    case Off => None
    case EnvOnly => Some("mcp:config:env")
    case OverrideKnown => Some("mcp:config:override")
    case DefineNew => Some("mcp:config:define")
  }

  datatype Policy = Policy(mode: Mode, allowlist: seq<Bytes>, denylist: seq<Bytes>)

  datatype Verdict = Accepted | Disabled | Exceeds(highest: Mode) | Missing(scopes: seq<Bytes>)

  // ---------------------------------------------------------------------------------------------
  // What a header demands
  // ---------------------------------------------------------------------------------------------

  function DemandsOf(known: set<Bytes>, p: Patch): seq<Mode> {
    if p.id !in known then [DefineNew]
    else (if p.TouchesProcess() then [OverrideKnown] else []) + (if p.TouchesEnv() then [EnvOnly] else [])
  }

  function DemandsUpTo(known: set<Bytes>, patches: seq<Patch>): seq<Mode> {
    if patches == [] then []
    else DemandsUpTo(known, patches[..|patches| - 1]) + DemandsOf(known, patches[|patches| - 1])
  }

  method Demands(known: set<Bytes>, patches: seq<Patch>) returns (wanted: seq<Mode>)
    ensures wanted == DemandsUpTo(known, patches)
  {
    wanted := [];
    for i := 0 to |patches|
      invariant wanted == DemandsUpTo(known, patches[..i])
    {
      assert patches[..i + 1][..i] == patches[..i];
      if patches[i].id !in known {
        wanted := wanted + [DefineNew];
        continue;
      }
      if patches[i].TouchesProcess() {
        wanted := wanted + [OverrideKnown];
      }
      if patches[i].TouchesEnv() {
        wanted := wanted + [EnvOnly];
      }
    }
    assert patches[..|patches|] == patches;
  }

  /** The patch exercises the privilege `m`. */
  predicate ExercisedBy(known: set<Bytes>, p: Patch, m: Mode) {
    match m
    case Off => false
    case EnvOnly => p.id in known && p.TouchesEnv()
    case OverrideKnown => p.id in known && p.TouchesProcess()
    case DefineNew => p.id !in known
  }

  /** One of the patches does. */
  predicate Exercises(known: set<Bytes>, patches: seq<Patch>, m: Mode) {
    exists p :: p in patches && ExercisedBy(known, p, m)
  }

  /** Every privilege exercised is demanded, and nothing else. */
  lemma {:induction false} DemandsExactly(known: set<Bytes>, patches: seq<Patch>)
    ensures forall m :: m in DemandsUpTo(known, patches) <==> Exercises(known, patches, m)
  {
    if patches != [] {
      var front, last := patches[..|patches| - 1], patches[|patches| - 1];
      DemandsExactly(known, front);
      assert forall p :: p in patches <==> p in front || p == last;
      forall m ensures m in DemandsUpTo(known, patches) <==> Exercises(known, patches, m) {
        assert m in DemandsOf(known, last) <==> ExercisedBy(known, last, m);
        assert Exercises(known, patches, m) <==> Exercises(known, front, m) || ExercisedBy(known, last, m);
      }
    }
  }

  // ---------------------------------------------------------------------------------------------
  // The decision
  // ---------------------------------------------------------------------------------------------

  function Higher(a: Mode, b: Mode): Mode { if Rank(b) > Rank(a) then b else a }

  function Highest(wanted: seq<Mode>): Mode {
    if wanted == [] then EnvOnly else Higher(Highest(wanted[..|wanted| - 1]), wanted[|wanted| - 1])
  }

  predicate Lacks(scopes: set<Bytes>, m: Mode) { ScopeFor(m).Some? && ScopeFor(m).value !in scopes }

  function MissingOf(scopes: set<Bytes>, wanted: seq<Mode>): seq<Bytes> {
    if wanted == [] then []
    else
      var m := wanted[|wanted| - 1];
      MissingOf(scopes, wanted[..|wanted| - 1]) + (if Lacks(scopes, m) then [ScopeFor(m).value] else [])
  }

  /** Each run of equal neighbours becomes one. */
  function Compact(s: seq<Bytes>): seq<Bytes> {
    if |s| <= 1 then s
    else
      var front := Compact(s[..|s| - 1]);
      if s[|s| - 2] == s[|s| - 1] then front else front + [s[|s| - 1]]
  }

  function Judge(mode: Mode, scopes: set<Bytes>, wanted: seq<Mode>): Verdict {
    if mode == Off then Disabled
    else if Rank(Highest(wanted)) > Rank(mode) then Exceeds(Highest(wanted))
    else
      var missing := MissingOf(scopes, wanted);
      if missing == [] then Accepted else Missing(Compact(Sorting.Sort(missing, AtMost)))
  }

  function DecideSpec(mode: Mode, scopes: set<Bytes>, known: set<Bytes>, patches: seq<Patch>): Verdict {
    Judge(mode, scopes, DemandsUpTo(known, patches))
  }

  method Decide(mode: Mode, scopes: set<Bytes>, known: set<Bytes>, patches: seq<Patch>) returns (v: Verdict)
    ensures v == DecideSpec(mode, scopes, known, patches)
  {
    hide DemandsUpTo, Compact, Sorting.Sort;
    if mode == Off {
      return Disabled;
    }
    var wanted := Demands(known, patches);
    var highest := EnvOnly;
    for i := 0 to |wanted|
      invariant highest == Highest(wanted[..i])
    {
      assert wanted[..i + 1][..i] == wanted[..i];
      if Rank(wanted[i]) > Rank(highest) {
        highest := wanted[i];
      }
    }
    assert wanted[..|wanted|] == wanted;
    if Rank(highest) > Rank(mode) {
      return Exceeds(highest);
    }
    var missing := [];
    for i := 0 to |wanted|
      invariant missing == MissingOf(scopes, wanted[..i])
    {
      assert wanted[..i + 1][..i] == wanted[..i];
      var scope := ScopeFor(wanted[i]);
      if scope.Some? && scope.value !in scopes {
        missing := missing + [scope.value];
      }
    }
    if |missing| > 0 {
      return Missing(Compact(Sorting.Sort(missing, AtMost)));
    }
    return Accepted;
  }

  // ---------------------------------------------------------------------------------------------
  // What the decision means
  // ---------------------------------------------------------------------------------------------

  lemma {:induction false} HighestIsHighest(wanted: seq<Mode>)
    ensures forall m :: m in wanted ==> Rank(m) <= Rank(Highest(wanted))
    ensures Highest(wanted) == EnvOnly || Highest(wanted) in wanted
    ensures Rank(Highest(wanted)) >= 1
  {
    if wanted != [] {
      HighestIsHighest(wanted[..|wanted| - 1]);
      assert forall m :: m in wanted <==> m in wanted[..|wanted| - 1] || m == wanted[|wanted| - 1];
    }
  }

  lemma {:induction false} MissingExactly(scopes: set<Bytes>, wanted: seq<Mode>)
    ensures forall s :: s in MissingOf(scopes, wanted) <==> exists m :: m in wanted && Lacks(scopes, m) && ScopeFor(m) == Some(s)
  {
    if wanted != [] {
      MissingExactly(scopes, wanted[..|wanted| - 1]);
      assert forall m :: m in wanted <==> m in wanted[..|wanted| - 1] || m == wanted[|wanted| - 1];
    }
  }

  /** A header is accepted exactly when headers are accepted at all, and each privilege it exercises is within the mode and covered by a scope. */
  lemma AcceptedExactly(mode: Mode, scopes: set<Bytes>, known: set<Bytes>, patches: seq<Patch>)
    ensures DecideSpec(mode, scopes, known, patches) == Accepted <==>
              mode != Off && forall m :: Exercises(known, patches, m) ==> Rank(m) <= Rank(mode) && !Lacks(scopes, m)
  {
    var wanted := DemandsUpTo(known, patches);
    DemandsExactly(known, patches);
    HighestIsHighest(wanted);
    MissingExactly(scopes, wanted);
    hide Exercises, DemandsUpTo, Highest, MissingOf, Compact, Sorting.Sort;
    var missing := MissingOf(scopes, wanted);
    if missing != [] {
      assert missing[0] in missing;
    }
    forall m | m in wanted && Lacks(scopes, m) ensures missing != [] {
      assert ScopeFor(m).value in missing;
    }
  }

  /** A header is refused as exceeding the mode exactly when it exercises a privilege beyond it, and the highest is named. */
  lemma ExceedsExactly(mode: Mode, scopes: set<Bytes>, known: set<Bytes>, patches: seq<Patch>)
    ensures var v := DecideSpec(mode, scopes, known, patches);
            && (v.Disabled? <==> mode == Off)
            && (v.Exceeds? <==> mode != Off && exists m :: Exercises(known, patches, m) && Rank(m) > Rank(mode))
            && (v.Exceeds? ==> Exercises(known, patches, v.highest) && forall m :: Exercises(known, patches, m) ==> Rank(m) <= Rank(v.highest))
  {
    var wanted := DemandsUpTo(known, patches);
    DemandsExactly(known, patches);
    HighestIsHighest(wanted);
    hide Exercises, DemandsUpTo, Highest, MissingOf, Compact, Sorting.Sort;
    assert Rank(mode) == 0 ==> mode == Off;
  }

  lemma {:induction false} CompactKeeps(s: seq<Bytes>)
    requires Sorting.Sorted(s, AtMost)
    ensures var c := Compact(s);
            && (forall x :: x in c <==> x in s)
            && (s != [] ==> c != [] && c[|c| - 1] == s[|s| - 1])
            && (forall i, j :: 0 <= i < j < |c| ==> AtMost(c[i], c[j]) && c[i] != c[j])
  {
    if |s| > 1 {
      var front, last := s[..|s| - 1], s[|s| - 1];
      CompactKeeps(front);
      var c := Compact(front);
      assert forall x :: x in s <==> x in front || x == last;
      assert front[|front| - 1] == s[|s| - 2];
      if s[|s| - 2] != last {
        forall i | 0 <= i < |c| ensures AtMost(c[i], last) && c[i] != last {
          BeforeLast(s, c, i);
        }
      }
    }
  }

  /** Before a last element that differs from its neighbour, everything differs from it. */
  lemma BeforeLast(s: seq<Bytes>, c: seq<Bytes>, i: nat)
    requires |s| > 1 && Sorting.Sorted(s, AtMost) && s[|s| - 2] != s[|s| - 1]
    requires i < |c| && c[i] in s[..|s| - 1]
    ensures AtMost(c[i], s[|s| - 1]) && c[i] != s[|s| - 1]
  {
    var last, before := s[|s| - 1], s[|s| - 2];
    var k :| 0 <= k < |s| - 1 && s[k] == c[i];
    assert AtMost(s[k], last) && AtMost(before, last);
    AtMostIsTotal(before, last);
    AtMostIsTotal(s[k], before);
    assert k < |s| - 2 ==> AtMost(s[k], before);
  }

  /** The scopes reported are in order, each once, and exactly those demanded and not held. */
  lemma ReportsExactlyWhatIsMissing(mode: Mode, scopes: set<Bytes>, known: set<Bytes>, patches: seq<Patch>)
    requires DecideSpec(mode, scopes, known, patches).Missing?
    ensures var missing := DecideSpec(mode, scopes, known, patches).scopes;
            && missing != []
            && (forall i, j :: 0 <= i < j < |missing| ==> AtMost(missing[i], missing[j]) && missing[i] != missing[j])
            && (forall s :: s in missing <==> s !in scopes && exists m :: Exercises(known, patches, m) && ScopeFor(m) == Some(s))
  {
    var wanted := DemandsUpTo(known, patches);
    var missing := MissingOf(scopes, wanted);
    DemandsExactly(known, patches);
    MissingExactly(scopes, wanted);
    Sorting.OrdersBytes(missing);
    Sorting.SortSorts(missing, AtMost);
    Sorting.SameElements(Sorting.Sort(missing, AtMost), missing);
    hide Exercises, DemandsUpTo, Highest, MissingOf, Sorting.Sort;
    CompactKeeps(Sorting.Sort(missing, AtMost));
    hide Compact, Sorting.Sorted;
    assert missing[0] in missing;
    assert missing[0] in Compact(Sorting.Sort(missing, AtMost));
  }

  /** One step-up is enough: with the scopes reported, the same header is accepted. */
  lemma StepUpSuffices(mode: Mode, scopes: set<Bytes>, granted: set<Bytes>, known: set<Bytes>, patches: seq<Patch>)
    requires DecideSpec(mode, scopes, known, patches).Missing?
    requires scopes <= granted && forall s :: s in DecideSpec(mode, scopes, known, patches).scopes ==> s in granted
    ensures DecideSpec(mode, granted, known, patches) == Accepted
  {
    ReportsExactlyWhatIsMissing(mode, scopes, known, patches);
    AcceptedExactly(mode, granted, known, patches);
    DemandsExactly(known, patches);
    HighestIsHighest(DemandsUpTo(known, patches));
    hide Exercises, DemandsUpTo, Highest, MissingOf, Compact, Sorting.Sort;
  }

  /** What the mode refuses, no scope obtains. */
  lemma ModeIsACeiling(mode: Mode, scopes: set<Bytes>, granted: set<Bytes>, known: set<Bytes>, patches: seq<Patch>)
    requires DecideSpec(mode, scopes, known, patches).Disabled? || DecideSpec(mode, scopes, known, patches).Exceeds?
    ensures DecideSpec(mode, granted, known, patches) == DecideSpec(mode, scopes, known, patches)
  {
  }

  /** Acceptance persists under a higher mode and a larger set of scopes. */
  lemma AcceptanceIsMonotone(mode: Mode, scopes: set<Bytes>, mode': Mode, scopes': set<Bytes>, known: set<Bytes>, patches: seq<Patch>)
    requires DecideSpec(mode, scopes, known, patches) == Accepted
    requires Rank(mode) <= Rank(mode') && scopes <= scopes'
    ensures DecideSpec(mode', scopes', known, patches) == Accepted
  {
    AcceptedExactly(mode, scopes, known, patches);
    AcceptedExactly(mode', scopes', known, patches);
    hide DecideSpec, Exercises;
  }

  // ---------------------------------------------------------------------------------------------
  // The scopes a deployment advertises
  // ---------------------------------------------------------------------------------------------

  method Scopes(mode: Mode) returns (scopes: seq<Bytes>)
    ensures forall s :: s in scopes <==> exists m :: Rank(m) <= Rank(mode) && ScopeFor(m) == Some(s)
    ensures |scopes| == Rank(mode)
    ensures forall m :: 1 <= Rank(m) <= Rank(mode) ==> ScopeFor(m) == Some(scopes[Rank(m) - 1])
    ensures mode == Off ==> scopes == []
    ensures mode == EnvOnly ==> scopes == ["mcp:config:env"]
    ensures mode == OverrideKnown ==> scopes == ["mcp:config:env", "mcp:config:override"]
    ensures mode == DefineNew ==> scopes == ["mcp:config:env", "mcp:config:override", "mcp:config:define"]
  {
    scopes := [];
    for i := 0 to |MODES|
      invariant |scopes| == if i == 0 then 0 else if i - 1 <= Rank(mode) then i - 1 else Rank(mode)
      invariant forall m :: 1 <= Rank(m) <= Rank(mode) && Rank(m) < i ==> ScopeFor(m) == Some(scopes[Rank(m) - 1])
      invariant forall s :: s in scopes ==> exists m :: Rank(m) <= Rank(mode) && ScopeFor(m) == Some(s)
    {
      var m := MODES[i];
      assert Rank(m) == i;
      if Rank(m) <= Rank(mode) && ScopeFor(m).Some? {
        scopes := scopes + [ScopeFor(m).value];
      }
    }
    ScopesByName(mode, scopes);
  }

  lemma ScopesByName(mode: Mode, scopes: seq<Bytes>)
    requires |scopes| == Rank(mode) && forall m :: 1 <= Rank(m) <= Rank(mode) ==> ScopeFor(m) == Some(scopes[Rank(m) - 1])
    ensures mode == Off ==> scopes == []
    ensures mode == EnvOnly ==> scopes == ["mcp:config:env"]
    ensures mode == OverrideKnown ==> scopes == ["mcp:config:env", "mcp:config:override"]
    ensures mode == DefineNew ==> scopes == ["mcp:config:env", "mcp:config:override", "mcp:config:define"]
  {
    assert Rank(EnvOnly) == 1 && Rank(OverrideKnown) == 2 && Rank(DefineNew) == 3;
    assert ScopeFor(EnvOnly) == Some("mcp:config:env");
    assert ScopeFor(OverrideKnown) == Some("mcp:config:override");
    assert ScopeFor(DefineNew) == Some("mcp:config:define");
  }

  /** Every scope a client may be asked for is one the deployment advertises. */
  lemma StepUpsAreAdvertised(mode: Mode, scopes: set<Bytes>, known: set<Bytes>, patches: seq<Patch>, s: Bytes)
    requires DecideSpec(mode, scopes, known, patches).Missing? && s in DecideSpec(mode, scopes, known, patches).scopes
    ensures exists m :: Rank(m) <= Rank(mode) && ScopeFor(m) == Some(s)
  {
    ReportsExactlyWhatIsMissing(mode, scopes, known, patches);
    DemandsExactly(known, patches);
    HighestIsHighest(DemandsUpTo(known, patches));
    hide Exercises, DemandsUpTo, Highest, MissingOf, Compact, Sorting.Sort;
    var m :| Exercises(known, patches, m) && ScopeFor(m) == Some(s);
    assert m in DemandsUpTo(known, patches);
  }
}
