/** Names as clients see them: a backend's identifier, a separator, and the name the backend chose. */
module Names {
  import opened Prelude
  import opened Text
  import Sorting

  const SEPARATOR: Bytes := "__"
  const MAX_NAME_BYTES := 128

  function Qualify(id: Bytes, name: Bytes): Bytes { id + SEPARATOR + name }

  predicate LongestFirst(a: Bytes, b: Bytes) { |a| > |b| || (|a| == |b| && AtMost(a, b)) }

  /** The identifiers in the order they are tried. */
  function NewRouter(ids: seq<Bytes>): seq<Bytes> { Sorting.Sort(ids, LongestFirst) }

  /** `qualified` starts with the identifier and the separator, and something follows. */
  predicate Owns(id: Bytes, qualified: Bytes) {
    id + SEPARATOR <= qualified && |id + SEPARATOR| < |qualified|
  }

  /** The first of `router` that owns the name. */
  function FirstOwner(router: seq<Bytes>, qualified: Bytes): Option<(Bytes, Bytes)> {
    if router == [] then None
    else if Owns(router[0], qualified) then Some((router[0], qualified[|router[0] + SEPARATOR|..]))
    else FirstOwner(router[1..], qualified)
  }

  /** Tries the identifiers in turn on a name, and splits it at the first that fits. */
  method Route(router: seq<Bytes>, qualified: Bytes) returns (r: Option<(Bytes, Bytes)>)
    ensures r == FirstOwner(router, qualified)
  {
    for i := 0 to |router|
      invariant FirstOwner(router[i..], qualified) == FirstOwner(router, qualified)
    {
      var prefix := router[i] + SEPARATOR;
      if prefix <= qualified && qualified[|prefix|..] != [] {
        return Some((router[i], qualified[|prefix|..]));
      }
      assert router[i..][1..] == router[i + 1..];
    }
    return None;
  }

  // ---------------------------------------------------------------------------------------------
  // Routing inverts qualifying
  // ---------------------------------------------------------------------------------------------

  /** `id` is the longest of the identifiers that own the name, and `name` is what follows it. */
  ghost predicate RoutesTo(ids: seq<Bytes>, qualified: Bytes, id: Bytes, name: Bytes) {
    && id in ids && name != [] && qualified == Qualify(id, name)
    && forall other :: other in ids && Owns(other, qualified) ==> |other| <= |id|
  }

  lemma OrdersIds()
    ensures Sorting.Orders(LongestFirst)
  {
    forall a, b ensures LongestFirst(a, b) || LongestFirst(b, a) {
      AtMostIsTotal(a, b);
    }
    forall a, b, c | LongestFirst(a, b) && LongestFirst(b, c) ensures LongestFirst(a, c) {
      if |a| == |b| == |c| {
        AtMostIsTransitive(a, b, c);
      }
    }
  }

  lemma QualifiedIsOwned(id: Bytes, qualified: Bytes)
    ensures Owns(id, qualified) <==> exists name :: name != [] && qualified == Qualify(id, name)
    ensures Owns(id, qualified) ==> qualified == Qualify(id, qualified[|id + SEPARATOR|..])
  {
    if Owns(id, qualified) {
      var name := qualified[|id + SEPARATOR|..];
      assert qualified == Qualify(id, name) && name != [];
    }
  }

  /** The result is an owner that no identifier in front of it shares the name with. */
  lemma {:induction false} FirstOwnerIsFirst(router: seq<Bytes>, qualified: Bytes)
    ensures FirstOwner(router, qualified) == None ==> forall id :: id in router ==> !Owns(id, qualified)
    ensures var r := FirstOwner(router, qualified);
            r.Some? ==> exists k :: 0 <= k < |router| && Owns(router[k], qualified)
                                    && r.value == (router[k], qualified[|router[k] + SEPARATOR|..])
                                    && forall j :: 0 <= j < k ==> !Owns(router[j], qualified)
  {
    if router != [] && !Owns(router[0], qualified) {
      FirstOwnerIsFirst(router[1..], qualified);
      var r := FirstOwner(router[1..], qualified);
      if r.Some? {
        var k :| 0 <= k < |router[1..]| && Owns(router[1..][k], qualified)
                 && r.value == (router[1..][k], qualified[|router[1..][k] + SEPARATOR|..])
                 && forall j :: 0 <= j < k ==> !Owns(router[1..][j], qualified);
        forall j | 0 <= j < k + 1 ensures !Owns(router[j], qualified) {
          assert j > 0 ==> router[j] == router[1..][j - 1];
        }
        assert router[k + 1] == router[1..][k];
      }
    }
  }

  /** Two identifiers of one length cannot both own a name. */
  lemma OwnerOfLength(a: Bytes, b: Bytes, qualified: Bytes)
    requires Owns(a, qualified) && Owns(b, qualified) && |a| == |b|
    ensures a == b
  {
    assert a == qualified[..|a|] && b == qualified[..|b|];
  }

  /** Routing succeeds with exactly the longest identifier that owns the name; whenever it does, qualifying its result gives the name back. */
  lemma RouteIsLongest(ids: seq<Bytes>, qualified: Bytes, id: Bytes, name: Bytes)
    ensures FirstOwner(NewRouter(ids), qualified) == Some((id, name)) <==> RoutesTo(ids, qualified, id, name)
  {
    var router := NewRouter(ids);
    OrdersIds();
    Sorting.SortSorts(ids, LongestFirst);
    Sorting.SameElements(router, ids);
    FirstOwnerIsFirst(router, qualified);
    QualifiedIsOwned(id, qualified);
    var r := FirstOwner(router, qualified);
    if r.Some? {
      LongestOwnerFirst(router, qualified);
      var owner := r.value.0;
      QualifiedIsOwned(owner, qualified);
      if RoutesTo(ids, qualified, id, name) {
        OwnerOfLength(owner, id, qualified);
        assert qualified[|id + SEPARATOR|..] == name;
      }
    }
  }

  lemma LongestOwnerFirst(router: seq<Bytes>, qualified: Bytes)
    requires Sorting.Sorted(router, LongestFirst) && FirstOwner(router, qualified).Some?
    ensures var id := FirstOwner(router, qualified).value.0;
            id in router && Owns(id, qualified) && forall other :: other in router && Owns(other, qualified) ==> |other| <= |id|
  {
    FirstOwnerIsFirst(router, qualified);
    var k :| 0 <= k < |router| && Owns(router[k], qualified)
             && FirstOwner(router, qualified).value == (router[k], qualified[|router[k] + SEPARATOR|..])
             && forall j :: 0 <= j < k ==> !Owns(router[j], qualified);
    forall other | other in router && Owns(other, qualified) ensures |other| <= |router[k]| {
      var j :| 0 <= j < |router| && router[j] == other;
      assert j > k ==> LongestFirst(router[k], router[j]);
    }
  }

  /** A name is refused exactly when no identifier owns it. */
  lemma RouteFails(ids: seq<Bytes>, qualified: Bytes)
    ensures FirstOwner(NewRouter(ids), qualified) == None <==> forall id :: id in ids ==> !Owns(id, qualified)
  {
    var router := NewRouter(ids);
    OrdersIds();
    Sorting.SortSorts(ids, LongestFirst);
    Sorting.SameElements(router, ids);
    FirstOwnerIsFirst(router, qualified);
  }

  /** Neither the order nor the number of times the identifiers were given in matters. */
  lemma RouteIgnoresOrder(ids: seq<Bytes>, other: seq<Bytes>, qualified: Bytes)
    requires forall id :: id in ids <==> id in other
    ensures FirstOwner(NewRouter(ids), qualified) == FirstOwner(NewRouter(other), qualified)
  {
    var r := FirstOwner(NewRouter(ids), qualified);
    if r.Some? {
      RouteIsLongest(ids, qualified, r.value.0, r.value.1);
      RouteIsLongest(other, qualified, r.value.0, r.value.1);
    } else {
      RouteFails(ids, qualified);
      RouteFails(other, qualified);
    }
  }

  // ---------------------------------------------------------------------------------------------
  // Which listed names route back
  // ---------------------------------------------------------------------------------------------

  /** No identifier with its separator is the beginning of another's. */
  predicate PrefixFree(ids: seq<Bytes>) {
    forall a, b :: a in ids && b in ids && a != b ==> !(a + SEPARATOR <= b + SEPARATOR)
  }

  ghost predicate RoutesBack(ids: seq<Bytes>, id: Bytes, name: Bytes) {
    FirstOwner(NewRouter(ids), Qualify(id, name)) == Some((id, name))
  }

  /** One name routes back to its producer unless a longer identifier owns it too. */
  lemma RoutesBackUnlessShadowed(ids: seq<Bytes>, id: Bytes, name: Bytes)
    requires id in ids && name != []
    ensures RoutesBack(ids, id, name) <==> !exists other :: other in ids && |other| > |id| && Owns(other, Qualify(id, name))
  {
    RouteIsLongest(ids, Qualify(id, name), id, name);
  }

  /** Every name of every backend routes back to it exactly when the identifiers are prefix-free with their separator. */
  lemma AllNamesRouteBack(ids: seq<Bytes>)
    ensures (forall id, name :: id in ids && name != [] ==> RoutesBack(ids, id, name)) <==> PrefixFree(ids)
  {
    if PrefixFree(ids) {
      forall id, name | id in ids && name != [] ensures RoutesBack(ids, id, name) {
        RoutesBackUnlessShadowed(ids, id, name);
        var q := Qualify(id, name);
        forall other | other in ids && |other| > |id| ensures !Owns(other, q) {
          if Owns(other, q) {
            assert id + SEPARATOR <= q;
            PrefixesAgree(id + SEPARATOR, other + SEPARATOR, q);
          }
        }
      }
    } else {
      var a, b :| a in ids && b in ids && a != b && a + SEPARATOR <= b + SEPARATOR;
      ShadowedName(ids, a, b);
    }
  }

  lemma SameLengthPrefix(a: Bytes, b: Bytes)
    requires a + SEPARATOR <= b + SEPARATOR && |a| == |b|
    ensures a == b
  {
    assert a == (a + SEPARATOR)[..|a|];
    assert b == (b + SEPARATOR)[..|b|];
  }

  lemma ShadowedName(ids: seq<Bytes>, a: Bytes, b: Bytes)
    requires a in ids && b in ids && a != b && a + SEPARATOR <= b + SEPARATOR
    ensures exists name :: name != [] && !RoutesBack(ids, a, name)
  {
    var q := b + SEPARATOR + "x";
    if |a| == |b| {
      SameLengthPrefix(a, b);
      assert false;
    }
    assert a + SEPARATOR <= q;
    var name := q[|a + SEPARATOR|..];
    assert q == Qualify(a, name) && name != [];
    assert Owns(b, q);
    RoutesBackUnlessShadowed(ids, a, name);
  }

  /** An identifier that contains the separator shadows, and so does one that merely ends in half of it. */
  lemma ShadowedIdentifiers()
    ensures !PrefixFree(["a", "a__b"]) && !RoutesBack(["a", "a__b"], "a", "b__c")
    ensures !PrefixFree(["a", "a_"]) && !RoutesBack(["a", "a_"], "a", "_x")
  {
    var a: Bytes, ab: Bytes, a1: Bytes := "a", "a__b", "a_";
    var ids1, ids2 := [a, ab], [a, a1];
    assert a in ids1 && ab in ids1 && a in ids2 && a1 in ids2;
    assert a + SEPARATOR <= ab + SEPARATOR && a + SEPARATOR <= a1 + SEPARATOR;
    assert Qualify(a, "b__c") == "a__b__c" && Owns(ab, "a__b__c");
    assert Qualify(a, "_x") == "a___x" && Owns(a1, "a___x");
    RoutesBackUnlessShadowed(ids1, a, "b__c");
    RoutesBackUnlessShadowed(ids2, a, "_x");
  }
}
