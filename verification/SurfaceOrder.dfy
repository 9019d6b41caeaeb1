/** An assembled surface does not depend on who answered first, nor on the order any backend listed its entries in. */
module SurfaceOrder {
  import opened Prelude
  import opened Text
  import opened Sorting
  import opened Surfaces
  import opened SurfaceLaws
  import Names
  import Uris
  import UriExpansions
  import UriTemplates

  /** Resources of one backend that answered are told apart by their URIs: those that share one are the same in all else. */
  ghost predicate ToldApart(ls: seq<Listing>) {
    forall l :: l in ls && !l.failed ==> Distinguishes(ByUri, l.resources)
  }

  /** The same listing, its entries in any order. */
  predicate SameListing(l: Listing, m: Listing) {
    && l.backend == m.backend && l.ttl == m.ttl && l.failed == m.failed
    && forall kind :: multiset(l.Of(kind)) == multiset(m.Of(kind))
  }

  predicate SameListings(a: seq<Listing>, b: seq<Listing>) {
    |a| == |b| && forall i :: 0 <= i < |a| ==> SameListing(a[i], b[i])
  }

  // ---------------------------------------------------------------------------------------------
  // The backends in order
  // ---------------------------------------------------------------------------------------------

  lemma {:induction false} InsertSame(a: seq<Listing>, x: Listing, b: seq<Listing>, y: Listing)
    requires SameListings(a, b) && SameListing(x, y)
    ensures SameListings(Insert(a, x, ByBackend), Insert(b, y, ByBackend))
  {
    hide SameListing;
    if a != [] {
      var n := |a| - 1;
      SameBackend(a[n], b[n]);
      SameBackend(x, y);
      if !ByBackend(a[n], x) {
        InsertSame(a[..n], x, b[..n], y);
      }
    }
  }

  lemma SameBackend(l: Listing, m: Listing)
    requires SameListing(l, m)
    ensures l.backend == m.backend
  {
  }

  lemma {:induction false} SortSame(a: seq<Listing>, b: seq<Listing>)
    requires SameListings(a, b)
    ensures SameListings(Ordered(a), Ordered(b))
  {
    hide SameListing, Insert;
    if a != [] {
      var n := |a| - 1;
      SortSame(a[..n], b[..n]);
      InsertSame(Ordered(a[..n]), a[n], Ordered(b[..n]), b[n]);
    }
  }

  lemma BackendsDistinguished(ls: seq<Listing>)
    requires DistinctBackends(ls)
    ensures Distinguishes(ByBackend, ls)
  {
    forall x, y | x in ls && y in ls && ByBackend(x, y) && ByBackend(y, x) ensures x == y {
      AtMostIsTotal(x.backend, y.backend);
    }
  }

  lemma SameAreDistinct(a: seq<Listing>, b: seq<Listing>)
    requires SameListings(a, b) && DistinctBackends(a)
    ensures DistinctBackends(b)
  {
  }

  // ---------------------------------------------------------------------------------------------
  // The entries in order
  // ---------------------------------------------------------------------------------------------

  function NamesOf(entries: seq<Item>): (r: seq<Bytes>)
    ensures |r| == |entries| && forall i :: 0 <= i < |r| ==> r[i] == entries[i].name
  {
    seq(|entries|, i requires 0 <= i < |entries| => entries[i].name)
  }

  function NameOf(e: Item): multiset<Bytes> { multiset{e.name} }

  lemma {:induction false} NamesGathered(entries: seq<Item>)
    ensures multiset(NamesOf(entries)) == Gather(entries, NameOf)
  {
    if entries != [] {
      var n := |entries| - 1;
      NamesGathered(entries[..n]);
      assert NamesOf(entries) == NamesOf(entries[..n]) + [entries[n].name];
    }
  }

  /** The names come in one order even if some are listed twice. */
  lemma SameNames(kind: Kind, a: seq<Item>, b: seq<Item>)
    requires multiset(a) == multiset(b) && kind != Resource
    ensures NamesOf(InOrder(kind, a)) == NamesOf(InOrder(kind, b))
  {
    var s, t := InOrder(kind, a), InOrder(kind, b);
    InOrderSorts(kind, a);
    InOrderSorts(kind, b);
    hide InOrder;
    NamesGathered(s);
    NamesGathered(t);
    GatherIgnoresOrder(s, t, NameOf);
    OrdersBytes(NamesOf(s));
    SortedIsUnique(NamesOf(s), NamesOf(t), AtMost);
  }

  lemma SameClaims(kind: Kind, backend: Bytes, a: seq<Item>, b: seq<Item>)
    requires multiset(a) == multiset(b) && kind != Resource
    ensures ClaimsOf(kind, backend, InOrder(kind, a)) == ClaimsOf(kind, backend, InOrder(kind, b))
  {
    SameNames(kind, a, b);
    var s, t := InOrder(kind, a), InOrder(kind, b);
    assert |NamesOf(s)| == |s| && |NamesOf(t)| == |t|;
    assert forall i :: 0 <= i < |s| ==> s[i].name == NamesOf(s)[i] == NamesOf(t)[i] == t[i].name;
  }

  lemma SameListingClaims(l: Listing, m: Listing)
    requires SameListing(l, m)
    ensures ListingClaims(l) == ListingClaims(m)
  {
    hide InOrder;
    assert multiset(l.Of(Tool)) == multiset(m.Of(Tool));
    assert multiset(l.Of(Prompt)) == multiset(m.Of(Prompt));
    assert multiset(l.Of(Template)) == multiset(m.Of(Template));
    SameClaims(Tool, l.backend, l.tools, m.tools);
    SameClaims(Prompt, l.backend, l.prompts, m.prompts);
    SameClaims(Template, l.backend, l.templates, m.templates);
  }

  lemma CountedTwice(entries: seq<Item>, x: Item, y: Item, f: Item -> multiset<Key>, k: Key)
    requires x in entries && y in entries && x != y && f(x)[k] == 1 && f(y)[k] == 1
    ensures Gather(entries, f)[k] >= 2
  {
    var i :| 0 <= i < |entries| && entries[i] == x;
    var p :| 0 <= p < |entries| && entries[p] == y;
    var without, j := entries[..i] + entries[i + 1..], if p < i then p else p - 1;
    GatherWithout(entries, i, f);
    GatherHolds(without, j, f);
    assert f(y)[k] <= Gather(without, f)[k];
  }

  /** Names that are each claimed once tell the entries apart. */
  lemma ClaimedOnce(kind: Kind, backend: Bytes, entries: seq<Item>)
    requires forall k :: Gather(entries, KeyOf(kind, backend))[k] <= 1
    ensures Distinguishes(ByName, entries)
  {
    forall x, y | x in entries && y in entries && ByName(x, y) && ByName(y, x) ensures x == y {
      AtMostIsTotal(x.name, y.name);
      if x != y {
        CountedTwice(entries, x, y, KeyOf(kind, backend), (kind, Names.Qualify(backend, x.name)));
      }
    }
  }

  /** A listing whose claims can all be settled and whose resources differ publishes the same, in whatever order it came. */
  lemma SameInOrder(kind: Kind, l: Listing, m: Listing)
    requires SameListing(l, m) && !l.failed && Distinguishes(ByUri, l.resources)
    requires forall k :: ListingKeys(l)[k] <= 1
    ensures InOrder(kind, l.Of(kind)) == InOrder(kind, m.Of(kind))
  {
    hide SameListing, Distinguishes;
    assert multiset(l.Of(kind)) == multiset(m.Of(kind)) by {
      SameEntries(kind, l, m);
    }
    if kind == Resource {
      OrdersUris();
      SortIgnoresOrder(l.resources, m.resources, ByUri);
    } else {
      OrdersNames();
      forall k ensures Gather(l.Of(kind), KeyOf(kind, l.backend))[k] <= 1 {
        assert ListingKeys(l)[k] <= 1;
      }
      ClaimedOnce(kind, l.backend, l.Of(kind));
      SortIgnoresOrder(l.Of(kind), m.Of(kind), ByName);
    }
  }

  lemma SameEntries(kind: Kind, l: Listing, m: Listing)
    requires SameListing(l, m)
    ensures multiset(l.Of(kind)) == multiset(m.Of(kind))
  {
  }

  // ---------------------------------------------------------------------------------------------
  // The whole surface
  // ---------------------------------------------------------------------------------------------

  lemma {:induction false} SameAllClaims(a: seq<Listing>, b: seq<Listing>)
    requires SameListings(a, b)
    ensures Claims(a) == Claims(b)
  {
    if a != [] {
      hide SameListing, ListingClaims;
      var n := |a| - 1;
      SameAllClaims(a[..n], b[..n]);
      SameListingClaims(a[n], b[n]);
    }
  }

  /** Each listing can be published on its own. */
  ghost predicate Publishable(ls: seq<Listing>) {
    forall l :: l in ls && !l.failed ==> Distinguishes(ByUri, l.resources) && forall k :: ListingKeys(l)[k] <= 1
  }

  lemma FrontPublishable(ls: seq<Listing>)
    requires Publishable(ls) && ls != []
    ensures Publishable(ls[..|ls| - 1])
  {
    hide ListingKeys, Distinguishes;
    assert forall l :: l in ls[..|ls| - 1] ==> l in ls;
  }

  /** What one listing publishes of a kind. */
  function PublishedBy(l: Listing, kind: Kind): seq<Item> {
    if l.failed then [] else PublishAll(kind, l.backend, InOrder(kind, l.Of(kind)))
  }

  lemma SamePublishedBy(l: Listing, m: Listing, kind: Kind)
    requires SameListing(l, m)
    requires !l.failed ==> Distinguishes(ByUri, l.resources) && forall k :: ListingKeys(l)[k] <= 1
    ensures PublishedBy(l, kind) == PublishedBy(m, kind)
  {
    SameStatus(l, m);
    if !l.failed {
      SameInOrder(kind, l, m);
    }
    hide SameListing, InOrder, ListingKeys, Publish, Distinguishes;
  }

  lemma {:induction false} SamePublished(a: seq<Listing>, b: seq<Listing>, kind: Kind)
    requires SameListings(a, b) && Publishable(a)
    ensures Published(a, kind) == Published(b, kind)
  {
    hide Published, PublishedBy, SameListing, ListingKeys, Distinguishes;
    PublishedLast(a, kind);
    PublishedLast(b, kind);
    if a != [] {
      var n := |a| - 1;
      assert SameListing(a[n], b[n]) && a[n] in a;
      FrontPublishable(a);
      SamePublishedBy(a[n], b[n], kind);
      hide Publishable;
      SamePublished(a[..n], b[..n], kind);
    }
  }

  lemma PublishedLast(ls: seq<Listing>, kind: Kind)
    ensures Published(ls, kind) == if ls == [] then [] else Published(ls[..|ls| - 1], kind) + PublishedBy(ls[|ls| - 1], kind)
  {
    hide InOrder, PublishAll;
  }

  lemma {:induction false} SameLifetime(a: seq<Listing>, b: seq<Listing>)
    requires SameListings(a, b)
    ensures Shortest(a) == Shortest(b) && Unavailable(a) == Unavailable(b)
  {
    if a != [] {
      var n := |a| - 1;
      SameLifetime(a[..n], b[..n]);
      assert SameListing(a[n], b[n]);
    }
  }

  lemma FitsEach(ls: seq<Listing>)
    requires Scan(map[], Claims(ls)).Ok? && ToldApart(ls)
    ensures Publishable(ls)
  {
    ScanSucceeds(Claims(ls));
    ClaimsKeys(ls);
    hide Scan, ListingKeys, Distinguishes;
    var all := Gather(ls, ListingKeys);
    forall l, k | l in ls && !l.failed ensures ListingKeys(l)[k] <= 1 {
      var i :| 0 <= i < |ls| && ls[i] == l;
      GatherHolds(ls, i, ListingKeys);
      assert ListingKeys(l)[k] <= all[k];
      assert k in all ==> all[k] == 1;
    }
  }

  /**
   Given distinct backends, if those that answered tell their resources apart by URI, or the surface is refused
   anyway, assembly gives the same result for the listings in any order with their entries in any order.
   */
  lemma AssemblyIgnoresOrder(a: seq<Listing>, shuffled: seq<Listing>, b: seq<Listing>)
    requires DistinctBackends(a) && (Assembled(a).Ok? ==> ToldApart(a))
    requires SameListings(a, shuffled) && multiset(shuffled) == multiset(b)
    ensures Assembled(a) == Assembled(b)
  {
    OrderedAgree(a, shuffled, b);
    var ls, ms := Ordered(a), Ordered(b);
    OrdersListings();
    SortSorts(a, ByBackend);
    SameElements(ls, a);
    hide Ordered, SameListings, DistinctBackends, Distinguishes;
    SameAllClaims(ls, ms);
    SameLifetime(ls, ms);
    if Scan(map[], Claims(ls)).Ok? {
      FitsEach(ls);
      hide Publishable, Scan;
      SamePublished(ls, ms, Tool);
      SamePublished(ls, ms, Prompt);
      SamePublished(ls, ms, Template);
      SamePublished(ls, ms, Resource);
    }
  }

  lemma OrderedAgree(a: seq<Listing>, shuffled: seq<Listing>, b: seq<Listing>)
    requires DistinctBackends(a) && SameListings(a, shuffled) && multiset(shuffled) == multiset(b)
    ensures SameListings(Ordered(a), Ordered(b))
  {
    SortSame(a, shuffled);
    SameAreDistinct(a, shuffled);
    BackendsDistinguished(shuffled);
    OrdersListings();
    SortIgnoresOrder(shuffled, b, ByBackend);
  }

  // ---------------------------------------------------------------------------------------------
  // Resources that share a URI
  // ---------------------------------------------------------------------------------------------

  /** What is in order already is left as it is. */
  lemma {:induction false} SortOfSorted(s: seq<Item>)
    requires Sorted(s, ByUri)
    ensures Sort(s, ByUri) == s
  {
    if s != [] {
      var n := |s| - 1;
      FrontSorted(s, ByUri);
      InsertLast(s);
      hide Sorted, Insert, ByUri;
      SortOfSorted(s[..n]);
    }
  }

  lemma InsertLast(s: seq<Item>)
    requires Sorted(s, ByUri) && s != []
    ensures Insert(s[..|s| - 1], s[|s| - 1], ByUri) == s
  {
    var n := |s| - 1;
    assert s == s[..n] + [s[n]];
    assert n > 0 ==> ByUri(s[n - 1], s[n]);
  }

  /** Two items that the order does not tell apart may change places in it. */
  lemma SwapKeepsOrder(s: seq<Item>, i: nat, j: nat)
    requires Sorted(s, ByUri) && i < j < |s| && s[i].uri == s[j].uri
    ensures Sorted(s[i := s[j]][j := s[i]], ByUri)
    ensures multiset(s[i := s[j]][j := s[i]]) == multiset(s)
  {
    var t := s[i := s[j]][j := s[i]];
    forall p, q | 0 <= p < q < |t| ensures ByUri(t[p], t[q]) {
      assert t[p].uri == s[p].uri && t[q].uri == s[q].uri;
      assert ByUri(s[p], s[q]);
    }
  }

  lemma Alike(entries: seq<Item>) returns (x: Item, y: Item)
    requires !Distinguishes(ByUri, entries)
    ensures x in entries && y in entries && x != y && x.uri == y.uri
  {
    x, y :| x in entries && y in entries && ByUri(x, y) && ByUri(y, x) && x != y;
    AtMostIsTotal(x.uri, y.uri);
  }

  lemma Places(s: seq<Item>, x: Item, y: Item) returns (i: nat, j: nat)
    requires x in s && y in s && x != y
    ensures i < j < |s| && s[i] != s[j] && {s[i], s[j]} == {x, y}
  {
    var p :| 0 <= p < |s| && s[p] == x;
    var q :| 0 <= q < |s| && s[q] == y;
    i, j := if p < q then p else q, if p < q then q else p;
  }

  /** Resources that are not told apart by URI have two orders. */
  lemma TwoOrders(entries: seq<Item>) returns (other: seq<Item>)
    requires !Distinguishes(ByUri, entries)
    ensures multiset(other) == multiset(entries) && Sort(other, ByUri) != Sort(entries, ByUri)
  {
    var s := Sort(entries, ByUri);
    OrdersUris();
    SortSorts(entries, ByUri);
    SameElements(s, entries);
    var x, y := Alike(entries);
    hide Sorted, Orders, Distinguishes, Sort, ByUri;
    var i, j := Places(s, x, y);
    other := s[i := s[j]][j := s[i]];
    SwapKeepsOrder(s, i, j);
    SortOfSorted(other);
    assert other[i] != s[i];
  }

  lemma PublishedApart(backend: Bytes, x: Item, y: Item)
    requires Publish(Resource, backend, x) == Publish(Resource, backend, y)
    ensures x == y
  {
    var n := |backend + Names.SEPARATOR|;
    assert x.name == Names.Qualify(backend, x.name)[n..] && y.name == Names.Qualify(backend, y.name)[n..];
    Uris.WrapIsInjective(backend, x.uri, backend, y.uri);
  }

  lemma PublishedAllApart(backend: Bytes, s: seq<Item>, t: seq<Item>)
    requires PublishAll(Resource, backend, s) == PublishAll(Resource, backend, t)
    ensures s == t
  {
    assert |s| == |PublishAll(Resource, backend, s)| == |t|;
    forall i | 0 <= i < |s| ensures s[i] == t[i] {
      assert PublishAll(Resource, backend, s)[i] == PublishAll(Resource, backend, t)[i];
      hide Publish;
      PublishedApart(backend, s[i], t[i]);
    }
  }

  /** Surfaces that agree agree listing by listing. */
  lemma {:induction false} PublishedEach(a: seq<Listing>, b: seq<Listing>, k: nat)
    requires SameListings(a, b) && Published(a, Resource) == Published(b, Resource) && k < |a| && !a[k].failed
    ensures InOrder(Resource, a[k].resources) == InOrder(Resource, b[k].resources)
  {
    var n := |a| - 1;
    var l, m := a[n], b[n];
    assert SameListing(l, m);
    SameEntries(Resource, l, m);
    SameElements(l.resources, m.resources);
    InOrderSorts(Resource, l.resources);
    InOrderSorts(Resource, m.resources);
    SameElements(InOrder(Resource, l.resources), l.resources);
    SameElements(InOrder(Resource, m.resources), m.resources);
    var p, q := Published(a[..n], Resource), Published(b[..n], Resource);
    hide InOrder, Publish, SameListing;
    var x := if l.failed then [] else PublishAll(Resource, l.backend, InOrder(Resource, l.resources));
    var y := if m.failed then [] else PublishAll(Resource, m.backend, InOrder(Resource, m.resources));
    SameStatus(l, m);
    LastPart(p, x, q, y);
    if k == n {
      PublishedAllApart(l.backend, InOrder(Resource, l.resources), InOrder(Resource, m.resources));
    } else {
      PublishedEach(a[..n], b[..n], k);
    }
  }

  lemma SameStatus(l: Listing, m: Listing)
    requires SameListing(l, m)
    ensures l.failed == m.failed && l.backend == m.backend
  {
  }

  lemma LastPart(p: seq<Item>, x: seq<Item>, q: seq<Item>, y: seq<Item>)
    requires p + x == q + y && |x| == |y|
    ensures p == q && x == y
  {
    var whole := p + x;
    assert p == whole[..|p|] && q == whole[..|q|] && x == whole[|p|..] && y == whole[|q|..];
  }

  /** Resources not told apart by URI make the surface depend on the order in which they were listed. */
  lemma OrderShows(a: seq<Listing>) returns (b: seq<Listing>)
    requires DistinctBackends(a) && Assembled(a).Ok? && !ToldApart(a)
    ensures SameListings(a, b) && Assembled(a) != Assembled(b)
  {
    var l :| l in a && !l.failed && !Distinguishes(ByUri, l.resources);
    var k :| 0 <= k < |a| && a[k] == l;
    var other := TwoOrders(l.resources);
    b := a[k := l.(resources := other)];
    assert SameListings(a, b) by {
      Relisted(a, k, other);
    }
    if Assembled(a) == Assembled(b) {
      SameResources(a, b, k);
    }
  }

  lemma Relisted(a: seq<Listing>, k: nat, other: seq<Item>)
    requires k < |a| && multiset(other) == multiset(a[k].resources)
    ensures SameListings(a, a[k := a[k].(resources := other)])
  {
    var b := a[k := a[k].(resources := other)];
    forall i | 0 <= i < |a| ensures SameListing(a[i], b[i]) {
      if i == k {
        forall kind ensures multiset(a[k].Of(kind)) == multiset(b[k].Of(kind)) {
        }
      }
    }
  }

  /** Where the counterpart of a listing comes when both are put in order. */
  lemma Counterpart(a: seq<Listing>, b: seq<Listing>, ls: seq<Listing>, ms: seq<Listing>, k: nat) returns (i: nat)
    requires DistinctBackends(b) && SameListings(a, b) && SameListings(ls, ms) && k < |a|
    requires (forall l :: l in a <==> l in ls) && (forall m :: m in b <==> m in ms)
    ensures i < |ls| && ls[i] == a[k] && ms[i] == b[k]
  {
    assert a[k] in a && b[k] in b;
    i :| 0 <= i < |ls| && ls[i] == a[k];
    assert SameListing(ls[i], ms[i]) && SameListing(a[k], b[k]);
    hide DistinctBackends, SameListings;
    SameStatus(ls[i], ms[i]);
    SameStatus(a[k], b[k]);
    assert ms[i] in ms;
    OneBackendOnce(b, ms[i], b[k]);
  }

  /** Surfaces that agree show each backend's resources in one order. */
  lemma SameResources(a: seq<Listing>, b: seq<Listing>, k: nat)
    requires DistinctBackends(a) && SameListings(a, b) && k < |a| && !a[k].failed
    requires Assembled(a).Ok? && Assembled(a) == Assembled(b)
    ensures InOrder(Resource, a[k].resources) == InOrder(Resource, b[k].resources)
  {
    var ls, ms := Ordered(a), Ordered(b);
    SameAreDistinct(a, b);
    SortSame(a, b);
    OrdersListings();
    SortSorts(a, ByBackend);
    SortSorts(b, ByBackend);
    SameElements(ls, a);
    SameElements(ms, b);
    SamePublishedSurface(a, b);
    hide Ordered, Sorted, Orders, InOrder, Published, Assembled, SameListings, DistinctBackends;
    var i := Counterpart(a, b, ls, ms, k);
    PublishedEach(ls, ms, i);
  }

  lemma SamePublishedSurface(a: seq<Listing>, b: seq<Listing>)
    requires Assembled(a).Ok? && Assembled(a) == Assembled(b)
    ensures Published(Ordered(a), Resource) == Published(Ordered(b), Resource)
  {
    hide Ordered, Published, Scan, Claims;
  }

  lemma OneBackendOnce(ls: seq<Listing>, l: Listing, m: Listing)
    requires DistinctBackends(ls) && l in ls && m in ls && l.backend == m.backend
    ensures l == m
  {
  }

  /** `b` is `a` with the listings in some order and the entries of each in some order. */
  ghost predicate Shuffles(a: seq<Listing>, shuffled: seq<Listing>, b: seq<Listing>) {
    SameListings(a, shuffled) && multiset(shuffled) == multiset(b)
  }

  /**
   Given distinct backends, assembly takes no notice of order exactly if the surface is refused or every backend that
   answered tells its resources apart by URI.
   */
  lemma OrderIgnoredExactly(a: seq<Listing>)
    requires DistinctBackends(a)
    ensures (forall shuffled, b :: Shuffles(a, shuffled, b) ==> Assembled(a) == Assembled(b))
       <==> (Assembled(a).Ok? ==> ToldApart(a))
  {
    hide Assembled, ToldApart, DistinctBackends, SameListings;
    if Assembled(a).Ok? ==> ToldApart(a) {
      forall shuffled, b | Shuffles(a, shuffled, b) ensures Assembled(a) == Assembled(b) {
        AssemblyIgnoresOrder(a, shuffled, b);
      }
    } else {
      var b := OrderShows(a);
      assert Shuffles(a, b, b);
    }
  }

  // ---------------------------------------------------------------------------------------------
  // Lifetime
  // ---------------------------------------------------------------------------------------------

  predicate Offers(l: Listing) { !l.failed && l.ttl > 0 }

  lemma {:induction false} ShortestIsLeast(ls: seq<Listing>)
    ensures Shortest(ls) == 0 <==> forall l :: l in ls ==> !Offers(l)
    ensures Shortest(ls) >= 0 && forall l :: l in ls && Offers(l) ==> Shortest(ls) <= l.ttl
    ensures Shortest(ls) > 0 ==> exists l :: l in ls && Offers(l) && l.ttl == Shortest(ls)
  {
    if ls != [] {
      var front, last := ls[..|ls| - 1], ls[|ls| - 1];
      ShortestIsLeast(front);
      assert forall l :: l in ls <==> l in front || l == last;
    }
  }

  lemma {:induction false} UnavailableExactly(ls: seq<Listing>)
    ensures forall b :: b in Unavailable(ls) <==> exists l :: l in ls && l.failed && l.backend == b
  {
    if ls != [] {
      UnavailableExactly(ls[..|ls| - 1]);
      assert forall l :: l in ls <==> l in ls[..|ls| - 1] || l == ls[|ls| - 1];
    }
  }

  /** Five seconds if some backend did not answer, otherwise the least positive offer, or zero if there was none. */
  predicate RightLifetime(ls: seq<Listing>, ttl: int) {
    if exists l :: l in ls && l.failed then ttl == 5000
    else if forall l :: l in ls ==> l.ttl <= 0 then ttl == 0
    else (exists l :: l in ls && l.ttl == ttl > 0) && forall l :: l in ls && l.ttl > 0 ==> ttl <= l.ttl
  }

  lemma LifetimeOf(ls: seq<Listing>)
    ensures RightLifetime(ls, if Unavailable(ls) != [] then DEGRADED_TTL_MS else Shortest(ls))
  {
    ShortestIsLeast(ls);
    UnavailableExactly(ls);
    hide Shortest, Unavailable;
    var away := Unavailable(ls);
    if away != [] {
      assert away[0] in away;
    } else {
      forall l | l in ls ensures !l.failed {
        assert l.backend !in away;
      }
    }
  }

  /** The backend of a listing that was not answered. */
  function AwayOf(l: Listing): multiset<Bytes> { if l.failed then multiset{l.backend} else multiset{} }

  lemma {:induction false} UnavailableCounted(ls: seq<Listing>)
    ensures multiset(Unavailable(ls)) == Gather(ls, AwayOf)
  {
    if ls != [] {
      UnavailableCounted(ls[..|ls| - 1]);
    }
  }

  lemma {:induction false} UnavailableInOrder(ls: seq<Listing>)
    requires Sorted(ls, ByBackend)
    ensures Sorted(Unavailable(ls), AtMost)
  {
    if ls != [] {
      var front, last := ls[..|ls| - 1], ls[|ls| - 1];
      UnavailableInOrder(front);
      UnavailableExactly(front);
      forall b | b in Unavailable(front) ensures AtMost(b, last.backend) {
        var l :| l in front && l.failed && l.backend == b;
        var i :| 0 <= i < |front| && front[i] == l;
        assert ByBackend(ls[i], last);
      }
    }
  }

  /**
   The lifetime is the right one; each listing that was not answered has its backend named once, no other is named,
   and the names come in order.
   */
  lemma LifetimeIsLeastOffer(listings: seq<Listing>)
    requires Assembled(listings).Ok?
    ensures RightLifetime(listings, Assembled(listings).value.ttl)
    ensures forall b :: b in Assembled(listings).value.unavailable <==> exists l :: l in listings && l.failed && l.backend == b
    ensures multiset(Assembled(listings).value.unavailable) == Gather(listings, AwayOf)
    ensures Sorted(Assembled(listings).value.unavailable, AtMost)
  {
    var ls := Ordered(listings);
    OrdersListings();
    SortSorts(listings, ByBackend);
    SameElements(ls, listings);
    LifetimeOf(ls);
    UnavailableExactly(ls);
    UnavailableCounted(ls);
    UnavailableInOrder(ls);
    GatherIgnoresOrder(ls, listings, AwayOf);
    hide Ordered, Claims, Scan, Published, Shortest, Unavailable, Orders, Sorted, Gather;
    assert RightLifetime(listings, Assembled(listings).value.ttl) by {
      SameLifetimeRight(ls, listings, Assembled(listings).value.ttl);
    }
  }

  /** Failed backends are named as they were configured exactly if that is in order of identifier. */
  lemma ConfigurationOrderExactly(listings: seq<Listing>)
    requires Assembled(listings).Ok?
    ensures Assembled(listings).value.unavailable == Unavailable(listings) <==> Sorted(Unavailable(listings), AtMost)
  {
    var named, configured := Assembled(listings).value.unavailable, Unavailable(listings);
    LifetimeIsLeastOffer(listings);
    UnavailableCounted(listings);
    OrdersBytes(named);
    hide Assembled, Unavailable, Gather, Sorted, Orders, Distinguishes;
    if Sorted(configured, AtMost) {
      SortedIsUnique(named, configured, AtMost);
    }
  }

  lemma TwoAway(l: Listing, m: Listing)
    requires l.failed && m.failed
    ensures Unavailable([l, m]) == [l.backend, m.backend]
    ensures Gather([l, m], ListingKeys) == multiset{}
  {
    var one, two := [l], [l, m];
    assert two[..1] == one && one[..0] == [];
    assert Unavailable(one) == [l.backend] && Gather(one, ListingKeys) == multiset{};
    assert Unavailable(two) == Unavailable(one) + [m.backend];
  }

  /** Two backends that are away are named in order, however they were configured. */
  lemma TwoNamedInOrder(l: Listing, m: Listing)
    requires l.failed && m.failed && AtMost(m.backend, l.backend)
    ensures Assembled([l, m]).Ok? && Assembled([l, m]).value.unavailable == [m.backend, l.backend]
  {
    hide Assembled, Gather, Unavailable, Fits, AtMost, Sorted, Orders, Distinguishes;
    TwoAway(l, m);
    NothingFits();
    SucceedsExactly([l, m]);
    LifetimeIsLeastOffer([l, m]);
    UnavailableCounted([l, m]);
    var named := Assembled([l, m]).value.unavailable;
    TwoInOrder(m.backend, l.backend);
    OrdersBytes(named);
    SortedIsUnique(named, [m.backend, l.backend], AtMost);
  }

  lemma NothingFits()
    ensures Fits(multiset{})
  {
  }

  lemma TwoInOrder(a: Bytes, b: Bytes)
    requires AtMost(a, b)
    ensures Sorted([a, b], AtMost) && multiset([a, b]) == multiset([b, a])
  {
    hide AtMost;
  }

  /** Configured as `b` and `a`, and both away, they are named the other way round. */
  lemma NamedTheOtherWayRound()
    ensures var listings := [Listing("b", [], [], [], [], 0, true), Listing("a", [], [], [], [], 0, true)];
            && Unavailable(listings) == ["b", "a"]
            && Assembled(listings).Ok? && Assembled(listings).value.unavailable == ["a", "b"]
  {
    var l, m := Listing("b", [], [], [], [], 0, true), Listing("a", [], [], [], [], 0, true);
    TwoAway(l, m);
    TwoNamedInOrder(l, m);
  }

  lemma SameLifetimeRight(a: seq<Listing>, b: seq<Listing>, ttl: int)
    requires RightLifetime(a, ttl) && forall l :: l in a <==> l in b
    ensures RightLifetime(b, ttl)
  {
  }

  // ---------------------------------------------------------------------------------------------
  // Listed names and URIs lead back
  // ---------------------------------------------------------------------------------------------

  /** Each listed entry was offered by one of the backends. */
  lemma ListedIsOffered(listings: seq<Listing>, kind: Kind, i: nat)
    requires Assembled(listings).Ok? && i < |Assembled(listings).value.Of(kind)|
    ensures i < |Sources(Ordered(listings), kind)|
    ensures var source := Sources(Ordered(listings), kind)[i];
            && Assembled(listings).value.Of(kind)[i] == Publish(kind, source.0, source.1)
            && exists l :: l in listings && l.backend == source.0
  {
    var ls := Ordered(listings);
    OrdersListings();
    SortSorts(listings, ByBackend);
    SameElements(ls, listings);
    PublishedSources(ls, kind);
    SourcesFrom(ls, kind);
    hide Ordered, Claims, Scan, Sources, Published, Publish, Shows, Orders, Sorted;
    var source := Sources(ls, kind)[i];
    assert source in Sources(ls, kind);
    PublishKeeps(kind, source.0, source.1);
    ShowsOne(kind, source.0, source.1, Published(ls, kind)[i], Publish(kind, source.0, source.1));
  }

  /**
   If the identifiers are prefix-free with their separator, every listed tool, prompt and template with a
   name of its own routes back to the backend that offered it, under the name it has there.
   */
  lemma ListedNamesRouteBack(listings: seq<Listing>, ids: seq<Bytes>, kind: Kind, i: nat)
    requires Assembled(listings).Ok? && Names.PrefixFree(ids) && forall l :: l in listings ==> l.backend in ids
    requires i < |Assembled(listings).value.Of(kind)|
    ensures i < |Sources(Ordered(listings), kind)|
    ensures var (backend, e) := Sources(Ordered(listings), kind)[i];
            e.name != [] ==>
              Names.FirstOwner(Names.NewRouter(ids), Assembled(listings).value.Of(kind)[i].name) == Some((backend, e.name))
  {
    ListedIsOffered(listings, kind, i);
    Names.AllNamesRouteBack(ids);
    hide Assembled, Ordered, Sources, Names.PrefixFree;
    var source := Sources(Ordered(listings), kind)[i];
    if source.1.name != [] {
      assert Names.RoutesBack(ids, source.0, source.1.name);
    }
  }

  /**
   A listed resource unwraps to the backend that offered it and the URI it has there exactly if that is not empty
   and the backend's identifier is fit to be a host.
   */
  lemma ListedResourcesUnwrap(listings: seq<Listing>, i: nat)
    requires Assembled(listings).Ok? && i < |Assembled(listings).value.resources|
    ensures i < |Sources(Ordered(listings), Resource)|
    ensures var (backend, e) := Sources(Ordered(listings), Resource)[i];
            Uris.UnwrapURI(Assembled(listings).value.resources[i].uri) == Some((backend, e.uri))
            <==> Uris.Hostly(backend) && e.uri != []
  {
    ListedIsOffered(listings, Resource, i);
    hide Assembled, Ordered, Sources, Uris.Hostly, Uris.UnwrapURI, Uris.WrapURI;
    var source := Sources(Ordered(listings), Resource)[i];
    Uris.UnwrapWrap(source.0, source.1.uri);
  }

  /**
   An expansion of a listed template unwraps to the backend that offered it and its own template with the raw
   values, exactly if there is something to recover and the backend's identifier is a host once expanded.
   */
  lemma ListedTemplatesExpand(listings: seq<Listing>, i: nat, env: UriTemplates.Values)
    requires Assembled(listings).Ok? && i < |Assembled(listings).value.templates|
    ensures i < |Sources(Ordered(listings), Template)|
    ensures var (backend, e) := Sources(Ordered(listings), Template)[i];
            var raw := UriTemplates.Raw(e.uri, env);
            var unwrapped := Uris.UnwrapURI(UriTemplates.Expand(Assembled(listings).value.templates[i].uri, env));
            && (unwrapped == Some((backend, raw)) <==> UriExpansions.HostlyExpanded(backend) && raw != [])
            && (unwrapped.Some? && unwrapped.value.0 == backend ==> unwrapped.value.1 == raw)
  {
    ListedIsOffered(listings, Template, i);
    hide Assembled, Ordered, Sources, Uris.Hostly, Uris.UnwrapURI, Uris.Base;
    hide UriTemplates.Expand, UriTemplates.Raw, UriTemplates.WrapBody, UriExpansions.HostlyExpanded;
    var source := Sources(Ordered(listings), Template)[i];
    UriExpansions.UnwrapExpansion(source.0, source.1.uri, env);
  }
}
