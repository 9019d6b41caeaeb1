/** What an assembled surface promises, whatever order the backends and their entries were listed in. */
module SurfaceLaws {
  import opened Prelude
  import opened Text
  import opened Sorting
  import opened Surfaces
  import Names
  import Uris
  import UriTemplates

  // ---------------------------------------------------------------------------------------------
  // When assembly succeeds
  // ---------------------------------------------------------------------------------------------

  type Key = (Kind, Bytes)

  function Keys(claims: seq<Claim>): multiset<Key> {
    if claims == [] then multiset{}
    else Keys(claims[..|claims| - 1]) + multiset{(claims[|claims| - 1].kind, claims[|claims| - 1].name)}
  }

  /** Every name is at most 128 bytes long and claimed once in its kind. */
  predicate Fits(keys: multiset<Key>) {
    forall k :: k in keys ==> |k.1| <= 128 && keys[k] == 1
  }

  /** The claims are all settled exactly when their names fit, and then each name has an owner. */
  lemma {:induction false} ScanSucceeds(claims: seq<Claim>)
    ensures Scan(map[], claims).Ok? <==> Fits(Keys(claims))
    ensures Scan(map[], claims).Ok? ==> forall k :: k in Scan(map[], claims).value <==> k in Keys(claims)
  {
    if claims != [] {
      var front, last := claims[..|claims| - 1], claims[|claims| - 1];
      ScanSucceeds(front);
      FitsFurther(Keys(front), (last.kind, last.name));
      hide Fits;
    }
  }

  /** The claims before the one at `k` all fit; that one is too long, or its name was claimed before it in its kind by the backend named. */
  predicate Refuses(claims: seq<Claim>, k: nat, r: Refusal) {
    && k < |claims| && claims[k] == r.claim && Fits(Keys(claims[..k]))
    && match r
       case TooLong(c) => |c.name| > 128
       case Collision(c, first) => exists j :: 0 <= j < k && claims[j] == Claim(c.kind, c.name, first)
  }

  lemma RefusesFurther(claims: seq<Claim>, n: nat, k: nat, r: Refusal)
    requires n <= |claims| && Refuses(claims[..n], k, r)
    ensures Refuses(claims, k, r)
  {
    hide Fits;
    var front := claims[..n];
    assert front[..k] == claims[..k];
    if r.Collision? {
      var j :| 0 <= j < k && front[j] == Claim(r.claim.kind, r.claim.name, r.first);
      assert claims[j] == front[j];
    }
  }

  lemma LastRefused(claims: seq<Claim>)
    requires claims != [] && Scan(map[], claims[..|claims| - 1]).Ok? && Scan(map[], claims).Err?
    ensures Refuses(claims, |claims| - 1, Scan(map[], claims).error)
  {
    var front, c := claims[..|claims| - 1], claims[|claims| - 1];
    ScanSucceeds(front);
    OwnersClaimed(front);
    hide Fits, Keys;
    if |c.name| <= 128 {
      var owner := Scan(map[], front).value[(c.kind, c.name)];
      var j :| 0 <= j < |front| && front[j] == Claim(c.kind, c.name, owner);
      assert claims[j] == front[j];
    }
  }

  /** A refusal is of the first claim that cannot be settled, for the reason it gives. */
  lemma {:induction false} RefusalIsFirst(claims: seq<Claim>)
    requires Scan(map[], claims).Err?
    ensures exists k :: Refuses(claims, k, Scan(map[], claims).error)
  {
    hide Refuses, Settle;
    var n := |claims| - 1;
    var front := claims[..n];
    if Scan(map[], front).Err? {
      RefusalIsFirst(front);
      var k :| Refuses(front, k, Scan(map[], front).error);
      RefusesFurther(claims, n, k, Scan(map[], front).error);
    } else {
      LastRefused(claims);
    }
  }

  /** Each owner claimed its name. */
  lemma {:induction false} OwnersClaimed(claims: seq<Claim>)
    requires Scan(map[], claims).Ok?
    ensures forall key :: key in Scan(map[], claims).value ==>
              exists j :: 0 <= j < |claims| && claims[j] == Claim(key.0, key.1, Scan(map[], claims).value[key])
  {
    if claims != [] {
      var front := claims[..|claims| - 1];
      OwnersClaimed(front);
      var before, owners := Scan(map[], front).value, Scan(map[], claims).value;
      forall key | key in owners ensures exists j :: 0 <= j < |claims| && claims[j] == Claim(key.0, key.1, owners[key]) {
        if key in before {
          var j :| 0 <= j < |front| && front[j] == Claim(key.0, key.1, before[key]);
          assert claims[j] == front[j];
        } else {
          assert claims[|front|] == Claim(key.0, key.1, owners[key]);
        }
      }
    }
  }

  lemma FitsFurther(keys: multiset<Key>, k: Key)
    ensures Fits(keys + multiset{k}) <==> Fits(keys) && k !in keys && |k.1| <= 128
  {
    var more := keys + multiset{k};
    assert more[k] == keys[k] + 1;
    assert forall j :: j != k ==> more[j] == keys[j];
    if Fits(more) {
      assert k in more;
      assert forall j :: j in keys ==> j in more;
    }
  }

  lemma {:induction false} KeysConcat(a: seq<Claim>, b: seq<Claim>)
    ensures Keys(a + b) == Keys(a) + Keys(b)
  {
    if b == [] {
      assert a + b == a;
    } else {
      var c, last := b[..|b| - 1], b[|b| - 1];
      KeysConcat(a, c);
      assert (a + b)[..|a + b| - 1] == a + c && (a + b)[|a + b| - 1] == last;
      assert Keys(a + b) == Keys(a + c) + multiset{(last.kind, last.name)};
    }
  }

  /** The name an entry claims. */
  function KeyOf(kind: Kind, backend: Bytes): Item -> multiset<Key> {
    (e: Item) => multiset{(kind, Names.Qualify(backend, e.name))}
  }

  /** The names a listing claims, in no order. */
  function ListingKeys(l: Listing): multiset<Key> {
    if l.failed then multiset{}
    else Gather(l.tools, KeyOf(Tool, l.backend)) + Gather(l.prompts, KeyOf(Prompt, l.backend))
         + Gather(l.templates, KeyOf(Template, l.backend))
  }

  lemma {:induction false} EntryKeys(kind: Kind, backend: Bytes, entries: seq<Item>)
    ensures Keys(ClaimsOf(kind, backend, entries)) == Gather(entries, KeyOf(kind, backend))
  {
    if entries != [] {
      var n := |entries| - 1;
      EntryKeys(kind, backend, entries[..n]);
      assert ClaimsOf(kind, backend, entries)[..n] == ClaimsOf(kind, backend, entries[..n]);
    }
  }

  lemma OrdersListings()
    ensures Orders(ByBackend)
  {
    forall a: Listing, b: Listing ensures ByBackend(a, b) || ByBackend(b, a) {
      AtMostIsTotal(a.backend, b.backend);
    }
    forall a: Listing, b: Listing, c: Listing | ByBackend(a, b) && ByBackend(b, c) ensures ByBackend(a, c) {
      AtMostIsTransitive(a.backend, b.backend, c.backend);
    }
  }

  lemma OrdersNames()
    ensures Orders(ByName)
  {
    forall a: Item, b: Item ensures ByName(a, b) || ByName(b, a) {
      AtMostIsTotal(a.name, b.name);
    }
    forall a: Item, b: Item, c: Item | ByName(a, b) && ByName(b, c) ensures ByName(a, c) {
      AtMostIsTransitive(a.name, b.name, c.name);
    }
  }

  lemma OrdersUris()
    ensures Orders(ByUri)
  {
    forall a: Item, b: Item ensures ByUri(a, b) || ByUri(b, a) {
      AtMostIsTotal(a.uri, b.uri);
    }
    forall a: Item, b: Item, c: Item | ByUri(a, b) && ByUri(b, c) ensures ByUri(a, c) {
      AtMostIsTransitive(a.uri, b.uri, c.uri);
    }
  }

  /** What entries of a kind are ordered by. */
  function SortKey(kind: Kind, e: Item): Bytes {
    if kind == Resource then e.uri else e.name
  }

  lemma InOrderSorts(kind: Kind, entries: seq<Item>)
    ensures multiset(InOrder(kind, entries)) == multiset(entries)
    ensures forall i, j :: 0 <= i < j < |InOrder(kind, entries)| ==>
              AtMost(SortKey(kind, InOrder(kind, entries)[i]), SortKey(kind, InOrder(kind, entries)[j]))
  {
    var s := InOrder(kind, entries);
    if kind == Resource {
      OrdersUris();
      SortSorts(entries, ByUri);
      assert forall i, j :: 0 <= i < j < |s| ==> ByUri(s[i], s[j]);
    } else {
      OrdersNames();
      SortSorts(entries, ByName);
      assert forall i, j :: 0 <= i < j < |s| ==> ByName(s[i], s[j]);
    }
  }

  lemma ListingClaimsKeys(l: Listing)
    ensures Keys(ListingClaims(l)) == ListingKeys(l)
  {
    hide InOrder, KeyOf;
    var a, b, c := InOrder(Tool, l.tools), InOrder(Prompt, l.prompts), InOrder(Template, l.templates);
    InOrderSorts(Tool, l.tools);
    InOrderSorts(Prompt, l.prompts);
    InOrderSorts(Template, l.templates);
    EntryKeys(Tool, l.backend, a);
    EntryKeys(Prompt, l.backend, b);
    EntryKeys(Template, l.backend, c);
    GatherIgnoresOrder(a, l.tools, KeyOf(Tool, l.backend));
    GatherIgnoresOrder(b, l.prompts, KeyOf(Prompt, l.backend));
    GatherIgnoresOrder(c, l.templates, KeyOf(Template, l.backend));
    KeysConcat(ClaimsOf(Tool, l.backend, a), ClaimsOf(Prompt, l.backend, b));
    KeysConcat(ClaimsOf(Tool, l.backend, a) + ClaimsOf(Prompt, l.backend, b), ClaimsOf(Template, l.backend, c));
  }

  lemma {:induction false} ClaimsKeys(ls: seq<Listing>)
    ensures Keys(Claims(ls)) == Gather(ls, ListingKeys)
  {
    if ls != [] {
      hide ListingClaims, ListingKeys;
      var n := |ls| - 1;
      ClaimsKeys(ls[..n]);
      ListingClaimsKeys(ls[n]);
      KeysConcat(Claims(ls[..n]), ListingClaims(ls[n]));
    }
  }

  lemma OrderedKeys(listings: seq<Listing>)
    ensures Keys(Claims(Ordered(listings))) == Gather(listings, ListingKeys)
  {
    OrdersListings();
    SortSorts(listings, ByBackend);
    ClaimsKeys(Ordered(listings));
    GatherIgnoresOrder(Ordered(listings), listings, ListingKeys);
  }

  /**
   Assembly succeeds exactly when the gateway names of the tools, prompts and templates of the backends
   that answered all fit and are distinct within their kind. Resources are not checked.
   */
  lemma SucceedsExactly(listings: seq<Listing>)
    ensures Assembled(listings).Ok? <==> Fits(Gather(listings, ListingKeys))
  {
    OrderedKeys(listings);
    ScanSucceeds(Claims(Ordered(listings)));
    hide Fits, Keys, Gather, Ordered;
  }

  // ---------------------------------------------------------------------------------------------
  // What it publishes
  // ---------------------------------------------------------------------------------------------

  /** An entry as a backend offered it. */
  type Source = (Bytes, Item)

  function Tag(backend: Bytes, entries: seq<Item>): (r: seq<Source>)
    ensures |r| == |entries| && forall i :: 0 <= i < |r| ==> r[i] == (backend, entries[i])
  {
    seq(|entries|, i requires 0 <= i < |entries| => (backend, entries[i]))
  }

  /** Where each published entry came from. */
  function Sources(ls: seq<Listing>, kind: Kind): seq<Source> {
    if ls == [] then []
    else
      var l := ls[|ls| - 1];
      Sources(ls[..|ls| - 1], kind) + (if l.failed then [] else Tag(l.backend, InOrder(kind, l.Of(kind))))
  }

  /** Every entry a listing that answered offers, in no order. */
  function Offered(kind: Kind): Listing -> multiset<Source> {
    (l: Listing) => if l.failed then multiset{} else Gather(l.Of(kind), Tagged(l.backend))
  }

  function Tagged(backend: Bytes): Item -> multiset<Source> { (e: Item) => multiset{(backend, e)} }

  predicate Comes(kind: Kind, a: Source, b: Source) {
    AtMost(a.0, b.0) && (a.0 == b.0 ==> AtMost(SortKey(kind, a.1), SortKey(kind, b.1)))
  }

  predicate DistinctBackends(ls: seq<Listing>) {
    forall i, j :: 0 <= i < j < |ls| ==> ls[i].backend != ls[j].backend
  }

  /**
   The entry `p` is what clients see of `e`: its name behind the backend's identifier and two underscores, a resource's
   URI and a template's behind the gateway's scheme and the backend, and everything else as it was.
   */
  predicate Shows(kind: Kind, backend: Bytes, e: Item, p: Item) {
    && p.name == backend + "__" + e.name && p.body == e.body
    && match kind
       case Tool => p.uri == e.uri
       case Prompt => p.uri == e.uri
       case Template => p.uri == "mcp-proxy://" + backend + "/" + UriTemplates.WrapBody(e.uri)
       case Resource => p.uri == "mcp-proxy://" + backend + "/" + Uris.Escape(e.uri)
  }

  /** `published` is `sources` under gateway names and URIs. */
  predicate Publishes(kind: Kind, sources: seq<Source>, published: seq<Item>) {
    |published| == |sources| && forall i :: 0 <= i < |sources| ==> Shows(kind, sources[i].0, sources[i].1, published[i])
  }

  /** Publishing an entry changes its name and, for templates and resources, its URI, and nothing else. */
  lemma PublishKeeps(kind: Kind, backend: Bytes, e: Item)
    ensures Shows(kind, backend, e, Publish(kind, backend, e))
  {
    hide UriTemplates.WrapBody, Uris.Escape;
    assert "mcp-proxy://" + backend + "/" == Uris.Base(backend);
  }

  /** Nothing but what is published shows an entry. */
  lemma ShowsOne(kind: Kind, backend: Bytes, e: Item, p: Item, q: Item)
    requires Shows(kind, backend, e, p) && Shows(kind, backend, e, q)
    ensures p == q
  {
    hide UriTemplates.WrapBody, Uris.Escape;
  }

  lemma PublishesBoth(kind: Kind, a: seq<Source>, p: seq<Item>, b: seq<Source>, q: seq<Item>)
    requires Publishes(kind, a, p) && Publishes(kind, b, q)
    ensures Publishes(kind, a + b, p + q)
  {
    hide Shows;
  }

  lemma PublishesTagged(kind: Kind, backend: Bytes, entries: seq<Item>)
    ensures Publishes(kind, Tag(backend, entries), PublishAll(kind, backend, entries))
  {
    hide Publish, Shows;
    forall i | 0 <= i < |entries| ensures Shows(kind, backend, entries[i], Publish(kind, backend, entries[i])) {
      PublishKeeps(kind, backend, entries[i]);
    }
  }

  lemma {:induction false} PublishedSources(ls: seq<Listing>, kind: Kind)
    ensures Publishes(kind, Sources(ls, kind), Published(ls, kind))
  {
    hide InOrder, Shows, Tag, PublishAll;
    if ls != [] {
      var front, l := ls[..|ls| - 1], ls[|ls| - 1];
      PublishedSources(front, kind);
      if !l.failed {
        var entries := InOrder(kind, l.Of(kind));
        PublishesTagged(kind, l.backend, entries);
        PublishesBoth(kind, Sources(front, kind), Published(front, kind), Tag(l.backend, entries), PublishAll(kind, l.backend, entries));
      }
    }
  }

  lemma {:induction false} TaggedKeys(backend: Bytes, entries: seq<Item>)
    ensures multiset(Tag(backend, entries)) == Gather(entries, Tagged(backend))
  {
    if entries != [] {
      var n := |entries| - 1;
      TaggedKeys(backend, entries[..n]);
      assert Tag(backend, entries) == Tag(backend, entries[..n]) + [(backend, entries[n])];
    }
  }

  lemma {:induction false} SourcesExact(ls: seq<Listing>, kind: Kind)
    ensures multiset(Sources(ls, kind)) == Gather(ls, Offered(kind))
  {
    if ls != [] {
      var l := ls[|ls| - 1];
      SourcesExact(ls[..|ls| - 1], kind);
      InOrderSorts(kind, l.Of(kind));
      TaggedKeys(l.backend, InOrder(kind, l.Of(kind)));
      GatherIgnoresOrder(InOrder(kind, l.Of(kind)), l.Of(kind), Tagged(l.backend));
      hide InOrder, Tagged;
    }
  }

  lemma {:induction false} SourcesFrom(ls: seq<Listing>, kind: Kind)
    ensures forall s :: s in Sources(ls, kind) ==> exists l :: l in ls && l.backend == s.0
  {
    if ls != [] {
      var front, l := ls[..|ls| - 1], ls[|ls| - 1];
      SourcesFrom(front, kind);
      forall s | s in Sources(ls, kind) ensures exists l :: l in ls && l.backend == s.0 {
        if s in Sources(front, kind) {
          var m :| m in front && m.backend == s.0;
          assert m in ls;
        } else {
          assert l in ls && l.backend == s.0;
        }
      }
    }
  }

  lemma {:induction false} SourcesOrdered(ls: seq<Listing>, kind: Kind)
    requires Sorted(ls, ByBackend) && DistinctBackends(ls)
    ensures forall i, j :: 0 <= i < j < |Sources(ls, kind)| ==> Comes(kind, Sources(ls, kind)[i], Sources(ls, kind)[j])
  {
    if ls != [] {
      var front, l := ls[..|ls| - 1], ls[|ls| - 1];
      SourcesOrdered(front, kind);
      SourcesFrom(front, kind);
      InOrderSorts(kind, l.Of(kind));
      LastBackend(ls);
      hide InOrder, Sorted, DistinctBackends;
      var last := Tag(l.backend, InOrder(kind, l.Of(kind)));
      forall a, b | a in Sources(front, kind) && b in last ensures Comes(kind, a, b) {
        var m :| m in front && m.backend == a.0;
      }
      LastOrdered(kind, l.backend, InOrder(kind, l.Of(kind)));
    }
  }

  lemma LastOrdered(kind: Kind, backend: Bytes, entries: seq<Item>)
    requires forall i, j :: 0 <= i < j < |entries| ==> AtMost(SortKey(kind, entries[i]), SortKey(kind, entries[j]))
    ensures var last := Tag(backend, entries); forall i, j :: 0 <= i < j < |last| ==> Comes(kind, last[i], last[j])
  {
    AtMostIsTotal(backend, backend);
  }

  lemma LastBackend(ls: seq<Listing>)
    requires Sorted(ls, ByBackend) && DistinctBackends(ls) && ls != []
    ensures forall m :: m in ls[..|ls| - 1] ==> AtMost(m.backend, ls[|ls| - 1].backend) && m.backend != ls[|ls| - 1].backend
  {
    forall m | m in ls[..|ls| - 1] ensures AtMost(m.backend, ls[|ls| - 1].backend) && m.backend != ls[|ls| - 1].backend {
      var i :| 0 <= i < |ls| - 1 && ls[i] == m;
      assert ByBackend(ls[i], ls[|ls| - 1]);
    }
  }

  lemma OrderedKeepsDistinct(listings: seq<Listing>)
    requires DistinctBackends(listings)
    ensures Sorted(Ordered(listings), ByBackend) && multiset(Ordered(listings)) == multiset(listings)
    ensures DistinctBackends(Ordered(listings))
  {
    OrdersListings();
    SortSorts(listings, ByBackend);
    DistinctByCount(listings);
    GatherIgnoresOrder(Ordered(listings), listings, BackendOf);
    DistinctByCount(Ordered(listings));
  }

  function BackendOf(l: Listing): multiset<Bytes> { multiset{l.backend} }

  lemma {:induction false} BackendsGathered(ls: seq<Listing>)
    ensures forall b :: b in Gather(ls, BackendOf) <==> exists l :: l in ls && l.backend == b
  {
    if ls != [] {
      BackendsGathered(ls[..|ls| - 1]);
      assert forall m :: m in ls <==> m in ls[..|ls| - 1] || m == ls[|ls| - 1];
    }
  }

  lemma OneMoreDistinct(ls: seq<Listing>)
    requires ls != []
    ensures DistinctBackends(ls) <==>
            DistinctBackends(ls[..|ls| - 1]) && forall m :: m in ls[..|ls| - 1] ==> m.backend != ls[|ls| - 1].backend
  {
    var front, l := ls[..|ls| - 1], ls[|ls| - 1];
    if DistinctBackends(front) && forall m :: m in front ==> m.backend != l.backend {
      assert forall i :: 0 <= i < |front| ==> front[i] == ls[i] && front[i] in front;
    }
  }

  lemma {:induction false} DistinctByCount(ls: seq<Listing>)
    ensures DistinctBackends(ls) <==> Once(Gather(ls, BackendOf))
  {
    if ls != [] {
      var front, l := ls[..|ls| - 1], ls[|ls| - 1];
      DistinctByCount(front);
      OneMoreDistinct(ls);
      BackendsGathered(front);
      OnceMore(Gather(front, BackendOf), l.backend);
      hide DistinctBackends, Once;
    }
  }

  /**
   Given distinct backends, what is published is exactly what the backends that answered offered, each
   entry under its gateway name and URI, ordered by backend and then by its original name, or URI for a resource.
   */
  lemma PublishedExactly(listings: seq<Listing>, kind: Kind)
    requires DistinctBackends(listings) && Assembled(listings).Ok?
    ensures var s, sources := Assembled(listings).value.Of(kind), Sources(Ordered(listings), kind);
            && multiset(sources) == Gather(listings, Offered(kind))
            && Publishes(kind, sources, s)
            && (forall i, j :: 0 <= i < j < |s| ==> Comes(kind, sources[i], sources[j]))
  {
    var ls := Ordered(listings);
    OrderedKeepsDistinct(listings);
    PublishedSources(ls, kind);
    SourcesOrdered(ls, kind);
    SourcesExact(ls, kind);
    hide Ordered, Sources, Published, Shows;
    GatherIgnoresOrder(ls, listings, Offered(kind));
  }
}
