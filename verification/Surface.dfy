/** The surface one client sees, assembled from what each backend listed. */
module Surfaces {
  import opened Prelude
  import opened Text
  import Sorting
  import Names
  import Uris
  import UriTemplates

  const DEGRADED_TTL_MS := 5000

  datatype Kind = Tool | Prompt | Template | Resource

  /** A tool, prompt, resource or resource template; `uri` is the template's text for the last, and `body` is carried along. */
  datatype Item = Item(name: Bytes, uri: Bytes, body: nat)

  datatype Listing = Listing(backend: Bytes, tools: seq<Item>, prompts: seq<Item>, templates: seq<Item>,
                             resources: seq<Item>, ttl: int, failed: bool)
  {
    function Of(kind: Kind): seq<Item> {
      match kind case Tool => tools case Prompt => prompts case Template => templates case Resource => resources
    }
  }

  datatype Surface = Surface(tools: seq<Item>, prompts: seq<Item>, templates: seq<Item>,
                             resources: seq<Item>, ttl: int, unavailable: seq<Bytes>)
  {
    function Of(kind: Kind): seq<Item> {
      match kind case Tool => tools case Prompt => prompts case Template => templates case Resource => resources
    }
  }

  datatype Claim = Claim(kind: Kind, name: Bytes, backend: Bytes)

  datatype Refusal = TooLong(claim: Claim) | Collision(claim: Claim, first: Bytes)

  /** Which backend produced each name, per kind. */
  type Owners = map<(Kind, Bytes), Bytes>

  // ---------------------------------------------------------------------------------------------
  // Order
  // ---------------------------------------------------------------------------------------------

  predicate ByBackend(a: Listing, b: Listing) { AtMost(a.backend, b.backend) }
  predicate ByName(a: Item, b: Item) { AtMost(a.name, b.name) }
  predicate ByUri(a: Item, b: Item) { AtMost(a.uri, b.uri) }

  function InOrder(kind: Kind, entries: seq<Item>): seq<Item> {
    if kind == Resource then Sorting.Sort(entries, ByUri) else Sorting.Sort(entries, ByName)
  }

  function Ordered(listings: seq<Listing>): seq<Listing> { Sorting.Sort(listings, ByBackend) }

  // ---------------------------------------------------------------------------------------------
  // Claims: the names a listing would publish, in the order they are published
  // ---------------------------------------------------------------------------------------------

  function ClaimsOf(kind: Kind, backend: Bytes, entries: seq<Item>): (claims: seq<Claim>)
    ensures |claims| == |entries|
    ensures forall i :: 0 <= i < |entries| ==> claims[i] == Claim(kind, Names.Qualify(backend, entries[i].name), backend)
  {
    seq(|entries|, i requires 0 <= i < |entries| => Claim(kind, Names.Qualify(backend, entries[i].name), backend))
  }

  function ListingClaims(l: Listing): seq<Claim> {
    if l.failed then []
    else
      ClaimsOf(Tool, l.backend, InOrder(Tool, l.tools))
      + ClaimsOf(Prompt, l.backend, InOrder(Prompt, l.prompts))
      + ClaimsOf(Template, l.backend, InOrder(Template, l.templates))
  }

  function Claims(ls: seq<Listing>): seq<Claim> {
    if ls == [] then [] else Claims(ls[..|ls| - 1]) + ListingClaims(ls[|ls| - 1])
  }

  /** One name is claimed: it must fit and be free. */
  function Settle(owners: Owners, c: Claim): Result<Owners, Refusal> {
    if |c.name| > Names.MAX_NAME_BYTES then Err(TooLong(c))
    else if (c.kind, c.name) in owners then Err(Collision(c, owners[(c.kind, c.name)]))
    else Ok(owners[(c.kind, c.name) := c.backend])
  }

  /** The claims are settled one by one, up to the first refusal. */
  function Scan(owners: Owners, claims: seq<Claim>): Result<Owners, Refusal> {
    if claims == [] then Ok(owners)
    else match Scan(owners, claims[..|claims| - 1])
      case Err(refusal) => Err(refusal)
      case Ok(settled) => Settle(settled, claims[|claims| - 1])
  }

  // ---------------------------------------------------------------------------------------------
  // What is published
  // ---------------------------------------------------------------------------------------------

  /** An entry under its gateway name and, where it has one, its gateway URI. */
  function Publish(kind: Kind, backend: Bytes, e: Item): Item {
    match kind
    case Tool => e.(name := Names.Qualify(backend, e.name))
    case Prompt => e.(name := Names.Qualify(backend, e.name))
    case Template => e.(name := Names.Qualify(backend, e.name), uri := Uris.Base(backend) + UriTemplates.WrapBody(e.uri))
    case Resource => e.(name := Names.Qualify(backend, e.name), uri := Uris.WrapURI(backend, e.uri))
  }

  function PublishAll(kind: Kind, backend: Bytes, entries: seq<Item>): (r: seq<Item>)
    ensures |r| == |entries| && forall i :: 0 <= i < |entries| ==> r[i] == Publish(kind, backend, entries[i])
  {
    seq(|entries|, i requires 0 <= i < |entries| => Publish(kind, backend, entries[i]))
  }

  /** What the listings that answered publish of one kind. */
  function Published(ls: seq<Listing>, kind: Kind): seq<Item> {
    if ls == [] then []
    else
      var l := ls[|ls| - 1];
      Published(ls[..|ls| - 1], kind) + (if l.failed then [] else PublishAll(kind, l.backend, InOrder(kind, l.Of(kind))))
  }

  function Unavailable(ls: seq<Listing>): seq<Bytes> {
    if ls == [] then []
    else Unavailable(ls[..|ls| - 1]) + (if ls[|ls| - 1].failed then [ls[|ls| - 1].backend] else [])
  }

  /** The shortest lifetime offered so far, zero if none was. */
  function Shorter(ttl: int, l: Listing): int {
    if !l.failed && l.ttl > 0 && (ttl == 0 || l.ttl < ttl) then l.ttl else ttl
  }

  function Shortest(ls: seq<Listing>): int {
    if ls == [] then 0 else Shorter(Shortest(ls[..|ls| - 1]), ls[|ls| - 1])
  }

  function Assembled(listings: seq<Listing>): Result<Surface, Refusal> {
    var ls := Ordered(listings);
    match Scan(map[], Claims(ls))
    case Err(refusal) => Err(refusal)
    case Ok(_) =>
      var away := Unavailable(ls);
      Ok(Surface(Published(ls, Tool), Published(ls, Prompt), Published(ls, Template), Published(ls, Resource),
                 if away != [] then DEGRADED_TTL_MS else Shortest(ls), away))
  }

  // ---------------------------------------------------------------------------------------------
  // The assembly as it runs
  // ---------------------------------------------------------------------------------------------

  lemma {:induction false} ScanConcat(owners: Owners, a: seq<Claim>, b: seq<Claim>)
    ensures Scan(owners, a + b) == match Scan(owners, a) case Err(r) => Err(r) case Ok(settled) => Scan(settled, b)
  {
    if b == [] {
      assert a + b == a;
    } else {
      var n := |b| - 1;
      ScanConcat(owners, a, b[..n]);
      assert (a + b)[..|a + b| - 1] == a + b[..n];
    }
  }

  lemma {:induction false} ClaimsPrefix(ls: seq<Listing>, i: nat)
    requires i <= |ls|
    ensures Claims(ls[..i]) <= Claims(ls)
  {
    if i == |ls| {
      assert ls[..i] == ls;
    } else {
      ClaimsPrefix(ls[..|ls| - 1], i);
      assert ls[..|ls| - 1][..i] == ls[..i];
    }
  }

  /** Nothing follows a refusal. */
  lemma RefusalStands(owners: Owners, some: seq<Claim>, claims: seq<Claim>)
    requires some <= claims && Scan(owners, some).Err?
    ensures Scan(owners, claims) == Scan(owners, some)
  {
    ScanConcat(owners, some, claims[|some|..]);
    assert claims == some + claims[|some|..];
  }

  lemma ScanNothing(owners: Owners)
    ensures Scan(owners, []) == Ok(owners)
  {
  }

  lemma ScanStep(owners: Owners, claims: seq<Claim>, i: nat)
    requires i < |claims|
    ensures Scan(owners, claims[..i + 1])
         == match Scan(owners, claims[..i]) case Err(r) => Err(r) case Ok(settled) => Settle(settled, claims[i])
  {
    assert claims[..i + 1][..i] == claims[..i];
  }

  /** A refusal among the claims of the first listings is the refusal of the whole. */
  lemma RefusedSoFar(ls: seq<Listing>, i: nat, owners: Owners, some: seq<Claim>, refusal: Refusal)
    requires i < |ls| && Scan(map[], Claims(ls[..i])) == Ok(owners)
    requires some <= ListingClaims(ls[i]) && Scan(owners, some) == Err(refusal)
    ensures Scan(map[], Claims(ls)) == Err(refusal)
  {
    hide Scan, ListingClaims;
    var before := Claims(ls[..i]);
    ClaimsPrefix(ls, i + 1);
    ClaimsUpTo(ls, i);
    ScanConcat(map[], before, some);
    RefusalStands(map[], before + some, Claims(ls));
  }

  lemma ClaimsUpTo(ls: seq<Listing>, i: nat)
    requires i < |ls|
    ensures Claims(ls[..i + 1]) == Claims(ls[..i]) + ListingClaims(ls[i])
  {
    assert ls[..i + 1][..i] == ls[..i];
  }

  /** One kind of one listing: every entry's name is claimed and the entry published under it. */
  method ClaimAll(owners: Owners, kind: Kind, backend: Bytes, entries: seq<Item>)
    returns (r: Result<Owners, Refusal>, published: seq<Item>)
    ensures r == Scan(owners, ClaimsOf(kind, backend, entries))
    ensures r.Ok? ==> published == PublishAll(kind, backend, entries)
  {
    var settled := owners;
    published := [];
    hide Scan, Settle, Publish, Names.Qualify;
    ScanNothing(owners);
    ghost var claims := ClaimsOf(kind, backend, entries);
    for i := 0 to |entries|
      invariant Scan(owners, claims[..i]) == Ok(settled)
      invariant published == PublishAll(kind, backend, entries)[..i]
    {
      var claim := Claim(kind, Names.Qualify(backend, entries[i].name), backend);
      var step := Settle(settled, claim);
      ScanStep(owners, claims, i);
      if step.Err? {
        RefusalStands(owners, claims[..i + 1], claims);
        return step, [];
      }
      settled := step.value;
      published := published + [Publish(kind, backend, entries[i])];
    }
    assert claims[..|entries|] == claims;
    r := Ok(settled);
  }

  /** One listing that answered: its tools, prompts and templates are claimed in turn. */
  method ClaimListing(owners: Owners, l: Listing) returns (r: Result<Owners, Refusal>, p: Surface, ghost some: seq<Claim>)
    requires !l.failed
    ensures r.Ok? ==> r == Scan(owners, ListingClaims(l))
    ensures r.Ok? ==> p.tools == PublishAll(Tool, l.backend, InOrder(Tool, l.tools))
    ensures r.Ok? ==> p.prompts == PublishAll(Prompt, l.backend, InOrder(Prompt, l.prompts))
    ensures r.Ok? ==> p.templates == PublishAll(Template, l.backend, InOrder(Template, l.templates))
    ensures r.Err? ==> some <= ListingClaims(l) && Scan(owners, some) == r
  {
    p := Surface([], [], [], [], 0, []);
    var tools, prompts, templates := InOrder(Tool, l.tools), InOrder(Prompt, l.prompts), InOrder(Template, l.templates);
    ghost var toolClaims, promptClaims := ClaimsOf(Tool, l.backend, tools), ClaimsOf(Prompt, l.backend, prompts);
    ghost var templateClaims := ClaimsOf(Template, l.backend, templates);
    hide Scan, InOrder;
    var published: seq<Item>;
    some := toolClaims;
    r, published := ClaimAll(owners, Tool, l.backend, tools);
    if r.Err? {
      return;
    }
    p := p.(tools := published);
    ScanConcat(owners, some, promptClaims);
    some := some + promptClaims;
    r, published := ClaimAll(r.value, Prompt, l.backend, prompts);
    if r.Err? {
      return;
    }
    p := p.(prompts := published);
    ScanConcat(owners, some, templateClaims);
    some := some + templateClaims;
    r, published := ClaimAll(r.value, Template, l.backend, templates);
    p := p.(templates := published);
  }

  /** The surface of the first listings; its lifetime is settled at the end. */
  function SurfaceOf(ls: seq<Listing>): Surface {
    Surface(Published(ls, Tool), Published(ls, Prompt), Published(ls, Template), Published(ls, Resource), 0, Unavailable(ls))
  }

  /** What one more listing adds to it. */
  lemma SurfaceStep(ls: seq<Listing>, i: nat)
    requires i < |ls|
    ensures var s, l := SurfaceOf(ls[..i]), ls[i];
            SurfaceOf(ls[..i + 1]) == (
              if l.failed then s.(unavailable := s.unavailable + [l.backend])
              else s.(tools := s.tools + PublishAll(Tool, l.backend, InOrder(Tool, l.tools)),
                      prompts := s.prompts + PublishAll(Prompt, l.backend, InOrder(Prompt, l.prompts)),
                      templates := s.templates + PublishAll(Template, l.backend, InOrder(Template, l.templates)),
                      resources := s.resources + PublishAll(Resource, l.backend, InOrder(Resource, l.resources))))
    ensures Shortest(ls[..i + 1]) == Shorter(Shortest(ls[..i]), ls[i])
  {
    hide InOrder, Publish;
    assert ls[..i + 1][..i] == ls[..i];
  }

  lemma NoClaims(l: Listing, claims: seq<Claim>)
    requires l.failed
    ensures claims + ListingClaims(l) == claims
  {
  }

  /** The listings folded into one surface, or the first name that does not fit or is taken. */
  method Assemble(listings: seq<Listing>) returns (r: Result<Surface, Refusal>)
    ensures r == Assembled(listings)
  {
    var ls := Ordered(listings);
    var s := Surface([], [], [], [], 0, []);
    var ttl, owners := 0, map[];
    assert ls[..0] == [];
    ScanNothing(map[]);
    for i := 0 to |ls|
      invariant Scan(map[], Claims(ls[..i])) == Ok(owners)
      invariant s == SurfaceOf(ls[..i])
      invariant ttl == Shortest(ls[..i])
    {
      hide Scan, Claims, ListingClaims, SurfaceOf, Shortest, Ordered, InOrder, PublishAll;
      var l := ls[i];
      SurfaceStep(ls, i);
      ClaimsUpTo(ls, i);
      if l.failed {
        NoClaims(l, Claims(ls[..i]));
        s := s.(unavailable := s.unavailable + [l.backend]);
        continue;
      }
      ttl := Shorter(ttl, l);
      ScanConcat(map[], Claims(ls[..i]), ListingClaims(l));
      var claimed, p, some := ClaimListing(owners, l);
      if claimed.Err? {
        RefusedSoFar(ls, i, owners, some, claimed.error);
        return Err(claimed.error);
      }
      owners := claimed.value;
      var resources := PublishAll(Resource, l.backend, InOrder(Resource, l.resources));
      s := s.(tools := s.tools + p.tools, prompts := s.prompts + p.prompts,
              templates := s.templates + p.templates, resources := s.resources + resources);
    }
    assert ls[..|ls|] == ls;
    s := s.(ttl := ttl);
    if |s.unavailable| > 0 {
      s := s.(ttl := DEGRADED_TTL_MS);
    }
    r := Ok(s);
  }
}
