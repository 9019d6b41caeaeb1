/** Which texts are gateway URIs at all, and what each carries: the parser against a grammar. */
module UriForms {
  import opened Prelude
  import opened Text
  import opened Uris

  /** `c` is the small letter `small`, or its capital, or that very byte if it is no letter. */
  predicate SameLetter(c: byte, small: byte) {
    c == small || ('a' <= small <= 'z' && 'A' <= c && c as int + 32 == small as int)
  }

  predicate GatewayScheme(scheme: Bytes) {
    var name: Bytes := "mcp-proxy";
    |scheme| == 9 && forall i :: 0 <= i < 9 ==> SameLetter(scheme[i], name[i])
  }

  /** A URL by its parts, the query with its question mark and the fragment with its hash. */
  datatype Parts = Parts(scheme: Bytes, authority: Bytes, path: Bytes, query: Bytes, fragment: Bytes) {
    function Front(): Bytes { scheme + "://" + (authority + (path + query)) }
    function Whole(): Bytes { Front() + fragment }
  }

  /** The parts are those of a URL: each ends where its text says it does. */
  predicate WellFormed(p: Parts) {
    && (forall c :: c in p.authority ==> c !in "/?#")
    && (p.path == [] || p.path[0] == '/') && '?' !in p.path && '#' !in p.path
    && (p.query == [] || p.query[0] == '?') && '#' !in p.query
    && (p.fragment == [] || p.fragment[0] == '#')
  }

  /** A gateway URI that carries `inner` for the backend `id`. */
  predicate Carries(p: Parts, id: Bytes, inner: Bytes) {
    && WellFormed(p) && GatewayScheme(p.scheme) && NoControl(p.Front())
    && (p.fragment == [] || Unescape(p.fragment[1..]).Some?)
    && Host(p.authority) == Some(id) && id != []
    && |p.path| > 1 && Unescape(p.path[1..]) == Some(inner)
  }

  // ---------------------------------------------------------------------------------------------
  // The parser follows the grammar
  // ---------------------------------------------------------------------------------------------

  lemma Assoc(a: Bytes, b: Bytes, c: Bytes)
    ensures a + (b + c) == a + b + c
  {
  }

  /** Text before a stop. */
  lemma UptoStop(a: Bytes, b: Bytes, stops: Bytes)
    requires (forall c :: c in a ==> c !in stops) && (b == [] || b[0] in stops)
    ensures Upto(a + b, stops) == a && (a + b)[|a|..] == b
  {
    UptoConcat(a, b, stops);
    assert a + [] == a;
  }

  lemma {:induction false} UptoEnds(s: Bytes, stops: Bytes)
    ensures forall c :: c in Upto(s, stops) ==> c !in stops
    ensures var rest := s[|Upto(s, stops)|..]; s == Upto(s, stops) + rest && (rest == [] || rest[0] in stops)
  {
    if s != [] && s[0] !in stops {
      UptoEnds(s[1..], stops);
      assert s == [s[0]] + s[1..];
      assert s[|Upto(s, stops)|..] == s[1..][|Upto(s[1..], stops)|..];
    }
  }

  lemma SchemeIs(scheme: Bytes)
    ensures IsScheme(scheme + "://") <==> GatewayScheme(scheme)
  {
    var s: Bytes := scheme + "://";
    var name: Bytes := "mcp-proxy";
    assert START == name + "://" && |START| == 12;
    if |scheme| == 9 {
      assert forall i :: 0 <= i < 9 ==> s[i] == scheme[i] && START[i] == name[i];
      assert s[9] == START[9] && s[10] == START[10] && s[11] == START[11];
    }
  }

  /** What comes before the path, and the rest as the parser cuts it. */
  lemma CutRest(p: Parts)
    requires WellFormed(p)
    ensures var tail := p.query + p.fragment; var rest := p.authority + (p.path + tail);
            && Upto(rest, "/?#") == p.authority && rest[|p.authority|..] == p.path + tail
            && Upto(p.path + tail, "?#") == p.path
  {
    var tail := p.query + p.fragment;
    hide Upto;
    UptoStop(p.path, tail, "?#");
    UptoStop(p.authority, p.path + tail, "/?#");
  }

  lemma NoHashBefore(p: Parts)
    requires WellFormed(p) && GatewayScheme(p.scheme)
    ensures '#' !in p.Front()
  {
    assert forall c :: c in p.scheme ==> exists i :: 0 <= i < 9 && p.scheme[i] == c;
  }

  /** The fragment, as the parser finds it. */
  lemma CutFragment(p: Parts)
    requires WellFormed(p) && GatewayScheme(p.scheme)
    ensures Upto(p.Whole(), "#") == p.Front()
    ensures Fragment(p.Whole()) == if p.fragment == [] then [] else p.fragment[1..]
  {
    hide Upto;
    NoHashBefore(p);
    UptoStop(p.Front(), p.fragment, "#");
    assert p.fragment == [] ==> p.Whole() == p.Front();
    assert p.fragment != [] ==> p.Whole() != p.Front() && p.Whole()[|p.Front()| + 1..] == p.fragment[1..];
  }

  lemma Nested(a: Bytes, b: Bytes, c: Bytes, d: Bytes)
    ensures a + (b + c) + d == a + (b + (c + d))
  {
  }

  /** The scheme, as the parser finds it, and what comes after it. */
  lemma CutScheme(p: Parts)
    requires |p.scheme| == 9
    ensures var g := p.Whole();
            && |g| >= |START| && g[..|START|] == p.scheme + "://"
            && g[|START|..] == p.authority + (p.path + (p.query + p.fragment))
  {
    var front, middle := p.scheme + "://", p.authority + (p.path + p.query);
    assert |START| == |front|;
    assert p.Whole() == front + (middle + p.fragment);
    Nested(p.authority, p.path, p.query, p.fragment);
  }

  lemma PathDecodes(path: Bytes)
    requires path == [] || path[0] == '/'
    ensures |path| > 1 ==> Unescape(path) == Prepend(['/'], Unescape(path[1..]))
    ensures |path| <= 1 ==> Unescape(path).Some?
  {
    NothingDecodes();
    if path != [] {
      SlashDecodes(path[1..]);
      assert path == ['/'] + path[1..];
    }
  }

  /** Unwrapping a URL in parts gives what it carries. */
  lemma UnwrapParts(p: Parts, id: Bytes, inner: Bytes)
    requires WellFormed(p) && GatewayScheme(p.scheme)
    ensures UnwrapURI(p.Whole()) == Some((id, inner)) <==> Carries(p, id, inner)
  {
    CutFragment(p);
    CutScheme(p);
    SchemeIs(p.scheme);
    NothingDecodes();
    hide WellFormed, GatewayScheme, NoControl, Unescape, Upto, Fragment, IsScheme, Host, ParseRest, Recover;
    RestParts(p, id, inner);
  }

  lemma RestParts(p: Parts, id: Bytes, inner: Bytes)
    requires WellFormed(p)
    ensures var r := ParseRest(p.authority + (p.path + (p.query + p.fragment)));
            (r.Some? && Recover(r.value) == Some((id, inner)))
            <==> Host(p.authority) == Some(id) && id != [] && |p.path| > 1 && Unescape(p.path[1..]) == Some(inner)
  {
    CutRest(p);
    PathDecodes(p.path);
    assert p.path == [] || p.path[0] == '/';
    hide WellFormed, Unescape, Upto, Host;
  }

  /** Text up to a stop, and what follows. */
  lemma Cut(s: Bytes, stops: Bytes) returns (front: Bytes, back: Bytes)
    ensures s == front + back && (forall c :: c in front ==> c !in stops) && (back == [] || back[0] in stops)
  {
    UptoEnds(s, stops);
    front := Upto(s, stops);
    back := s[|front|..];
  }

  /** What comes behind the scheme, cut at each stop. */
  lemma DecomposeRest(rest: Bytes, scheme: Bytes) returns (p: Parts)
    ensures p.scheme == scheme && WellFormed(p)
    ensures rest == p.authority + (p.path + (p.query + p.fragment))
  {
    hide WellFormed;
    var authority, after := Cut(rest, "/?#");
    var path, tail := Cut(after, "?#");
    var query, fragment := Cut(tail, "#");
    PathStarts(path, tail);
    QueryStarts(query, fragment);
    p := Parts(scheme, authority, path, query, fragment);
    PartsFit(p);
  }

  lemma PathStarts(path: Bytes, tail: Bytes)
    requires (path + tail == [] || (path + tail)[0] in "/?#") && forall c :: c in path ==> c !in "?#"
    ensures path == [] || path[0] == '/'
  {
    assert path != [] ==> (path + tail)[0] == path[0] && path[0] in path;
    assert '?' in "?#" && '#' in "?#";
  }

  lemma QueryStarts(query: Bytes, fragment: Bytes)
    requires (query + fragment == [] || (query + fragment)[0] in "?#") && forall c :: c in query ==> c !in "#"
    ensures query == [] || query[0] == '?'
  {
    assert query != [] ==> (query + fragment)[0] == query[0] && query[0] in query;
    assert '#' in "#";
  }

  lemma PartsFit(p: Parts)
    requires forall c :: c in p.authority ==> c !in "/?#"
    requires forall c :: c in p.path ==> c !in "?#"
    requires forall c :: c in p.query ==> c !in "#"
    requires (p.path == [] || p.path[0] == '/') && (p.query == [] || p.query[0] == '?')
    requires p.fragment == [] || p.fragment[0] in "#"
    ensures WellFormed(p)
  {
    assert '?' in "?#" && '#' in "?#" && '#' in "#";
  }

  /** Every text that starts with the scheme has parts. */
  lemma Decompose(g: Bytes) returns (p: Parts)
    requires |g| >= |START| && IsScheme(g[..|START|])
    ensures WellFormed(p) && GatewayScheme(p.scheme) && p.Whole() == g
  {
    p := DecomposeRest(g[|START|..], g[..9]);
    hide WellFormed, IsScheme, GatewayScheme;
    SchemeText(g);
    SchemeIs(p.scheme);
    CutScheme(p);
    SameHalves(p.Whole(), g, |START|);
  }

  lemma SameHalves(a: Bytes, b: Bytes, n: nat)
    requires n <= |a| && n <= |b| && a[..n] == b[..n] && a[n..] == b[n..]
    ensures a == b
  {
    assert a == a[..n] + a[n..] && b == b[..n] + b[n..];
  }

  lemma SchemeText(g: Bytes)
    requires |g| >= |START| && IsScheme(g[..|START|])
    ensures g[..|START|] == g[..9] + "://"
  {
    var s := g[..|START|];
    assert START[9] == ':' && START[10] == '/' && START[11] == '/';
    assert s[9] == ':' && s[10] == '/' && s[11] == '/';
  }

  /**
   A text is unwrapped exactly if it is a gateway URI: `mcp-proxy`, in letters of either case, `://`, an authority
   that leads to a host, a path that is a slash and something encoded, and then a query, a fragment that decodes, both
   or neither. It is unwrapped to that host and to what the path encodes.
   */
  lemma UnwrapsExactly(g: Bytes, id: Bytes, inner: Bytes)
    ensures UnwrapURI(g) == Some((id, inner)) <==> exists p: Parts :: p.Whole() == g && Carries(p, id, inner)
  {
    hide UnwrapURI, Carries;
    if UnwrapURI(g) == Some((id, inner)) {
      HasScheme(g);
      var p := Decompose(g);
      UnwrapParts(p, id, inner);
    }
    forall p: Parts | p.Whole() == g && Carries(p, id, inner) ensures UnwrapURI(g) == Some((id, inner)) {
      CarriesForm(p, id, inner);
      UnwrapParts(p, id, inner);
    }
  }

  lemma CarriesForm(p: Parts, id: Bytes, inner: Bytes)
    requires Carries(p, id, inner)
    ensures WellFormed(p) && GatewayScheme(p.scheme)
  {
  }

  lemma HasScheme(g: Bytes)
    requires UnwrapURI(g).Some?
    ensures |g| >= |START| && IsScheme(g[..|START|])
  {
    hide ParseRest, Unescape, Upto, NoControl, IsScheme, Fragment;
  }

  /** In particular no text of another scheme is unwrapped. */
  lemma OtherSchemesAreRefused(g: Bytes)
    requires UnwrapURI(g).Some?
    ensures |g| >= 12 && GatewayScheme(g[..9]) && g[9..12] == "://"
  {
    hide UnwrapURI, Carries;
    var id, inner := UnwrapURI(g).value.0, UnwrapURI(g).value.1;
    UnwrapsExactly(g, id, inner);
    var p: Parts :| p.Whole() == g && Carries(p, id, inner);
    CarriesForm(p, id, inner);
    FormOf(p);
  }

  lemma FormOf(p: Parts)
    requires WellFormed(p) && GatewayScheme(p.scheme)
    ensures var g := p.Whole(); |g| >= 12 && g[..9] == p.scheme && g[9..12] == "://"
  {
    CutScheme(p);
    assert p.Whole()[..9] == p.Whole()[..12][..9];
  }
}
