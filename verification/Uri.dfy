/** Resource URIs as clients see them: the backend's own URI carried whole, percent-encoded, inside the gateway's. */
module Uris {
  import opened Prelude
  import opened Text

  const SCHEME: Bytes := "mcp-proxy"
  const START := SCHEME + "://"
  const HEX: Bytes := "0123456789ABCDEF"

  /** The unreserved set of section 2.3 of RFC 3986. */
  predicate Unreserved(c: byte) {
    'A' <= c <= 'Z' || 'a' <= c <= 'z' || '0' <= c <= '9' || c == '-' || c == '.' || c == '_' || c == '~'
  }

  predicate AllUnreserved(s: Bytes) {
    forall c :: c in s ==> Unreserved(c)
  }

  // ---------------------------------------------------------------------------------------------
  // Percent-encoding
  // ---------------------------------------------------------------------------------------------

  function EscapeByte(c: byte): Bytes {
    if Unreserved(c) then [c] else ['%', HEX[c as int / 16], HEX[c as int % 16]]
  }

  function Escape(s: Bytes): Bytes {
    if s == [] then [] else EscapeByte(s[0]) + Escape(s[1..])
  }

  lemma {:induction false} EscapeConcat(s: Bytes, t: Bytes)
    ensures Escape(s + t) == Escape(s) + Escape(t)
  {
    hide EscapeByte;
    if s == [] {
      assert s + t == t && [] + Escape(t) == Escape(t);
    } else {
      EscapeConcat(s[1..], t);
      assert (s + t)[0] == s[0] && (s + t)[1..] == s[1..] + t;
      assert EscapeByte(s[0]) + (Escape(s[1..]) + Escape(t)) == EscapeByte(s[0]) + Escape(s[1..]) + Escape(t);
    }
  }

  /** The encoding, byte by byte into a builder. */
  method EscapeBytes(s: Bytes) returns (b: Bytes)
    ensures b == Escape(s)
  {
    b := [];
    for i := 0 to |s|
      invariant b == Escape(s[..i])
    {
      EscapeConcat(s[..i], [s[i]]);
      assert s[..i + 1] == s[..i] + [s[i]];
      if Unreserved(s[i]) {
        b := b + [s[i]];
        continue;
      }
      b := b + ['%', HEX[s[i] as int / 16], HEX[s[i] as int % 16]];
    }
    assert s[..|s|] == s;
  }

  predicate IsHex(c: byte) { '0' <= c <= '9' || 'A' <= c <= 'F' || 'a' <= c <= 'f' }

  function Unhex(c: byte): (n: nat)
    requires IsHex(c)
    ensures n < 16
  {
    if '0' <= c <= '9' then c as int - '0' as int
    else if 'A' <= c <= 'F' then c as int - 'A' as int + 10
    else c as int - 'a' as int + 10
  }

  /** `s` starts with a byte that stands for itself or with the encoding of one. */
  predicate Decodable(s: Bytes)
    requires s != []
  {
    s[0] != '%' || (|s| >= 3 && IsHex(s[1]) && IsHex(s[2]))
  }

  /** That byte, and how much of `s` it takes. */
  function First(s: Bytes): (byte, nat)
    requires s != [] && Decodable(s)
  {
    if s[0] != '%' then (s[0], 1) else ((16 * Unhex(s[1]) + Unhex(s[2])) as char, 3)
  }

  /** Percent-decoding as the library does it for a path: every `%` must start an encoding, in either case. */
  function Unescape(s: Bytes): Option<Bytes> {
    if s == [] then Some([])
    else if !Decodable(s) then None
    else Prepend([First(s).0], Unescape(s[First(s).1..]))
  }

  function Prepend(front: Bytes, back: Option<Bytes>): Option<Bytes> {
    if back.Some? then Some(front + back.value) else None
  }

  lemma PrependTwice(a: Bytes, b: Bytes, back: Option<Bytes>)
    ensures Prepend(a, Prepend(b, back)) == Prepend(a + b, back)
  {
    if back.Some? {
      assert a + (b + back.value) == (a + b) + back.value;
    }
  }

  lemma {:induction false} UnescapeConcat(s: Bytes, t: Bytes)
    requires Unescape(s).Some?
    ensures Unescape(s + t) == Prepend(Unescape(s).value, Unescape(t))
  {
    if s == [] {
      assert s + t == t;
      assert Unescape(t).Some? ==> [] + Unescape(t).value == Unescape(t).value;
    } else {
      var k := First(s).1;
      UnescapeConcat(s[k..], t);
      assert First(s + t) == First(s) && (s + t)[k..] == s[k..] + t;
      PrependTwice([First(s).0], Unescape(s[k..]).value, Unescape(t));
    }
  }

  lemma DecodesToNothing(s: Bytes)
    ensures Unescape(s) == Some([]) <==> s == []
  {
  }

  lemma HexDigits(n: nat)
    requires n < 16
    ensures IsHex(HEX[n]) && Unhex(HEX[n]) == n && Unreserved(HEX[n])
  {
  }

  lemma EncodedByte(c: byte)
    ensures Unescape(EscapeByte(c)) == Some([c])
  {
    HexDigits(c as int / 16);
    HexDigits(c as int % 16);
    var e := EscapeByte(c);
    assert e[First(e).1..] == [];
    assert First(e).0 == c;
    assert [c] + [] == [c];
    assert Unescape([]) == Some([]);
  }

  /** Decoding undoes encoding, for every string of bytes. */
  lemma {:induction false} UnescapeEscape(s: Bytes)
    ensures Unescape(Escape(s)) == Some(s)
  {
    if s != [] {
      EncodedByte(s[0]);
      UnescapeEscape(s[1..]);
      UnescapeConcat(EscapeByte(s[0]), Escape(s[1..]));
      assert s == [s[0]] + s[1..];
    }
  }

  /** What encoding writes: unreserved bytes and percent signs, and in particular no slash and no brace. */
  lemma {:induction false} EscapedBytes(s: Bytes)
    ensures forall c :: c in Escape(s) ==> Unreserved(c) || c == '%'
    ensures |s| <= |Escape(s)|
    ensures |s| == |Escape(s)| <==> AllUnreserved(s)
    ensures AllUnreserved(s) ==> Escape(s) == s
  {
    if s != [] {
      HexDigits(s[0] as int / 16);
      HexDigits(s[0] as int % 16);
      EscapedBytes(s[1..]);
      assert s == [s[0]] + s[1..];
    }
  }

  /** The bytes encoded, one by one: those outside the visible range, and the delimiters within it. */
  lemma ReservedExactly(c: byte)
    ensures !Unreserved(c) <==>
              || c <= ' ' || c as int >= 127
              || c in [':', '/', '?', '#', '[', ']', '@', '!', '$', '&', '\'', '(', ')', '*', '+', ',', ';', '=',
                       '%', '"', '<', '>', '\\', '^', '`', '{', '|', '}']
  {
  }

  predicate UpperHex(c: byte) { '0' <= c <= '9' || 'A' <= c <= 'F' }

  lemma EncodedByteIsUpperCase(c: byte)
    ensures EscapeByte(c)[0] == '%' ==> |EscapeByte(c)| == 3 && UpperHex(EscapeByte(c)[1]) && UpperHex(EscapeByte(c)[2])
    ensures EscapeByte(c)[0] != '%' ==> |EscapeByte(c)| == 1
  {
  }

  /** Every percent sign is followed by two digits in capitals, as section 2.1 of RFC 3986 asks. */
  lemma {:induction false} EncodingsAreUpperCase(s: Bytes, i: nat)
    requires i < |Escape(s)| && Escape(s)[i] == '%'
    ensures i + 2 < |Escape(s)| && UpperHex(Escape(s)[i + 1]) && UpperHex(Escape(s)[i + 2])
  {
    EncodedByteIsUpperCase(s[0]);
    var e := EscapeByte(s[0]);
    hide EscapeByte;
    if i >= |e| {
      EncodingsAreUpperCase(s[1..], i - |e|);
    }
  }

  // ---------------------------------------------------------------------------------------------
  // Wrapping
  // ---------------------------------------------------------------------------------------------

  function Base(id: Bytes): Bytes { START + id + "/" }

  function WrapURI(id: Bytes, uri: Bytes): Bytes { Base(id) + Escape(uri) }

  /** What the URL parser makes of a string: the path as it stands in the text. */
  datatype URL = URL(scheme: Bytes, host: Bytes, escapedPath: Bytes)

  function IndexByte(s: Bytes, c: byte): (r: Option<nat>)
    ensures r.Some? ==> r.value < |s| && s[r.value] == c && c !in s[..r.value]
    ensures r.None? ==> c !in s
  {
    if s == [] then None
    else if s[0] == c then Some(0)
    else
      var r := IndexByte(s[1..], c);
      if r.None? then None
      else
        assert s[..r.value + 1] == [s[0]] + s[1..][..r.value];
        Some(r.value + 1)
  }

  // ---------------------------------------------------------------------------------------------
  // Parsing, as the library does it for a URL with an authority
  // ---------------------------------------------------------------------------------------------

  /** `s` before the first of the bytes `stops`. */
  function Upto(s: Bytes, stops: Bytes): (r: Bytes)
    ensures r <= s
  {
    if s == [] || s[0] in stops then [] else [s[0]] + Upto(s[1..], stops)
  }

  /** `s` after the last `c`, or all of it. */
  function AfterLast(s: Bytes, c: byte): (r: Bytes)
    ensures |r| <= |s| && (c in s ==> |r| < |s|) && (c !in s ==> r == s)
  {
    if s == [] || s[|s| - 1] == c then [] else AfterLast(s[..|s| - 1], c) + [s[|s| - 1]]
  }

  predicate Control(c: byte) { c < ' ' || c as int == 127 }

  predicate NoControl(s: Bytes) { forall c :: c in s ==> !Control(c) }

  /** The bytes below 128 that may stand in a host as they are: unreserved bytes, delimiters, and a few that the library lets pass. */
  predicate HostByte(c: byte) {
    Unreserved(c) || c in ['!', '$', '&', '\'', '(', ')', '*', '+', ',', ';', '=', ':', '[', ']', '<', '>', '"']
  }

  /** A host decoded: only bytes from 128 on, and the percent sign, may be encoded in it. */
  function UnescapeHost(s: Bytes): Option<Bytes> {
    if s == [] then Some([])
    else if !Decodable(s) then None
    else if s[0] == '%' && Unhex(s[1]) < 8 && s[..3] != "%25" then None
    else if s[0] != '%' && s[0] as int < 128 && !HostByte(s[0]) then None
    else Prepend([First(s).0], UnescapeHost(s[First(s).1..]))
  }

  predicate Digits(s: Bytes) { forall c :: c in s ==> '0' <= c <= '9' }

  predicate UserInfo(s: Bytes) {
    && (forall c :: c in s ==> Unreserved(c) || c in [':', '!', '$', '&', '\'', '(', ')', '*', '+', ',', ';', '=', '%', '@'])
    && Unescape(s).Some?
  }

  /** The zone of a host in brackets decoded: bytes that a host may hold as they are, and the space, may be encoded in it. */
  function UnescapeZone(s: Bytes): Option<Bytes> {
    if s == [] then Some([])
    else if !Decodable(s) then None
    else if s[0] == '%' && s[..3] != "%25" && First(s).0 != ' ' && !HostByte(First(s).0) then None
    else if s[0] != '%' && s[0] as int < 128 && !HostByte(s[0]) then None
    else Prepend([First(s).0], UnescapeZone(s[First(s).1..]))
  }

  /** Where the zone begins: at the first encoded percent sign. */
  function ZoneAt(s: Bytes): (r: Option<nat>)
    ensures r.Some? ==> r.value < |s| && s[r.value] == '%'
  {
    if |s| < 3 then None
    else if s[..3] == "%25" then Some(0)
    else
      var r := ZoneAt(s[1..]);
      if r.Some? then Some(r.value + 1) else None
  }

  predicate OptionalPort(s: Bytes) { s == [] || (s[0] == ':' && Digits(s[1..])) }

  function Join(a: Option<Bytes>, b: Option<Bytes>): Option<Bytes> {
    if a.Some? then Prepend(a.value, b) else None
  }

  /** A host that starts with a bracket: a port may follow the closing one, and a zone may come before it. */
  function BracketHost(host: Bytes): Option<Bytes> {
    var port := AfterLast(host, ']');
    if ']' !in host || !OptionalPort(port) then None
    else
      var end := |host| - |port| - 1;
      var zone := ZoneAt(host[..end]);
      if zone.None? then UnescapeHost(host)
      else Join(UnescapeHost(host[..zone.value]), Join(UnescapeZone(host[zone.value..end]), UnescapeHost(host[end..])))
  }

  /** A host, with its port, if it has one. */
  function ParseHost(host: Bytes): Option<Bytes> {
    if host != [] && host[0] == '[' then BracketHost(host)
    else if ':' in host && !Digits(AfterLast(host, ':')) then None
    else UnescapeHost(host)
  }

  /** The host of an authority, behind any user. */
  function Host(authority: Bytes): Option<Bytes> {
    var host := AfterLast(authority, '@');
    if UserInfo(authority[..|authority| - |host|]) then ParseHost(host) else None
  }

  predicate IsScheme(s: Bytes) {
    |s| == |START| && forall i :: 0 <= i < |s| ==> s[i] == START[i] || ('A' <= s[i] <= 'Z' && s[i] as int + 32 == START[i] as int)
  }

  /** What comes after the first `#`. */
  function Fragment(s: Bytes): Bytes {
    var before := Upto(s, "#");
    if before == s then [] else s[|before| + 1..]
  }

  /** An authority up to the first slash, question mark or hash, and a path up to a query or a fragment. */
  function ParseRest(rest: Bytes): Option<URL> {
    var authority := Upto(rest, "/?#");
    var path, host := Upto(rest[|authority|..], "?#"), Host(authority);
    if host.Some? && Unescape(path).Some? then Some(URL(SCHEME, host.value, path)) else None
  }

  /**
   Behind the gateway's scheme, in either case. No other scheme, and no URL without an authority, is of use to
   the caller.
   */
  function Parse(gateway: Bytes): Option<URL> {
    if Unescape(Fragment(gateway)).None? || !NoControl(Upto(gateway, "#")) then None
    else if |gateway| < |START| || !IsScheme(gateway[..|START|]) then None
    else ParseRest(gateway[|START|..])
  }

  function Recover(u: URL): Option<(Bytes, Bytes)> {
    if u.scheme != SCHEME || u.host == [] then None
    else
      var encoded := if u.escapedPath != [] && u.escapedPath[0] == '/' then u.escapedPath[1..] else u.escapedPath;
      if encoded == [] then None
      else match Unescape(encoded)
        case None => None
        case Some(inner) => Some((u.host, inner))
  }

  /** The backend and the URI a gateway URI carries. */
  function UnwrapURI(gateway: Bytes): Option<(Bytes, Bytes)> {
    match Parse(gateway) case None => None case Some(u) => Recover(u)
  }

  // ---------------------------------------------------------------------------------------------
  // What parsing makes of a gateway URI
  // ---------------------------------------------------------------------------------------------

  lemma {:induction false} UptoConcat(a: Bytes, b: Bytes, stops: Bytes)
    requires forall c :: c in a ==> c !in stops
    ensures Upto(a + b, stops) == a + Upto(b, stops)
  {
    if a == [] {
      assert a + b == b && a + Upto(b, stops) == Upto(b, stops);
    } else {
      var rest := Upto(b, stops);
      UptoConcat(a[1..], b, stops);
      assert (a + b)[0] == a[0] && (a + b)[1..] == a[1..] + b;
      assert Upto(a + b, stops) == [a[0]] + (a[1..] + rest);
    }
  }

  lemma UptoAll(a: Bytes, stops: Bytes)
    requires forall c :: c in a ==> c !in stops
    ensures Upto(a, stops) == a
  {
    UptoConcat(a, [], stops);
    assert a + [] == a;
  }

  lemma {:induction false} UptoShort(a: Bytes, b: Bytes, stops: Bytes)
    requires exists c :: c in a && c in stops
    ensures |Upto(a + b, stops)| < |a|
  {
    if a[0] !in stops {
      assert (a + b)[0] == a[0] && (a + b)[1..] == a[1..] + b;
      assert a == [a[0]] + a[1..];
      UptoShort(a[1..], b, stops);
    }
  }

  /** Bytes that leave a path whole: no query, no fragment and no control byte. */
  predicate PathSafe(s: Bytes) {
    forall c :: c in s ==> c != '?' && c != '#' && !Control(c)
  }

  lemma SafeConcat(a: Bytes, b: Bytes)
    requires PathSafe(a) && PathSafe(b)
    ensures PathSafe(a + b)
  {
    hide Control;
  }

  lemma EscapedIsSafe(s: Bytes)
    ensures PathSafe(Escape(s))
  {
    EscapedBytes(s);
    hide Escape;
  }

  lemma StartIsScheme(rest: Bytes)
    ensures var g := START + rest; g[..|START|] == START && g[|START|..] == rest && IsScheme(g[..|START|])
    ensures PathSafe(START)
  {
  }

  lemma SlashDecodes(encoded: Bytes)
    ensures Unescape(['/'] + encoded) == Prepend(['/'], Unescape(encoded))
  {
    assert (['/'] + encoded)[1..] == encoded;
  }

  /** A gateway URI without a fragment and without control bytes. */
  lemma PlainGateway(gateway: Bytes)
    requires PathSafe(gateway)
    ensures Fragment(gateway) == [] && Upto(gateway, "#") == gateway && NoControl(gateway)
  {
    UptoAll(gateway, "#");
  }

  lemma AuthorityAndPath(authority: Bytes, encoded: Bytes)
    requires PathSafe(authority) && '/' !in authority && PathSafe(encoded)
    ensures var rest, path: Bytes := authority + ("/" + encoded), "/" + encoded;
            Upto(rest, "/?#") == authority && rest[|authority|..] == path && Upto(path, "?#") == path
  {
    var path: Bytes := "/" + encoded;
    hide Upto, Control;
    UptoConcat(authority, path, "/?#");
    SlashStops(encoded);
    assert authority + [] == authority;
    assert (authority + path)[|authority|..] == path;
    UptoAll(path, "?#");
  }

  lemma ParseStart(rest: Bytes)
    ensures Parse(START + rest).Some? ==> Parse(START + rest) == ParseRest(rest)
    ensures PathSafe(rest) ==> Parse(START + rest) == ParseRest(rest)
  {
    StartIsScheme(rest);
    hide ParseRest, Unescape, Upto, NoControl, IsScheme, Fragment;
    if PathSafe(rest) {
      assert PathSafe(START + rest);
      PlainGateway(START + rest);
      NothingDecodes();
    }
  }

  lemma ParseAuthority(authority: Bytes, encoded: Bytes)
    requires PathSafe(authority) && '/' !in authority && PathSafe(encoded) && Unescape(encoded).Some?
    ensures ParseRest(authority + ("/" + encoded))
         == if Host(authority).None? then None else Some(URL(SCHEME, Host(authority).value, "/" + encoded))
  {
    hide Unescape, Host, Upto, PathSafe;
    AuthorityAndPath(authority, encoded);
    SlashDecodes(encoded);
  }

  lemma SafeTogether(authority: Bytes, encoded: Bytes)
    requires PathSafe(authority) && PathSafe(encoded)
    ensures PathSafe(authority + ("/" + encoded))
  {
    hide Control;
    assert !Control('/') by { SlashIsNoControl(); }
  }

  lemma SlashIsNoControl()
    ensures !Control('/')
  {
  }

  lemma SlashStops(encoded: Bytes)
    ensures Upto("/" + encoded, "/?#") == []
  {
  }

  lemma NothingDecodes()
    ensures Unescape([]) == Some([])
  {
  }

  /** What unwrapping makes of an authority followed by anything encoded. */
  lemma UnwrapAuthority(authority: Bytes, encoded: Bytes)
    requires PathSafe(authority) && '/' !in authority && PathSafe(encoded) && Unescape(encoded).Some?
    ensures UnwrapURI(START + (authority + ("/" + encoded)))
         == if Host(authority).None? || Host(authority).value == [] || encoded == [] then None
            else Some((Host(authority).value, Unescape(encoded).value))
  {
    hide Parse, ParseRest, Unescape, Host, PathSafe;
    SafeTogether(authority, encoded);
    ParseStart(authority + ("/" + encoded));
    ParseAuthority(authority, encoded);
    assert ("/" + encoded)[1..] == encoded;
  }

  // ---------------------------------------------------------------------------------------------
  // Which identifiers may stand as hosts
  // ---------------------------------------------------------------------------------------------

  /** Bytes that a host may hold as they are. */
  predicate HostBytes(s: Bytes) { forall c :: c in s ==> HostByte(c) || c as int >= 128 }

  /** What may follow the last colon, or the closing bracket, is a port. */
  predicate Ported(host: Bytes) {
    if host != [] && host[0] == '[' then ']' in host && OptionalPort(AfterLast(host, ']'))
    else ':' in host ==> Digits(AfterLast(host, ':'))
  }

  /** An identifier that is a host as it stands. */
  predicate Hostly(id: Bytes) {
    id != [] && HostBytes(id) && Ported(id)
  }

  lemma {:induction false} UnescapeHostKeeps(s: Bytes)
    ensures var r := UnescapeHost(s); r.Some? ==> |r.value| <= |s| && (|r.value| == |s| ==> r.value == s && HostBytes(s))
    ensures HostBytes(s) ==> UnescapeHost(s) == Some(s)
  {
    if s != [] && Decodable(s) {
      var rest := s[First(s).1..];
      UnescapeHostKeeps(rest);
      if s[0] != '%' {
        assert s == [s[0]] + rest;
        assert HostBytes(s) <==> HostBytes(rest) && (HostByte(s[0]) || s[0] as int >= 128);
      }
    }
    if s != [] && HostBytes(s) {
      assert s[0] in s;
    }
  }

  lemma {:induction false} UnescapeZoneShrinks(s: Bytes)
    ensures var r := UnescapeZone(s); r.Some? ==> |r.value| <= |s| && (s != [] && s[0] == '%' ==> |r.value| < |s|)
  {
    if s != [] && Decodable(s) {
      UnescapeZoneShrinks(s[First(s).1..]);
    }
  }

  lemma {:induction false} NoZone(s: Bytes)
    requires '%' !in s
    ensures ZoneAt(s) == None
  {
    if |s| >= 3 {
      NoZone(s[1..]);
    }
  }

  lemma BracketHostKeeps(a: Bytes)
    requires a != [] && a[0] == '['
    ensures BracketHost(a).Some? ==> |BracketHost(a).value| <= |a|
    ensures BracketHost(a) == Some(a) <==> HostBytes(a) && Ported(a)
  {
    UnescapeHostKeeps(a);
    hide UnescapeHost, UnescapeZone, HostByte;
    var port := AfterLast(a, ']');
    if ']' in a && OptionalPort(port) {
      var end := |a| - |port| - 1;
      var zone := ZoneAt(a[..end]);
      if zone.Some? {
        ZonedShrinks(a, zone.value, end);
        ZonedIsEncoded(a, zone.value);
      }
    }
  }

  lemma ZonedIsEncoded(a: Bytes, z: nat)
    requires z < |a| && a[z] == '%'
    ensures !HostBytes(a)
  {
    assert a[z] in a;
  }

  lemma ZonedShrinks(a: Bytes, z: nat, end: nat)
    requires z < end <= |a| && a[z] == '%'
    ensures var r := Join(UnescapeHost(a[..z]), Join(UnescapeZone(a[z..end]), UnescapeHost(a[end..])));
            r.Some? ==> |r.value| < |a|
  {
    UnescapeHostKeeps(a[..z]);
    UnescapeZoneShrinks(a[z..end]);
    UnescapeHostKeeps(a[end..]);
    hide UnescapeHost, UnescapeZone;
    assert a[z..end][0] == '%';
  }

  /** An authority is its own host exactly if it is fit to be one. */
  lemma HostKeeps(a: Bytes)
    ensures Host(a).Some? ==> |Host(a).value| <= |a|
    ensures a != [] ==> (Host(a) == Some(a) <==> Hostly(a))
  {
    var host := AfterLast(a, '@');
    UnescapeHostKeeps(host);
    if host != [] && host[0] == '[' {
      BracketHostKeeps(host);
    }
    hide UnescapeHost, BracketHost;
    if '@' !in a {
      WithoutUser(a);
    }
  }

  lemma WithoutUser(authority: Bytes)
    requires '@' !in authority
    ensures Host(authority) == ParseHost(authority)
  {
    hide ParseHost;
    NothingDecodes();
    assert authority[..0] == [] && UserInfo([]);
  }

  /** What unwrapping makes of a base followed by anything encoded. */
  lemma UnwrapBase(id: Bytes, encoded: Bytes)
    requires Hostly(id) && PathSafe(encoded) && Unescape(encoded).Some?
    ensures UnwrapURI(Base(id) + encoded) == if encoded == [] then None else Some((id, Unescape(encoded).value))
  {
    BaseIsStart(id, encoded);
    HostlyIsPlain(id);
    HostKeeps(id);
    hide Host, Unescape, UnwrapURI, Hostly;
    UnwrapAuthority(id, encoded);
  }

  lemma HostlyIsPlain(id: Bytes)
    requires Hostly(id)
    ensures id != [] && PathSafe(id) && '/' !in id && '%' !in id && '@' !in id && '{' !in id
  {
    hide AfterLast, Digits;
  }

  lemma BaseIsStart(id: Bytes, encoded: Bytes)
    ensures Base(id) + encoded == START + (id + ("/" + encoded))
  {
  }

  /** If the host recovered from a gateway URI is its identifier, that is fit to be one. */
  lemma RecoveredHost(id: Bytes, encoded: Bytes)
    requires id != []
    requires ParseRest(id + ("/" + encoded)).Some? && ParseRest(id + ("/" + encoded)).value.host == id
    ensures Hostly(id)
  {
    hide Host, Hostly, ParseRest, Upto;
    RestHost(id + ("/" + encoded));
    AuthorityIn(id, encoded);
    OwnHost(Upto(id + ("/" + encoded), "/?#"), id);
  }

  lemma UnwrappedHost(id: Bytes, encoded: Bytes)
    requires UnwrapURI(Base(id) + encoded).Some? && UnwrapURI(Base(id) + encoded).value.0 == id
    ensures Hostly(id)
  {
    hide Host, Hostly, ParseRest, Upto, Parse, Base, Unescape;
    BaseIsStart(id, encoded);
    ParseStart(id + ("/" + encoded));
    RecoveredHost(id, encoded);
  }

  lemma RestHost(rest: Bytes)
    requires ParseRest(rest).Some?
    ensures Host(Upto(rest, "/?#")) == Some(ParseRest(rest).value.host)
  {
  }

  lemma OwnHost(authority: Bytes, id: Bytes)
    requires Host(authority) == Some(id) && id != []
    requires authority == id || |authority| < |id|
    ensures Hostly(id)
  {
    HostKeeps(authority);
  }

  /** The authority in a gateway URI is the identifier, or is shorter because the identifier holds its end. */
  lemma AuthorityIn(id: Bytes, encoded: Bytes)
    ensures var authority := Upto(id + ("/" + encoded), "/?#");
            && (authority == id || |authority| < |id|) && forall c :: c in authority ==> c in id
  {
    var rest: Bytes := id + ("/" + encoded);
    var authority := Upto(rest, "/?#");
    hide Upto;
    if exists c :: c in id && c in "/?#" {
      UptoShort(id, "/" + encoded, "/?#");
      assert authority == rest[..|authority|] == id[..|authority|];
    } else {
      UptoConcat(id, "/" + encoded, "/?#");
      SlashStops(encoded);
      assert authority == id + [] == id;
    }
  }

  /** Unwrapping undoes wrapping exactly if the identifier is fit to be a host and there is a URI to recover. */
  lemma UnwrapWrap(id: Bytes, uri: Bytes)
    ensures UnwrapURI(WrapURI(id, uri)) == Some((id, uri)) <==> Hostly(id) && uri != []
    ensures Hostly(id) && uri == [] ==> UnwrapURI(WrapURI(id, uri)) == None
  {
    UnescapeEscape(uri);
    EscapedBytes(uri);
    hide UnwrapURI, Hostly, Escape, Unescape;
    assert PathSafe(Escape(uri));
    if Hostly(id) {
      UnwrapBase(id, Escape(uri));
    } else if UnwrapURI(WrapURI(id, uri)) == Some((id, uri)) {
      UnwrappedHost(id, Escape(uri));
    }
  }

  /**
   The URIs of an identifier with a slash unwrap to the backend named by what comes before it, if that is fit to be
   a host and what comes after may stand in a path.
   */
  lemma SlashLeadsElsewhere(front: Bytes, back: Bytes, uri: Bytes)
    requires Hostly(front) && PathSafe(back) && Unescape(back).Some?
    ensures UnwrapURI(WrapURI(front + "/" + back, uri)) == Some((front, Unescape(back).value + "/" + uri))
  {
    hide UnwrapURI, Hostly, Escape, Unescape, Base, PathSafe, WrapURI;
    WrapSplits(front, back, uri);
    TailDecodes(back, uri);
    UnwrapBase(front, back + ("/" + Escape(uri)));
  }

  lemma WrapSplits(front: Bytes, back: Bytes, uri: Bytes)
    ensures WrapURI(front + "/" + back, uri) == Base(front) + (back + ("/" + Escape(uri)))
  {
    var encoded := Escape(uri);
    hide Escape;
    assert START + (front + "/" + back) + "/" == START + front + "/" + (back + "/");
    assert START + front + "/" + (back + "/") + encoded == START + front + "/" + (back + ("/" + encoded));
  }

  lemma TailDecodes(back: Bytes, uri: Bytes)
    requires PathSafe(back) && Unescape(back).Some?
    ensures var encoded: Bytes := back + ("/" + Escape(uri));
            PathSafe(encoded) && Unescape(encoded) == Some(Unescape(back).value + "/" + uri)
  {
    UnescapeEscape(uri);
    EscapedIsSafe(uri);
    SlashDecodes(Escape(uri));
    UnescapeConcat(back, "/" + Escape(uri));
    SlashIsNoControl();
    assert PathSafe("/");
    hide Escape, Unescape, PathSafe;
    SafeConcat("/", Escape(uri));
    SafeConcat(back, "/" + Escape(uri));
    assert Unescape(back).value + ("/" + uri) == Unescape(back).value + "/" + uri;
  }

  /** With nothing before the slash they lead nowhere. */
  lemma SlashFirst(back: Bytes, uri: Bytes)
    ensures UnwrapURI(WrapURI("/" + back, uri)) == None
  {
    var rest: Bytes := "/" + (back + ("/" + Escape(uri)));
    assert WrapURI("/" + back, uri) == START + rest;
    hide Parse, Base, Escape, Unescape;
    ParseStart(rest);
    SlashStops(back + ("/" + Escape(uri)));
    NoHost();
  }

  lemma NoHost()
    ensures Host([]) == Some([])
  {
    NothingDecodes();
  }

  lemma NoSlashAfter(a: Bytes, b: Bytes, k: nat)
    requires '/' !in b && k < |a + "/" + b| && (a + "/" + b)[k] == '/'
    ensures k <= |a|
  {
  }

  lemma LastSlash(a: Bytes, b: Bytes, c: Bytes, d: Bytes)
    requires a + "/" + b == c + "/" + d && '/' !in b && '/' !in d
    ensures a == c && b == d
  {
    var whole := a + "/" + b;
    assert whole[|a|] == '/' && whole[|c|] == '/';
    NoSlashAfter(a, b, |c|);
    NoSlashAfter(c, d, |a|);
    assert a == whole[..|a|] && c == whole[..|c|];
    assert b == whole[|a| + 1..] && d == whole[|c| + 1..];
  }

  /** Two resources never share a gateway URI, whatever bytes the identifiers and the URIs are made of. */
  lemma WrapIsInjective(id: Bytes, uri: Bytes, id': Bytes, uri': Bytes)
    requires WrapURI(id, uri) == WrapURI(id', uri')
    ensures id == id' && uri == uri'
  {
    EscapedBytes(uri);
    EscapedBytes(uri');
    LastSlash(START + id, Escape(uri), START + id', Escape(uri'));
    assert id == (START + id)[|START|..] && id' == (START + id')[|START|..];
    UnescapeEscape(uri);
    UnescapeEscape(uri');
  }
}
