/** What a gateway URI leads to when it was expanded from a wrapped template. */
module UriExpansions {
  import opened Prelude
  import opened Text
  import opened Uris
  import opened UriTemplates

  // ---------------------------------------------------------------------------------------------
  // Identifiers that survive expansion
  // ---------------------------------------------------------------------------------------------

  /** Bytes that a host may hold and that expansion does not encode into something no host may hold. */
  predicate KeptByte(c: byte) {
    (HostByte(c) && c !in ['"', '<', '>']) || c as int >= 128
  }

  /** Once expanded, `s` is decoded as part of a host to itself: a lone percent sign is, an encoding is not. */
  predicate KeptInHost(s: Bytes) {
    s == [] || ((if s[0] == '%' then !Decodable(s) else KeptByte(s[0])) && KeptInHost(s[1..]))
  }

  /** Likewise as part of a zone, which may hold an encoded space but no encoded byte from 128 on. */
  predicate KeptInZone(s: Bytes) {
    s == [] || ((if s[0] == '%' then !Decodable(s) else HostByte(s[0]) || s[0] == ' ') && KeptInZone(s[1..]))
  }

  /** Likewise for what stands before a closing bracket, where the first percent sign begins a zone. */
  predicate KeptInBrackets(s: Bytes) {
    s == [] || (if s[0] == '%' then KeptInZone(s) else KeptByte(s[0]) && KeptInBrackets(s[1..]))
  }

  /** An identifier that is a host once it has been expanded. */
  predicate HostlyExpanded(id: Bytes) {
    && id != [] && Ported(id)
    && if id[0] == '[' then KeptInBrackets(id[..|id| - |AfterLast(id, ']')| - 1]) else KeptInHost(id)
  }

  // ---------------------------------------------------------------------------------------------
  // Decoding what was expanded
  // ---------------------------------------------------------------------------------------------

  /** `r` recovers `s` itself or something shorter; nothing shorter where there was nothing to decode. */
  predicate Recovers(r: Option<Bytes>, s: Bytes) {
    r.Some? ==> |r.value| <= |s| && ('%' !in s ==> r.value == s)
  }

  lemma RecoversMore(c: byte, r: Option<Bytes>, rest: Bytes)
    requires Recovers(r, rest)
    ensures Recovers(Prepend([c], r), [c] + rest)
    ensures Prepend([c], r) == Some([c] + rest) <==> r == Some(rest)
  {
    if r.Some? {
      assert ([c] + r.value)[1..] == r.value && ([c] + rest)[1..] == rest;
      assert '%' in rest ==> '%' in [c] + rest;
    }
  }

  lemma CopiedByte(c: byte)
    requires Unreserved(c) || Reserved(c)
    ensures ExpandByte(c) == [c] && c as int < 128 && c != '%' && c != ' ' && c !in ['"', '<', '>']
  {
  }

  lemma EncodedForm(c: byte, y: Bytes)
    requires !Unreserved(c) && !Reserved(c)
    ensures var x := ExpandByte(c) + y;
            && |x| >= 3 && Decodable(x) && x[0] == '%' && First(x) == (c, 3) && x[3..] == y
            && (x[..3] == "%25" <==> c == '%') && Unhex(x[1]) == c as int / 16
    ensures HostByte(c) ==> c in ['"', '<', '>']
  {
    HexDigits(c as int / 16);
    HexDigits(c as int % 16);
    var x := ExpandByte(c) + y;
    assert x[..3] == ExpandByte(c);
  }

  lemma HostOfByte(c: byte, y: Bytes)
    ensures UnescapeHost(ExpandByte(c) + y) == if KeptByte(c) || c == '%' then Prepend([c], UnescapeHost(y)) else None
  {
    var x := ExpandByte(c) + y;
    if Unreserved(c) || Reserved(c) {
      CopiedByte(c);
      assert x[0] == c && x[1..] == y;
    } else {
      EncodedForm(c, y);
    }
  }

  lemma ZoneOfByte(c: byte, y: Bytes)
    ensures UnescapeZone(ExpandByte(c) + y)
         == if HostByte(c) || c == ' ' || c == '%' then Prepend([c], UnescapeZone(y)) else None
  {
    var x := ExpandByte(c) + y;
    if Unreserved(c) || Reserved(c) {
      CopiedByte(c);
      assert x[0] == c && x[1..] == y;
    } else {
      EncodedForm(c, y);
    }
  }

  /** An encoding that the text held already is one byte in a host, if it may stand there at all. */
  lemma HostOfEncoding(s: Bytes, y: Bytes)
    requires s != [] && s[0] == '%' && Decodable(s)
    ensures var r := UnescapeHost(s[..3] + y); r == None || r == Prepend([First(s).0], UnescapeHost(y))
  {
    var x := s[..3] + y;
    assert x[3..] == y && First(x) == First(s);
  }

  lemma ZoneOfEncoding(s: Bytes, y: Bytes)
    requires s != [] && s[0] == '%' && Decodable(s)
    ensures var r := UnescapeZone(s[..3] + y); r == None || r == Prepend([First(s).0], UnescapeZone(y))
  {
    var x := s[..3] + y;
    assert x[3..] == y && First(x) == First(s);
  }

  lemma Shrinks(c: byte, r: Option<Bytes>, s: Bytes)
    requires |s| >= 3 && s[0] == '%' && Recovers(r, s[3..])
    ensures Recovers(Prepend([c], r), s) && Prepend([c], r) != Some(s)
  {
  }

  /** What a host recovers of expanded text. */
  lemma {:induction false} HostExpands(s: Bytes)
    ensures var r := UnescapeHost(ExpandLiteral(s)); Recovers(r, s) && (r == Some(s) <==> KeptInHost(s))
  {
    if s == [] {
      NothingExpands();
    } else {
      var rest := s[TokenLength(s)..];
      HostExpands(rest);
      ExpandTokens(s);
      hide UnescapeHost, ExpandLiteral, ExpandByte, Recovers, KeptByte;
      if s[0] == '%' && Decodable(s) {
        HostOfEncoding(s, ExpandLiteral(rest));
        Shrinks(First(s).0, UnescapeHost(ExpandLiteral(rest)), s);
        NoneRecovers(s);
      } else {
        HostOfByte(s[0], ExpandLiteral(rest));
        RecoversMore(s[0], UnescapeHost(ExpandLiteral(rest)), rest);
        NoneRecovers(s);
        assert s == [s[0]] + rest;
        PercentIsNotKept();
      }
    }
  }

  lemma NoneRecovers(s: Bytes)
    ensures Recovers(None, s)
  {
  }

  lemma PercentIsNotKept()
    ensures !KeptByte('%') && !HostByte('%')
  {
  }

  /** What a zone recovers of expanded text. */
  lemma {:induction false} ZoneExpands(s: Bytes)
    ensures var r := UnescapeZone(ExpandLiteral(s)); Recovers(r, s) && (r == Some(s) <==> KeptInZone(s))
  {
    if s == [] {
      NothingExpands();
    } else {
      var rest := s[TokenLength(s)..];
      ZoneExpands(rest);
      ExpandTokens(s);
      hide UnescapeZone, ExpandLiteral, ExpandByte, Recovers, HostByte;
      if s[0] == '%' && Decodable(s) {
        ZoneOfEncoding(s, ExpandLiteral(rest));
        Shrinks(First(s).0, UnescapeZone(ExpandLiteral(rest)), s);
        NoneRecovers(s);
      } else {
        ZoneOfByte(s[0], ExpandLiteral(rest));
        RecoversMore(s[0], UnescapeZone(ExpandLiteral(rest)), rest);
        NoneRecovers(s);
        assert s == [s[0]] + rest;
        PercentIsNotKept();
      }
    }
  }

  // ---------------------------------------------------------------------------------------------
  // Hosts in brackets
  // ---------------------------------------------------------------------------------------------

  /** What comes before the closing bracket decoded: the host and, from the first encoded percent sign on, the zone. */
  function Bracketed(x: Bytes): Option<Bytes> {
    match ZoneAt(x)
    case None => UnescapeHost(x)
    case Some(z) => Join(UnescapeHost(x[..z]), UnescapeZone(x[z..]))
  }

  lemma ZoneLater(c: byte, y: Bytes)
    requires c != '%'
    ensures ZoneAt([c] + y) == if ZoneAt(y).Some? then Some(ZoneAt(y).value + 1) else None
  {
    var x: Bytes := [c] + y;
    assert x[1..] == y;
    assert |x| >= 3 ==> x[..3][0] == c;
  }

  lemma ZonePastEncoding(e: Bytes, y: Bytes)
    requires |e| == 3 && e[0] == '%' && IsHex(e[1]) && IsHex(e[2]) && e != "%25"
    ensures ZoneAt(e + y) == if ZoneAt(y).Some? then Some(ZoneAt(y).value + 3) else None
  {
    assert e[1] != '%' && e[2] != '%';
    hide IsHex;
    var x, tail: Bytes := e + y, [e[2]] + y;
    assert x[..3] == e && x[1..] == [e[1]] + tail;
    assert ZoneAt(x) == if ZoneAt(x[1..]).Some? then Some(ZoneAt(x[1..]).value + 1) else None;
    hide ZoneAt;
    ZoneLater(e[2], y);
    ZoneLater(e[1], tail);
  }

  lemma JoinPrepend(a: Bytes, b: Option<Bytes>, c: Option<Bytes>)
    ensures Join(Prepend(a, b), c) == Prepend(a, Join(b, c))
  {
    if b.Some? {
      PrependTwice(a, b.value, c);
    }
  }

  lemma ZoneApart(w: Bytes, y: Bytes, z: nat)
    requires ZoneAt(y) == Some(z) && ZoneAt(w + y) == Some(z + |w|)
    ensures Bracketed(w + y) == Join(UnescapeHost(w + y[..z]), UnescapeZone(y[z..]))
  {
    hide UnescapeHost, UnescapeZone, ZoneAt;
    assert (w + y)[..z + |w|] == w + y[..z] && (w + y)[z + |w|..] == y[z..];
  }

  lemma BracketedByte(c: byte, y: Bytes)
    requires c != '%'
    ensures Bracketed(ExpandByte(c) + y) == if KeptByte(c) then Prepend([c], Bracketed(y)) else None
  {
    var w := ExpandByte(c);
    ZonePastByte(c, y);
    hide UnescapeHost, UnescapeZone, ZoneAt, KeptByte, ExpandByte;
    HostOfByte(c, y);
    if ZoneAt(y).Some? {
      var z := ZoneAt(y).value;
      ZoneApart(w, y, z);
      HostOfByte(c, y[..z]);
      JoinPrepend([c], UnescapeHost(y[..z]), UnescapeZone(y[z..]));
    }
  }

  lemma ZonePastByte(c: byte, y: Bytes)
    requires c != '%'
    ensures ZoneAt(ExpandByte(c) + y) == if ZoneAt(y).Some? then Some(ZoneAt(y).value + |ExpandByte(c)|) else None
  {
    if Unreserved(c) || Reserved(c) {
      CopiedByte(c);
      ZoneLater(c, y);
    } else {
      EncodedForm(c, []);
      var e := ExpandByte(c);
      assert e + [] == e && |e| == 3 && e[..3] == e;
      ZonePastEncoding(e, y);
    }
  }

  lemma BracketedEncoding(s: Bytes, y: Bytes)
    requires s != [] && s[0] == '%' && Decodable(s) && s[..3] != "%25"
    ensures var r := Bracketed(s[..3] + y); r == None || r == Prepend([First(s).0], Bracketed(y))
  {
    ZonePastEncoding(s[..3], y);
    hide UnescapeHost, UnescapeZone, ZoneAt, First;
    HostOfEncoding(s, y);
    if ZoneAt(y).Some? {
      var z := ZoneAt(y).value;
      ZoneApart(s[..3], y, z);
      HostOfEncoding(s, y[..z]);
      JoinPrepend([First(s).0], UnescapeHost(y[..z]), UnescapeZone(y[z..]));
    }
  }

  lemma ZoneHere(x: Bytes)
    requires |x| >= 3 && x[..3] == "%25"
    ensures Bracketed(x) == UnescapeZone(x)
  {
    hide UnescapeZone;
    assert ZoneAt(x) == Some(0);
    assert UnescapeHost(x[..0]) == Some([]) && x[0..] == x;
    assert UnescapeZone(x).Some? ==> [] + UnescapeZone(x).value == UnescapeZone(x).value;
  }

  lemma ExpandedPercent(s: Bytes)
    requires s != [] && s[0] == '%' && (Decodable(s) ==> s[..3] == "%25")
    ensures |ExpandLiteral(s)| >= 3 && ExpandLiteral(s)[..3] == "%25"
  {
    ExpandTokens(s);
    PercentToken(s);
    hide ExpandLiteral, ExpandToken;
    assert ExpandLiteral(s)[..3] == ExpandToken(s);
  }

  lemma PercentToken(s: Bytes)
    requires s != [] && s[0] == '%' && (Decodable(s) ==> s[..3] == "%25")
    ensures ExpandToken(s) == "%25"
  {
    assert EscapeByte('%') == "%25";
  }

  /** What brackets recover of expanded text. */
  lemma {:induction false} BracketsExpand(s: Bytes)
    ensures var r := Bracketed(ExpandLiteral(s)); Recovers(r, s) && (r == Some(s) <==> KeptInBrackets(s))
  {
    if s == [] {
      NothingExpands();
    } else {
      var rest := s[TokenLength(s)..];
      BracketsExpand(rest);
      ExpandTokens(s);
      hide Bracketed, ExpandLiteral, ExpandByte, Recovers, KeptByte, KeptInZone;
      NoneRecovers(s);
      if s[0] != '%' {
        BracketedByte(s[0], ExpandLiteral(rest));
        RecoversMore(s[0], Bracketed(ExpandLiteral(rest)), rest);
        assert s == [s[0]] + rest;
      } else if Decodable(s) && s[..3] != "%25" {
        BracketedEncoding(s, ExpandLiteral(rest));
        Shrinks(First(s).0, Bracketed(ExpandLiteral(rest)), s);
        NoEncodingKept(s);
      } else {
        ExpandedPercent(s);
        ZoneHere(ExpandLiteral(s));
        ZoneExpands(s);
      }
    }
  }

  lemma NoEncodingKept(s: Bytes)
    requires s != [] && s[0] == '%' && Decodable(s)
    ensures !KeptInZone(s)
  {
  }

  // ---------------------------------------------------------------------------------------------
  // Ports and closing brackets
  // ---------------------------------------------------------------------------------------------

  lemma Nest(front: Bytes, c: byte, back: Bytes, last: byte)
    ensures front + ([c] + back) + [last] == front + ([c] + (back + [last]))
  {
  }

  lemma {:induction false} SplitLast(s: Bytes, c: byte)
    requires c in s
    ensures c !in AfterLast(s, c) && s == s[..|s| - |AfterLast(s, c)| - 1] + ([c] + AfterLast(s, c))
  {
    var n := |s| - 1;
    assert s == s[..n] + [s[n]];
    if s[n] != c {
      var back := AfterLast(s[..n], c);
      var front := s[..n][..n - |back| - 1];
      SplitLast(s[..n], c);
      Nest(front, c, back, s[n]);
      assert front == s[..|s| - |AfterLast(s, c)| - 1];
    }
  }

  lemma {:induction false} AfterLastOf(front: Bytes, c: byte, back: Bytes)
    requires c !in back
    ensures AfterLast(front + ([c] + back), c) == back
  {
    var s := front + ([c] + back);
    if back != [] {
      var n := |back| - 1;
      AfterLastOf(front, c, back[..n]);
      assert s[..|s| - 1] == front + ([c] + back[..n]) && back == back[..n] + [back[n]];
    }
  }

  lemma TokenReserves(s: Bytes, c: byte)
    requires s != [] && Reserved(c)
    ensures c in ExpandToken(s) <==> c == s[0]
  {
    HexDigits(s[0] as int / 16);
    HexDigits(s[0] as int % 16);
    assert !IsHex(c) && !Unreserved(c) && c != '%';
    if s[0] == '%' && Decodable(s) {
      assert s[..3] == [s[0], s[1], s[2]];
    }
  }

  lemma TokenHolds(s: Bytes, c: byte)
    requires s != [] && Reserved(c)
    ensures c in s <==> c == s[0] || c in s[TokenLength(s)..]
  {
    assert !IsHex(c);
    assert s == s[..TokenLength(s)] + s[TokenLength(s)..];
    if s[0] == '%' && Decodable(s) {
      assert s[..3] == [s[0], s[1], s[2]];
    } else {
      assert s[..1] == [s[0]];
    }
  }

  /** Expansion neither adds nor removes a reserved byte. */
  lemma {:induction false} ReservedKept(s: Bytes, c: byte)
    requires Reserved(c)
    ensures c in ExpandLiteral(s) <==> c in s
  {
    if s == [] {
      NothingExpands();
    } else {
      ReservedKept(s[TokenLength(s)..], c);
      ExpandTokens(s);
      TokenReserves(s, c);
      TokenHolds(s, c);
    }
  }

  lemma TokenWithoutPercent(s: Bytes)
    requires s != [] && '%' !in ExpandToken(s)
    ensures TokenLength(s) == 1 && ExpandToken(s) == [s[0]]
  {
  }

  /** Text that expansion leaves without a percent sign is left as it was. */
  lemma {:induction false} NothingEncoded(s: Bytes)
    requires '%' !in ExpandLiteral(s)
    ensures ExpandLiteral(s) == s
  {
    if s == [] {
      NothingExpands();
    } else {
      ExpandTokens(s);
      hide ExpandLiteral, ExpandToken, TokenLength;
      var token, rest := ExpandToken(s), ExpandLiteral(s[TokenLength(s)..]);
      assert '%' !in token && '%' !in rest by {
        assert ExpandLiteral(s) == token + rest;
      }
      TokenWithoutPercent(s);
      NothingEncoded(s[1..]);
      assert s == [s[0]] + s[1..];
    }
  }

  lemma PortBytes(port: Bytes)
    requires OptionalPort(port) || Digits(port)
    ensures forall c :: c in port ==> '0' <= c <= '9' || c == ':'
  {
    if port != [] {
      assert port == [port[0]] + port[1..];
    }
  }

  lemma PortCopied(port: Bytes)
    requires OptionalPort(port) || Digits(port)
    ensures ExpandLiteral(port) == port
  {
    PortBytes(port);
    assert forall c :: c in port ==> Unreserved(c) || Reserved(c);
    hide ExpandLiteral, Reserved, Unreserved;
    LiteralCopied(port, []);
    NothingExpands();
    assert port + [] == port;
  }

  lemma PortExpands(s: Bytes)
    ensures OptionalPort(ExpandLiteral(s)) <==> OptionalPort(s)
    ensures Digits(ExpandLiteral(s)) <==> Digits(s)
    ensures OptionalPort(s) ==> ExpandLiteral(s) == s
  {
    hide ExpandLiteral, OptionalPort, Digits;
    var x := ExpandLiteral(s);
    if OptionalPort(x) || Digits(x) {
      PortBytes(x);
      NothingEncoded(s);
    }
    if OptionalPort(s) || Digits(s) {
      PortCopied(s);
    }
  }

  /** The last of a reserved byte stays where it was. */
  lemma LastKept(id: Bytes, c: byte)
    requires Reserved(c) && c in id
    ensures var back := AfterLast(id, c);
            && ExpandLiteral(id) == ExpandLiteral(id[..|id| - |back| - 1]) + ([c] + ExpandLiteral(back))
            && c !in ExpandLiteral(back) && AfterLast(ExpandLiteral(id), c) == ExpandLiteral(back)
  {
    var back := AfterLast(id, c);
    var front := id[..|id| - |back| - 1];
    hide ExpandLiteral, AfterLast, Reserved;
    SplitLast(id, c);
    ReservedKept(back, c);
    ReservedSplits(front, c, back);
    AfterLastOf(ExpandLiteral(front), c, ExpandLiteral(back));
  }

  lemma ReservedSplits(front: Bytes, c: byte, back: Bytes)
    requires Reserved(c)
    ensures ExpandLiteral(front + ([c] + back)) == ExpandLiteral(front) + ([c] + ExpandLiteral(back))
  {
    ByteCopied(c, back);
    assert !IsHex(c);
    hide ExpandLiteral, Reserved, IsHex;
    LiteralConcat(front, [c] + back);
  }

  lemma {:induction false} UnescapeHostConcat(a: Bytes, b: Bytes)
    requires b != [] && !IsHex(b[0])
    ensures UnescapeHost(a + b) == Join(UnescapeHost(a), UnescapeHost(b))
  {
    if a == [] {
      assert a + b == b;
      assert UnescapeHost(b).Some? ==> [] + UnescapeHost(b).value == UnescapeHost(b).value;
    } else {
      EncodingAligned(a, b);
      if Decodable(a) {
        var k := First(a).1;
        UnescapeHostConcat(a[k..], b);
        assert (a + b)[k..] == a[k..] + b;
        assert a[0] == '%' ==> (a + b)[..3] == a[..3];
        hide UnescapeZone, HostByte;
        JoinPrepend([First(a).0], UnescapeHost(a[k..]), UnescapeHost(b));
      }
    }
  }

  lemma JoinTwice(a: Option<Bytes>, b: Option<Bytes>, c: Option<Bytes>)
    ensures Join(a, Join(b, c)) == Join(Join(a, b), c)
  {
    if a.Some? {
      JoinPrepend(a.value, b, c);
    }
  }

  lemma TailIsHost(port: Bytes)
    requires OptionalPort(port)
    ensures UnescapeHost("]" + port) == Some("]" + port)
  {
    PortBytes(port);
    UnescapeHostKeeps("]" + port);
  }

  /** A host in brackets is what the brackets hold, the closing one and the port. */
  lemma BracketParts(inner: Bytes, port: Bytes)
    requires ']' !in port
    ensures var host: Bytes := inner + ("]" + port);
            BracketHost(host) == if OptionalPort(port) then Join(Bracketed(inner), Some("]" + port)) else None
  {
    var tail: Bytes := "]" + port;
    var host := inner + tail;
    AfterLastOf(inner, ']', port);
    assert ']' in tail;
    hide UnescapeHost, UnescapeZone, ZoneAt, AfterLast, OptionalPort;
    if OptionalPort(port) {
      TailIsHost(port);
      assert host[..|inner|] == inner && host[|inner|..] == tail;
      if ZoneAt(inner).None? {
        UnescapeHostConcat(inner, tail);
      } else {
        var z := ZoneAt(inner).value;
        assert host[..z] == inner[..z] && host[z..|inner|] == inner[z..];
        JoinTwice(UnescapeHost(inner[..z]), UnescapeZone(inner[z..]), UnescapeHost(tail));
      }
    }
  }

  lemma RecoversAll(r: Option<Bytes>, s: Bytes, tail: Bytes)
    requires Recovers(r, s)
    ensures Recovers(Join(r, Some(tail)), s + tail)
    ensures Join(r, Some(tail)) == Some(s + tail) <==> r == Some(s)
  {
    if r.Some? {
      assert |r.value| == |s| ==> (r.value + tail)[..|s|] == r.value && (s + tail)[..|s|] == s;
      assert '%' in s ==> '%' in s + tail;
    }
  }

  lemma InBrackets(id: Bytes)
    requires ']' in id && id[0] == '['
    ensures var port := AfterLast(id, ']');
            HostlyExpanded(id) <==> OptionalPort(port) && KeptInBrackets(id[..|id| - |port| - 1])
  {
    hide AfterLast, OptionalPort, KeptInBrackets;
  }

  lemma BracketHostOf(front: Bytes, port: Bytes, x: Bytes)
    requires ']' !in ExpandLiteral(port) && x == ExpandLiteral(front) + ("]" + ExpandLiteral(port))
    ensures var id: Bytes := front + ("]" + port);
            && Recovers(BracketHost(x), id)
            && (BracketHost(x) == Some(id) <==> OptionalPort(port) && KeptInBrackets(front))
  {
    PortExpands(port);
    hide BracketHost, ExpandLiteral, OptionalPort, KeptInBrackets, Recovers, Bracketed, Join;
    BracketParts(ExpandLiteral(front), ExpandLiteral(port));
    BracketsExpand(front);
    RecoversAll(Bracketed(ExpandLiteral(front)), front, "]" + port);
    NoneRecovers(front + ("]" + port));
  }

  lemma BracketHostExpands(id: Bytes)
    requires id != [] && id[0] == '['
    ensures Recovers(BracketHost(ExpandLiteral(id)), id)
    ensures BracketHost(ExpandLiteral(id)) == Some(id) <==> HostlyExpanded(id)
  {
    ReservedKept(id, ']');
    if ']' in id {
      var port := AfterLast(id, ']');
      SplitLast(id, ']');
      LastKept(id, ']');
      InBrackets(id);
      hide BracketHost, AfterLast, ExpandLiteral, OptionalPort, KeptInBrackets, Recovers, HostlyExpanded;
      BracketHostOf(id[..|id| - |port| - 1], port, ExpandLiteral(id));
    } else {
      NoneRecovers(id);
      hide Recovers, ExpandLiteral;
    }
  }

  lemma FirstKept(id: Bytes)
    requires id != []
    ensures ExpandLiteral(id) != [] && (ExpandLiteral(id)[0] == '[' <==> id[0] == '[')
  {
    ExpandTokens(id);
    TokenReserves(id, '[');
  }

  /** What a host recovers of an expanded identifier. */
  lemma ParsedHostExpands(id: Bytes)
    requires id != []
    ensures Recovers(ParseHost(ExpandLiteral(id)), id)
    ensures ParseHost(ExpandLiteral(id)) == Some(id) <==> HostlyExpanded(id)
  {
    FirstKept(id);
    if id[0] == '[' {
      hide HostlyExpanded, BracketHost, ExpandLiteral, Recovers;
      BracketHostExpands(id);
    } else {
      NoneRecovers(id);
      HostExpands(id);
      ReservedKept(id, ':');
      if ':' in id {
        LastKept(id, ':');
        PortExpands(AfterLast(id, ':'));
      }
      hide UnescapeHost, ExpandLiteral, KeptInHost, Digits, AfterLast, Recovers;
    }
  }

  // ---------------------------------------------------------------------------------------------
  // What a host may be
  // ---------------------------------------------------------------------------------------------

  /** Every byte a recovered host can hold; none of them ends an authority or begins an expression. */
  predicate Recoverable(s: Bytes) {
    forall c :: c in s ==> HostByte(c) || c as int >= 128 || c == '%' || c == ' '
  }

  lemma RecoverableConcat(a: Bytes, b: Bytes)
    requires Recoverable(a) && Recoverable(b)
    ensures Recoverable(a + b)
  {
    hide HostByte;
  }

  lemma HighDigit(c: byte)
    requires IsHex(c)
    ensures Unhex(c) >= 8 ==> 16 * Unhex(c) >= 128
  {
  }

  lemma {:induction false} HostIsRecoverable(s: Bytes)
    requires UnescapeHost(s).Some?
    ensures Recoverable(UnescapeHost(s).value)
  {
    if s != [] {
      var rest := s[First(s).1..];
      HostIsRecoverable(rest);
      FirstOfHost(s);
      hide UnescapeHost;
      RecoverableConcat([First(s).0], UnescapeHost(rest).value);
    }
  }

  lemma FirstOfHost(s: Bytes)
    requires s != [] && UnescapeHost(s).Some?
    ensures Recoverable([First(s).0])
    ensures UnescapeHost(s) == Prepend([First(s).0], UnescapeHost(s[First(s).1..]))
  {
    if s[0] == '%' {
      HighDigit(s[1]);
      assert s[..3] == "%25" ==> s[1] == '2' && s[2] == '5';
    }
  }

  lemma {:induction false} ZoneIsRecoverable(s: Bytes)
    requires UnescapeZone(s).Some?
    ensures Recoverable(UnescapeZone(s).value)
  {
    if s != [] {
      var rest := s[First(s).1..];
      ZoneIsRecoverable(rest);
      FirstOfZone(s);
      hide UnescapeZone;
      RecoverableConcat([First(s).0], UnescapeZone(rest).value);
    }
  }

  lemma FirstOfZone(s: Bytes)
    requires s != [] && UnescapeZone(s).Some?
    ensures Recoverable([First(s).0])
    ensures UnescapeZone(s) == Prepend([First(s).0], UnescapeZone(s[First(s).1..]))
  {
    if s[0] == '%' {
      assert s[..3] == "%25" ==> s[1] == '2' && s[2] == '5';
    }
  }

  lemma BracketsAreRecoverable(host: Bytes)
    requires BracketHost(host).Some?
    ensures Recoverable(BracketHost(host).value)
  {
    hide UnescapeHost, UnescapeZone, Recoverable, OptionalPort;
    var end := |host| - |AfterLast(host, ']')| - 1;
    var zone := ZoneAt(host[..end]);
    if zone.None? {
      HostIsRecoverable(host);
    } else {
      var z := zone.value;
      HostIsRecoverable(host[..z]);
      ZoneIsRecoverable(host[z..end]);
      HostIsRecoverable(host[end..]);
      RecoverableConcat(UnescapeZone(host[z..end]).value, UnescapeHost(host[end..]).value);
      RecoverableConcat(UnescapeHost(host[..z]).value,
                        UnescapeZone(host[z..end]).value + UnescapeHost(host[end..]).value);
    }
  }

  lemma ParsedIsRecoverable(host: Bytes)
    requires ParseHost(host).Some?
    ensures Recoverable(ParseHost(host).value)
  {
    hide BracketHost, UnescapeHost, Recoverable;
    if host != [] && host[0] == '[' {
      BracketsAreRecoverable(host);
    } else {
      HostIsRecoverable(host);
    }
  }

  lemma RecoverableIsPlain(s: Bytes)
    requires Recoverable(s)
    ensures '@' !in s && '{' !in s && '/' !in s && '?' !in s && '#' !in s
  {
  }

  /** What the authority of an expanded template leads to. */
  lemma HostOfExpanded(id: Bytes)
    requires id != []
    ensures Host(ExpandLiteral(id)) == Some(id) <==> HostlyExpanded(id)
    ensures '@' !in id ==> Recovers(Host(ExpandLiteral(id)), id)
    ensures HostlyExpanded(id) ==> Recoverable(id)
  {
    var x := ExpandLiteral(id);
    ParsedHostExpands(id);
    ReservedKept(id, '@');
    hide ExpandLiteral, ParseHost, HostlyExpanded, Recoverable, Recovers, Host;
    if HostlyExpanded(id) {
      ParsedIsRecoverable(x);
      RecoverableIsPlain(id);
    }
    if Host(x) == Some(id) {
      HostIsParsed(x);
      RecoverableIsPlain(id);
    }
    if '@' !in id {
      WithoutUser(x);
    }
  }

  lemma HostIsParsed(authority: Bytes)
    requires Host(authority).Some?
    ensures Recoverable(Host(authority).value)
  {
    hide ParseHost, Recoverable;
    ParsedIsRecoverable(AfterLast(authority, '@'));
  }

  lemma UnwrappedIsRecoverable(gateway: Bytes)
    requires UnwrapURI(gateway).Some?
    ensures UnwrapURI(gateway).value.0 != [] && Recoverable(UnwrapURI(gateway).value.0)
  {
    hide Host, Recoverable, Unescape, Upto, Fragment, IsScheme, NoControl;
    HostIsParsed(Upto(gateway[|START|..], "/?#"));
  }

  // ---------------------------------------------------------------------------------------------
  // What an expansion of a wrapped template leads to
  // ---------------------------------------------------------------------------------------------

  lemma ExpandedSafe(id: Bytes)
    requires '?' !in id && '#' !in id && '/' !in id
    ensures PathSafe(ExpandLiteral(id)) && '/' !in ExpandLiteral(id)
  {
    ReservedKept(id, '?');
    ReservedKept(id, '#');
    ReservedKept(id, '/');
    ExpandedBytes(id);
  }

  lemma {:induction false} ExpandedBytes(s: Bytes)
    ensures forall c :: c in ExpandLiteral(s) ==> !Control(c)
  {
    if s == [] {
      NothingExpands();
    } else {
      ExpandedBytes(s[TokenLength(s)..]);
      ExpandTokens(s);
      TokenBytes(s);
      hide ExpandLiteral, ExpandToken, Control;
    }
  }

  lemma TokenBytes(s: Bytes)
    requires s != []
    ensures forall c :: c in ExpandToken(s) ==> !Control(c)
  {
    HexDigits(s[0] as int / 16);
    HexDigits(s[0] as int % 16);
    if s[0] == '%' && Decodable(s) {
      assert s[..3] == [s[0], s[1], s[2]];
    } else if Unreserved(s[0]) || Reserved(s[0]) {
      CopiedByte(s[0]);
    }
  }

  /** Behind an identifier without an expression and without the end of an authority, an expansion leads to its host. */
  lemma ExpansionLeads(id: Bytes, t: Bytes, env: Values)
    requires Recoverable(id)
    ensures var host, unwrapped := Host(ExpandLiteral(id)), UnwrapURI(Expand(Base(id) + WrapBody(t), env));
            unwrapped == if host.None? || host.value == [] || Raw(t, env) == [] then None
                         else Some((host.value, Raw(t, env)))
  {
    RecoverableIsPlain(id);
    hide UnwrapURI, Expand, Raw, WrapBody, ExpandedBody, ExpandLiteral, Host, Unescape;
    hide Base, ExpandedBase, PathSafe, Recoverable;
    ExpandWrapped(id, t, env);
    ExpandedBaseIsStart(id, ExpandedBody(t, env));
    BodyDecodes(t, env);
    BodyBytes(t, env);
    RawIsEmpty(t, env);
    ExpandedSafe(id);
    UnwrapAuthority(ExpandLiteral(id), ExpandedBody(t, env));
  }

  /**
   Expanding a wrapped template and unwrapping the result gives the backend and its own template with each
   expression replaced by its raw values exactly if there is something to recover and the identifier is a host once
   it has been expanded. The expansion of any other never leads to its backend, and leads nowhere if the identifier
   is a host as it stands.
   */
  lemma UnwrapExpansion(id: Bytes, t: Bytes, env: Values)
    ensures var unwrapped := UnwrapURI(Expand(Base(id) + WrapBody(t), env));
            && (unwrapped == Some((id, Raw(t, env))) <==> HostlyExpanded(id) && Raw(t, env) != [])
            && (HostlyExpanded(id) && Raw(t, env) == [] ==> unwrapped == None)
            && (unwrapped.Some? && unwrapped.value.0 == id ==> HostlyExpanded(id) && unwrapped.value.1 == Raw(t, env))
            && (Hostly(id) && !HostlyExpanded(id) ==> unwrapped == None)
  {
    var unwrapped := UnwrapURI(Expand(Base(id) + WrapBody(t), env));
    hide UnwrapURI, Expand, Raw, WrapBody, ExpandLiteral, Host, Base, Recoverable, Hostly, HostlyExpanded;
    if unwrapped.Some? && unwrapped.value.0 == id {
      UnwrappedIsRecoverable(Expand(Base(id) + WrapBody(t), env));
    }
    if Hostly(id) {
      HostlyIsPlain(id);
      HostlyIsRecoverable(id);
    }
    if id != [] {
      HostOfExpanded(id);
      if Recoverable(id) {
        ExpansionLeads(id, t, env);
      }
    } else {
      NobodyIsExpanded();
    }
  }

  lemma HostlyIsRecoverable(id: Bytes)
    requires Hostly(id)
    ensures Recoverable(id)
  {
  }

  lemma NobodyIsExpanded()
    ensures !HostlyExpanded([])
  {
  }

  /**
   Wrapping, expanding and unwrapping gives what the backend's own template expands to exactly when that is not
   empty, every value used is made of unreserved bytes, every literal is copied unchanged, and the identifier is a
   host once it has been expanded.
   */
  lemma CommutesExactlyWhenPlain(id: Bytes, t: Bytes, env: Values)
    ensures UnwrapURI(Expand(Base(id) + WrapBody(t), env)) == Some((id, Expand(t, env)))
       <==> HostlyExpanded(id) && Plain(t, env) && Expand(t, env) != []
  {
    hide UnwrapURI, Expand, Raw, WrapBody, Base, HostlyExpanded, Hostly, Plain;
    UnwrapExpansion(id, t, env);
    ExpansionGrows(t, env);
  }

  /** A value that needs encoding reaches the backend raw, where the backend would have encoded it. */
  lemma RawValueAppears(e: Bytes, env: Values)
    requires Braced(e) && env(e) == [" "]
    ensures Expand(e, env) == "%20"
    ensures UnwrapURI(Expand(Base("fs") + WrapBody(e), env)) == Some(("fs", " "))
  {
    ShortHost();
    hide Expand, Raw, WrapBody, UnwrapURI, Base, Escape, Braced, HostlyExpanded;
    OneExpression(e, env);
    Space();
    UnwrapExpansion("fs", e, env);
  }

  lemma ShortHost()
    ensures HostlyExpanded("fs")
  {
    var fs, s: Bytes := "fs", "s";
    assert fs[1..] == s && s[1..] == [];
    assert KeptInHost(s);
  }

  /** Neither kind of host is the other: expansion repairs a lone percent sign, and spoils an angle bracket. */
  lemma HostsDiffer()
    ensures !Hostly("a%") && HostlyExpanded("a%")
    ensures Hostly("a<") && !HostlyExpanded("a<")
  {
    var percent, angle: Bytes := "a%", "a<";
    assert percent[1] == '%' && angle[1] == '<';
    assert percent[1..] == "%" && angle[1..] == "<";
    SingleByte('%');
    SingleByte('<');
    assert !HostByte('%') && HostByte('a') && HostByte('<');
  }

  lemma SingleByte(c: byte)
    ensures KeptInHost([c]) <==> c == '%' || KeptByte(c)
  {
    assert [c][1..] == [] && KeptInHost([]);
    PercentIsNotKept();
  }
}
