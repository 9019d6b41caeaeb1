/**
 URI templates as clients see them: the literal text of the backend's template is encoded and its
 expressions are left standing, so that wrapping and expanding may be done in either order.
 */
module UriTemplates {
  import opened Prelude
  import opened Text
  import opened Uris

  // ---------------------------------------------------------------------------------------------
  // The wrapping
  // ---------------------------------------------------------------------------------------------

  /** A template up to its first complete expression, that expression with its braces, and what follows it. */
  datatype Split = Split(literal: Bytes, expression: Bytes, rest: Bytes)

  function SplitTemplate(t: Bytes): (r: Option<Split>)
    ensures r.Some? ==> t == r.value.literal + r.value.expression + r.value.rest && |r.value.rest| < |t|
    ensures r.Some? ==> '{' !in r.value.literal && Braced(r.value.expression)
  {
    var open := IndexByte(t, '{');
    if open.None? then None
    else
      var end := IndexByte(t[open.value..], '}');
      if end.None? then None
      else
        var after := open.value + end.value + 1;
        assert t == t[..open.value] + t[open.value..after] + t[after..];
        assert t[open.value..after] == t[open.value..][..end.value + 1];
        Some(Split(t[..open.value], t[open.value..after], t[after..]))
  }

  /** `{…}`, with no closing brace before the last. */
  predicate Braced(e: Bytes) {
    |e| >= 2 && e[0] == '{' && e[|e| - 1] == '}' && '}' !in e[..|e| - 1]
  }

  function WrapBody(t: Bytes): Bytes
    decreases |t|
  {
    match SplitTemplate(t)
    case None => Escape(t)
    case Some(s) => Escape(s.literal) + s.expression + WrapBody(s.rest)
  }

  /** Wraps a template; text with no complete expression in it is carried through encoded. */
  method WrapURITemplate(id: Bytes, template: Bytes) returns (b: Bytes)
    ensures b == Base(id) + WrapBody(template)
  {
    b := Base(id);
    var rest := template;
    while rest != []
      invariant b + WrapBody(rest) == Base(id) + WrapBody(template)
      decreases |rest|
    {
      ghost var split := SplitTemplate(rest);
      var open := IndexByte(rest, '{');
      if open.None? {
        var literal := EscapeBytes(rest);
        b := b + literal;
        return;
      }
      var end := IndexByte(rest[open.value..], '}');
      if end.None? {
        var literal := EscapeBytes(rest);
        b := b + literal;
        return;
      }
      var literal := EscapeBytes(rest[..open.value]);
      var after := open.value + end.value + 1;
      assert split == Some(Split(rest[..open.value], rest[open.value..after], rest[after..]));
      Regroup(b, literal, rest[open.value..after], WrapBody(rest[after..]));
      b := b + literal;
      b := b + rest[open.value..after];
      rest := rest[after..];
    }
    assert b + Escape([]) == b;
  }

  lemma Regroup(a: Bytes, b: Bytes, c: Bytes, d: Bytes)
    ensures a + (b + c + d) == a + b + c + d
  {
  }

  // ---------------------------------------------------------------------------------------------
  // Expressions are preserved
  // ---------------------------------------------------------------------------------------------

  function Expressions(t: Bytes): seq<Bytes>
    decreases |t|
  {
    match SplitTemplate(t)
    case None => []
    case Some(s) => [s.expression] + Expressions(s.rest)
  }

  lemma {:induction false} FirstByte(front: Bytes, back: Bytes, c: byte)
    requires c !in front && back != [] && back[0] == c
    ensures IndexByte(front + back, c) == Some(|front|)
  {
    if front == [] {
      assert front + back == back;
    } else {
      FirstByte(front[1..], back, c);
      assert (front + back)[1..] == front[1..] + back;
    }
  }

  /** Literal text without an opening brace, an expression and anything else is split as it was put together. */
  lemma SplitOfParts(literal: Bytes, expression: Bytes, rest: Bytes)
    requires '{' !in literal && Braced(expression)
    ensures SplitTemplate(literal + expression + rest) == Some(Split(literal, expression, rest))
  {
    hide IndexByte;
    var t, tail := literal + expression + rest, expression + rest;
    assert t == literal + tail;
    FirstByte(literal, tail, '{');
    assert t[|literal|..] == tail;
    ClosingBrace(expression, rest);
    hide Braced;
    assert t[|literal|..|literal| + |expression|] == expression;
    assert t[..|literal|] == literal && t[|literal| + |expression|..] == rest;
  }

  lemma ClosingBrace(expression: Bytes, rest: Bytes)
    requires Braced(expression)
    ensures IndexByte(expression + rest, '}') == Some(|expression| - 1)
  {
    var body, close := expression[..|expression| - 1], ['}'] + rest;
    FirstByte(body, close, '}');
    assert expression + rest == body + close;
  }

  lemma SplitOfLiteral(literal: Bytes)
    requires '{' !in literal
    ensures SplitTemplate(literal) == None
  {
    assert IndexByte(literal, '{').None?;
  }

  /** What wrapping makes of a template, behind any text without an opening brace, splits where the template does. */
  lemma SplitWrapped(front: Bytes, t: Bytes)
    requires '{' !in front
    ensures SplitTemplate(t) == None ==> SplitTemplate(front + WrapBody(t)) == None
    ensures SplitTemplate(t).Some? ==>
              var s := SplitTemplate(t).value;
              SplitTemplate(front + WrapBody(t)) == Some(Split(front + Escape(s.literal), s.expression, WrapBody(s.rest)))
  {
    var split := SplitTemplate(t);
    if split == None {
      EscapedBytes(t);
      SplitOfLiteral(front + Escape(t));
    } else {
      var s := split.value;
      EscapedBytes(s.literal);
      SplitOfParts(front + Escape(s.literal), s.expression, WrapBody(s.rest));
      hide SplitTemplate, Escape, Braced;
      Regroup(front, Escape(s.literal), s.expression, WrapBody(s.rest));
    }
  }

  /** The wrapped template has exactly the expressions of the original, in order. */
  lemma {:induction false} ExpressionsKept(front: Bytes, t: Bytes)
    requires '{' !in front
    ensures Expressions(front + WrapBody(t)) == Expressions(t)
    decreases |t|
  {
    hide SplitTemplate, WrapBody, Braced, Escape;
    SplitWrapped(front, t);
    var split := SplitTemplate(t);
    if split.Some? {
      ExpressionsKept([], split.value.rest);
      assert [] + WrapBody(split.value.rest) == WrapBody(split.value.rest);
    }
  }

  // ---------------------------------------------------------------------------------------------
  // Expansion, section 3 of RFC 6570
  // ---------------------------------------------------------------------------------------------

  /** The defined values of the variables an expression names, in order. */
  type Values = Bytes -> seq<Bytes>

  predicate Reserved(c: byte) {
    c in [':', '/', '?', '#', '[', ']', '@', '!', '$', '&', '\'', '(', ')', '*', '+', ',', ';', '=']
  }

  /** Simple string expansion: each value encoded, joined by commas. */
  function ExpandValues(values: seq<Bytes>): Bytes {
    if values == [] then []
    else if |values| == 1 then Escape(values[0])
    else Escape(values[0]) + [','] + ExpandValues(values[1..])
  }

  function ExpandByte(c: byte): Bytes { if Reserved(c) then [c] else EscapeByte(c) }

  /** Literals are copied, but for bytes that may not stand in a URI, which are encoded. */
  function ExpandLiteral(l: Bytes): Bytes {
    if l == [] then []
    else if l[0] == '%' && Decodable(l) then l[..3] + ExpandLiteral(l[3..])
    else ExpandByte(l[0]) + ExpandLiteral(l[1..])
  }

  function Expand(t: Bytes, env: Values): Bytes
    decreases |t|
  {
    match SplitTemplate(t)
    case None => ExpandLiteral(t)
    case Some(s) => ExpandLiteral(s.literal) + ExpandValues(env(s.expression)) + Expand(s.rest, env)
  }

  // ---------------------------------------------------------------------------------------------
  // Wrapping commutes with expansion
  // ---------------------------------------------------------------------------------------------

  function RawValues(values: seq<Bytes>): Bytes {
    if values == [] then []
    else if |values| == 1 then values[0]
    else values[0] + [','] + RawValues(values[1..])
  }

  /** The template with its literals as they stand and each expression replaced by its values, nothing encoded. */
  function Raw(t: Bytes, env: Values): Bytes
    decreases |t|
  {
    match SplitTemplate(t)
    case None => t
    case Some(s) => s.literal + RawValues(env(s.expression)) + Raw(s.rest, env)
  }

  /** The expansion of the wrapped template, behind the base. */
  function ExpandedBody(t: Bytes, env: Values): Bytes
    decreases |t|
  {
    match SplitTemplate(t)
    case None => Escape(t)
    case Some(s) => Escape(s.literal) + ExpandValues(env(s.expression)) + ExpandedBody(s.rest, env)
  }

  lemma ByteCopied(c: byte, rest: Bytes)
    requires Unreserved(c) || Reserved(c)
    ensures ExpandLiteral([c] + rest) == [c] + ExpandLiteral(rest)
  {
    assert ([c] + rest)[1..] == rest;
  }

  /** Expansion copies text that is all unreserved or reserved bytes. */
  lemma {:induction false} LiteralCopied(a: Bytes, b: Bytes)
    requires forall c :: c in a ==> Unreserved(c) || Reserved(c)
    ensures ExpandLiteral(a + b) == a + ExpandLiteral(b)
  {
    hide ExpandLiteral, Unreserved, Reserved;
    if a == [] {
      assert a + b == b && a + ExpandLiteral(b) == ExpandLiteral(b);
    } else {
      LiteralCopied(a[1..], b);
      ByteCopied(a[0], a[1..] + b);
      assert a + b == [a[0]] + (a[1..] + b);
      assert a + ExpandLiteral(b) == [a[0]] + (a[1..] + ExpandLiteral(b));
    }
  }

  lemma EscapedByteCopied(c: byte, rest: Bytes)
    ensures ExpandLiteral(EscapeByte(c) + rest) == EscapeByte(c) + ExpandLiteral(rest)
  {
    HexDigits(c as int / 16);
    HexDigits(c as int % 16);
    var l := EscapeByte(c) + rest;
    if Unreserved(c) {
      assert l[1..] == rest;
    } else {
      assert l[..3] == EscapeByte(c) && l[3..] == rest;
      assert l[0] == '%' && Decodable(l);
    }
  }

  /** Encoded text is copied as it is. */
  lemma {:induction false} EscapedCopied(s: Bytes)
    ensures ExpandLiteral(Escape(s)) == Escape(s)
  {
    if s != [] {
      EscapedCopied(s[1..]);
      EscapedByteCopied(s[0], Escape(s[1..]));
    }
  }

  lemma ExpandFirst(c: byte, rest: Bytes)
    requires c != '%'
    ensures ExpandLiteral([c] + rest) == ExpandByte(c) + ExpandLiteral(rest)
  {
    hide ExpandByte;
    assert ([c] + rest)[1..] == rest;
  }

  lemma EncodingAligned(a: Bytes, b: Bytes)
    requires a != [] && b != [] && !IsHex(b[0])
    ensures Decodable(a + b) <==> Decodable(a)
    ensures Decodable(a) ==> First(a + b) == First(a)
  {
  }

  /** How much of a literal is expanded first: an encoding that is there already, or a byte. */
  function TokenLength(l: Bytes): (n: nat)
    requires l != []
    ensures 1 <= n <= |l|
  {
    if l[0] == '%' && Decodable(l) then 3 else 1
  }

  function ExpandToken(l: Bytes): Bytes
    requires l != []
  {
    if l[0] == '%' && Decodable(l) then l[..3] else ExpandByte(l[0])
  }

  lemma ExpandTokens(l: Bytes)
    requires l != []
    ensures ExpandLiteral(l) == ExpandToken(l) + ExpandLiteral(l[TokenLength(l)..])
  {
    hide ExpandByte, Decodable;
  }

  lemma TokenAligned(a: Bytes, b: Bytes)
    requires a != [] && b != [] && !IsHex(b[0])
    ensures TokenLength(a + b) == TokenLength(a) && ExpandToken(a + b) == ExpandToken(a)
    ensures (a + b)[TokenLength(a)..] == a[TokenLength(a)..] + b
  {
    EncodingAligned(a, b);
    hide ExpandByte;
    assert Decodable(a) && a[0] == '%' ==> (a + b)[..3] == a[..3];
  }

  /** Text followed by anything that no encoding can run into is expanded apart from it. */
  lemma {:induction false} LiteralConcat(a: Bytes, b: Bytes)
    requires b != [] && !IsHex(b[0])
    ensures ExpandLiteral(a + b) == ExpandLiteral(a) + ExpandLiteral(b)
  {
    NothingExpands();
    hide ExpandLiteral, ExpandToken, TokenLength, IsHex;
    if a == [] {
      assert a + b == b && ExpandLiteral(a) + ExpandLiteral(b) == ExpandLiteral(b);
    } else {
      var rest := a[TokenLength(a)..];
      LiteralConcat(rest, b);
      TokenAligned(a, b);
      ExpandTokens(a + b);
      ExpandTokens(a);
      Assoc(ExpandToken(a), ExpandLiteral(rest), ExpandLiteral(b));
    }
  }

  lemma Assoc(a: Bytes, b: Bytes, c: Bytes)
    ensures a + (b + c) == a + b + c
  {
  }

  lemma NothingExpands()
    ensures ExpandLiteral([]) == []
  {
  }

  /** The base as expansion leaves it. */
  function ExpandedBase(id: Bytes): Bytes { START + (ExpandLiteral(id) + "/") }

  lemma ExpandedBaseIsStart(id: Bytes, encoded: Bytes)
    ensures ExpandedBase(id) + encoded == START + (ExpandLiteral(id) + ("/" + encoded))
  {
    hide ExpandLiteral;
  }

  lemma BaseExpands(id: Bytes, s: Bytes)
    ensures ExpandLiteral(Base(id) + Escape(s)) == ExpandedBase(id) + Escape(s)
  {
    hide Escape;
    var tail: Bytes := "/" + Escape(s);
    BaseIsStart(id, Escape(s));
    EscapedCopied(s);
    StartCopied(id + tail);
    LiteralConcat(id, tail);
    LiteralCopied("/", Escape(s));
    hide ExpandLiteral;
    ExpandedBaseIsStart(id, Escape(s));
  }

  lemma StartCopied(s: Bytes)
    ensures ExpandLiteral(START + s) == START + ExpandLiteral(s)
  {
    LiteralCopied(START, s);
  }

  lemma {:induction false} ExpandWrappedBody(t: Bytes, env: Values)
    ensures Expand(WrapBody(t), env) == ExpandedBody(t, env)
    decreases |t|
  {
    SplitWrapped([], t);
    assert [] + WrapBody(t) == WrapBody(t);
    var split := SplitTemplate(t);
    if split == None {
      EscapedCopied(t);
    } else {
      var s := split.value;
      assert [] + Escape(s.literal) == Escape(s.literal);
      EscapedCopied(s.literal);
      hide SplitTemplate;
      ExpandWrappedBody(s.rest, env);
    }
  }

  lemma ExpandOf(w: Bytes, s: Split, env: Values)
    requires SplitTemplate(w) == Some(s)
    ensures Expand(w, env) == ExpandLiteral(s.literal) + ExpandValues(env(s.expression)) + Expand(s.rest, env)
    ensures ExpandedBody(w, env) == Escape(s.literal) + ExpandValues(env(s.expression)) + ExpandedBody(s.rest, env)
  {
    hide SplitTemplate, ExpandLiteral, Escape;
  }

  lemma ExpandWhole(w: Bytes, env: Values)
    requires SplitTemplate(w) == None
    ensures Expand(w, env) == ExpandLiteral(w) && ExpandedBody(w, env) == Escape(w) && WrapBody(w) == Escape(w)
  {
    hide SplitTemplate, ExpandLiteral, Escape;
  }

  lemma ExpandWrapped(id: Bytes, t: Bytes, env: Values)
    requires '{' !in id
    ensures Expand(Base(id) + WrapBody(t), env) == ExpandedBase(id) + ExpandedBody(t, env)
  {
    assert '{' !in Base(id);
    hide SplitTemplate, Base, ExpandedBase, ExpandLiteral, Expand, ExpandedBody, WrapBody, Escape, ExpandValues;
    var w := Base(id) + WrapBody(t);
    SplitWrapped(Base(id), t);
    if SplitTemplate(t) == None {
      BaseExpands(id, t);
      ExpandWhole(w, env);
      ExpandWhole(t, env);
    } else {
      var s := SplitTemplate(t).value;
      BaseExpands(id, s.literal);
      ExpandOf(w, Split(Base(id) + Escape(s.literal), s.expression, WrapBody(s.rest)), env);
      ExpandOf(t, s, env);
      ExpandWrappedBody(s.rest, env);
      Regroup(ExpandedBase(id), Escape(s.literal), ExpandValues(env(s.expression)), ExpandedBody(s.rest, env));
    }
  }

  lemma {:induction false} ValuesBytes(values: seq<Bytes>)
    ensures PathSafe(ExpandValues(values))
  {
    if values != [] {
      EscapedIsSafe(values[0]);
      if |values| > 1 {
        ValuesBytes(values[1..]);
        assert PathSafe([',']);
        hide PathSafe, Escape;
        SafeConcat(Escape(values[0]), [',']);
        SafeConcat(Escape(values[0]) + [','], ExpandValues(values[1..]));
      }
    }
  }

  lemma {:induction false} BodyBytes(t: Bytes, env: Values)
    ensures PathSafe(ExpandedBody(t, env))
    decreases |t|
  {
    var split := SplitTemplate(t);
    hide SplitTemplate, Escape, PathSafe;
    if split == None {
      EscapedIsSafe(t);
    } else {
      var s := split.value;
      EscapedIsSafe(s.literal);
      ValuesBytes(env(s.expression));
      BodyBytes(s.rest, env);
      SafeConcat(Escape(s.literal), ExpandValues(env(s.expression)));
      SafeConcat(Escape(s.literal) + ExpandValues(env(s.expression)), ExpandedBody(s.rest, env));
    }
  }

  lemma UnescapeBoth(a: Bytes, x: Bytes, b: Bytes, y: Bytes)
    requires Unescape(a) == Some(x) && Unescape(b) == Some(y)
    ensures Unescape(a + b) == Some(x + y)
  {
    UnescapeConcat(a, b);
  }

  lemma {:induction false} ValuesDecode(values: seq<Bytes>)
    ensures Unescape(ExpandValues(values)) == Some(RawValues(values))
  {
    if values != [] {
      UnescapeEscape(values[0]);
      if |values| > 1 {
        ValuesDecode(values[1..]);
        Comma();
        UnescapeBoth(Escape(values[0]), values[0], [','], [',']);
        UnescapeBoth(Escape(values[0]) + [','], values[0] + [','], ExpandValues(values[1..]), RawValues(values[1..]));
      }
    }
  }

  lemma Comma()
    ensures Unescape([',']) == Some([','])
  {
    var comma: Bytes := [','];
    assert comma[1..] == [] && Unescape([]) == Some([]) && comma + [] == comma;
  }

  lemma {:induction false} BodyDecodes(t: Bytes, env: Values)
    ensures Unescape(ExpandedBody(t, env)) == Some(Raw(t, env))
    decreases |t|
  {
    var split := SplitTemplate(t);
    if split == None {
      UnescapeEscape(t);
    } else {
      var s := split.value;
      hide SplitTemplate, Unescape, Escape;
      var values := env(s.expression);
      UnescapeEscape(s.literal);
      ValuesDecode(values);
      BodyDecodes(s.rest, env);
      UnescapeBoth(Escape(s.literal), s.literal, ExpandValues(values), RawValues(values));
      UnescapeBoth(Escape(s.literal) + ExpandValues(values), s.literal + RawValues(values), ExpandedBody(s.rest, env), Raw(s.rest, env));
    }
  }

  lemma RawIsEmpty(t: Bytes, env: Values)
    ensures ExpandedBody(t, env) == [] <==> Raw(t, env) == []
  {
    BodyDecodes(t, env);
    DecodesToNothing(ExpandedBody(t, env));
  }

  // ---------------------------------------------------------------------------------------------
  // When the backend's own expansion is the same
  // ---------------------------------------------------------------------------------------------

  /** Every value the template uses is made of unreserved bytes, and all its literal text is copied. */
  predicate Plain(t: Bytes, env: Values)
    decreases |t|
  {
    match SplitTemplate(t)
    case None => ExpandLiteral(t) == t
    case Some(s) =>
      && ExpandLiteral(s.literal) == s.literal
      && (forall v :: v in env(s.expression) ==> AllUnreserved(v))
      && Plain(s.rest, env)
  }

  lemma {:induction false} LiteralGrows(l: Bytes)
    ensures |l| <= |ExpandLiteral(l)|
  {
    if l != [] {
      if l[0] == '%' && Decodable(l) {
        LiteralGrows(l[3..]);
      } else {
        LiteralGrows(l[1..]);
      }
    }
  }

  lemma {:induction false} ValuesGrow(values: seq<Bytes>)
    ensures |RawValues(values)| <= |ExpandValues(values)|
    ensures |RawValues(values)| == |ExpandValues(values)| <==> forall v :: v in values ==> AllUnreserved(v)
    ensures (forall v :: v in values ==> AllUnreserved(v)) ==> RawValues(values) == ExpandValues(values)
  {
    if values != [] {
      EscapedBytes(values[0]);
      hide Escape, AllUnreserved;
      if |values| > 1 {
        ValuesGrow(values[1..]);
        assert values == [values[0]] + values[1..];
      }
    }
  }

  lemma {:induction false} ExpansionGrows(t: Bytes, env: Values)
    ensures |Raw(t, env)| <= |Expand(t, env)|
    ensures Expand(t, env) == Raw(t, env) <==> Plain(t, env)
    decreases |t|
  {
    var split := SplitTemplate(t);
    if split == None {
      LiteralGrows(t);
    } else {
      var s := split.value;
      hide SplitTemplate, ExpandLiteral;
      LiteralGrows(s.literal);
      ValuesGrow(env(s.expression));
      ExpansionGrows(s.rest, env);
      SameParts(s.literal, ExpandLiteral(s.literal), RawValues(env(s.expression)), ExpandValues(env(s.expression)),
                Raw(s.rest, env), Expand(s.rest, env));
    }
  }

  /** Strings that agree as a whole, part by part no shorter, agree in every part. */
  lemma SameParts(a: Bytes, a': Bytes, b: Bytes, b': Bytes, c: Bytes, c': Bytes)
    requires |a| <= |a'| && |b| <= |b'| && |c| <= |c'|
    ensures a + b + c == a' + b' + c' <==> a == a' && b == b' && c == c'
  {
    if a + b + c == a' + b' + c' {
      var whole := a + b + c;
      assert a == whole[..|a|] && b == whole[|a|..|a| + |b|] && c == whole[|a| + |b|..];
      assert a' == whole[..|a'|] && b' == whole[|a'|..|a'| + |b'|] && c' == whole[|a'| + |b'|..];
    }
  }

  lemma Space()
    ensures Escape(" ") == "%20"
  {
    var space: Bytes := " ";
    assert space[1..] == [] && EscapeByte(' ') == "%20";
  }

  lemma OneExpression(e: Bytes, env: Values)
    requires Braced(e)
    ensures Expand(e, env) == ExpandValues(env(e)) && Raw(e, env) == RawValues(env(e))
  {
    var nothing: Bytes := [];
    SplitOfParts(nothing, e, nothing);
    assert nothing + e + nothing == e;
    SplitOfLiteral(nothing);
    assert ExpandLiteral(nothing) == nothing;
    assert nothing + ExpandValues(env(e)) + nothing == ExpandValues(env(e));
    assert nothing + RawValues(env(e)) + nothing == RawValues(env(e));
  }
}
