/** What the digest that keys processes is fed: every field of a server's configuration, so framed that no two configurations give the same bytes. */
module Fingerprints {
  import opened Text
  import opened Config
  import opened EnvKeys

  // ---------------------------------------------------------------------------------------------
  // The framing
  // ---------------------------------------------------------------------------------------------

  function Low(n: nat): byte { (n % 256) as char }

  /** The low `width` bytes of `n`, most significant first. */
  function BigEndian(n: nat, width: nat): (r: Bytes)
    ensures |r| == width
  {
    if width == 0 then [] else BigEndian(n / 256, width - 1) + [Low(n)]
  }

  function Count(n: nat): Bytes { BigEndian(n, 8) }

  function Field(s: Bytes): Bytes { Count(|s|) + s }

  function Fields(ss: seq<Bytes>): Bytes {
    if ss == [] then [] else Field(ss[0]) + Fields(ss[1..])
  }

  function Pairs(keys: seq<Bytes>, env: EnvMap): Bytes
    requires forall k :: k in keys ==> k in env
  {
    if keys == [] then [] else Field(keys[0]) + Field(env[keys[0]]) + Pairs(keys[1..], env)
  }

  ghost function Variables(env: EnvMap): Bytes {
    SortedKeysExactly(env.Keys);
    Count(|SortedKeys(env.Keys)|) + Pairs(SortedKeys(env.Keys), env)
  }

  /** The bytes of one server's configuration. */
  ghost function Encode(s: Server): Bytes {
    Field(s.id) + (Field(s.command) + (Count(|s.args|) + (Fields(s.args) + (Variables(s.env) + Field(s.era)))))
  }

  // ---------------------------------------------------------------------------------------------
  // The hash as it is fed
  // ---------------------------------------------------------------------------------------------

  class Mac {
    var stream: Bytes

    constructor ()
      ensures stream == []
    {
      stream := [];
    }

    method Write(bytes: Bytes)
      modifies this
      ensures stream == old(stream) + bytes
    {
      stream := stream + bytes;
    }

    method WriteCount(n: nat)
      modifies this
      ensures stream == old(stream) + Count(n)
    {
      Write(BigEndian(n, 8));
    }

    method WriteField(s: Bytes)
      modifies this
      ensures stream == old(stream) + Field(s)
    {
      WriteCount(|s|);
      Write(s);
      assert old(stream) + Count(|s|) + s == old(stream) + Field(s);
    }

    method WriteFields(ss: seq<Bytes>)
      modifies this
      ensures stream == old(stream) + Fields(ss)
    {
      ghost var before := stream;
      for i := 0 to |ss|
        invariant stream + Fields(ss[i..]) == before + Fields(ss)
      {
        assert ss[i..][0] == ss[i] && ss[i..][1..] == ss[i + 1..];
        Regroup(stream, Field(ss[i]), Fields(ss[i + 1..]));
        WriteField(ss[i]);
      }
      assert ss[|ss|..] == [] && stream + [] == stream;
    }

    method WritePairs(keys: seq<Bytes>, env: EnvMap)
      requires forall k :: k in keys ==> k in env
      modifies this
      ensures stream == old(stream) + Pairs(keys, env)
    {
      ghost var before := stream;
      for i := 0 to |keys|
        invariant stream + Pairs(keys[i..], env) == before + Pairs(keys, env)
      {
        ghost var rest := Pairs(keys[i + 1..], env);
        assert keys[i..][0] == keys[i] && keys[i..][1..] == keys[i + 1..];
        Regroup(stream, Field(keys[i]), Field(env[keys[i]]) + rest);
        Regroup(stream + Field(keys[i]), Field(env[keys[i]]), rest);
        assert Pairs(keys[i..], env) == Field(keys[i]) + (Field(env[keys[i]]) + rest);
        WriteField(keys[i]);
        WriteField(env[keys[i]]);
      }
      assert keys[|keys|..] == [] && stream + [] == stream;
    }
  }

  lemma Regroup(a: Bytes, b: Bytes, c: Bytes)
    ensures a + (b + c) == (a + b) + c
  {
  }

  /** Feeds the hash one server's configuration, reading the environment in whatever order it comes. */
  method Feed(s: Server) returns (mac: Mac)
    ensures fresh(mac) && mac.stream == Encode(s)
  {
    mac := new Mac();
    mac.WriteField(s.id);
    mac.WriteField(s.command);
    mac.WriteCount(|s.args|);
    mac.WriteFields(s.args);
    var keys := Keys(s.env);
    SortedKeysExactly(s.env.Keys);
    mac.WriteCount(|keys|);
    mac.WritePairs(keys, s.env);
    mac.WriteField(s.era);
    Flat(Field(s.id), Field(s.command), Count(|s.args|), Fields(s.args), Count(|keys|), Pairs(keys, s.env), Field(s.era));
  }

  lemma Flat(a: Bytes, b: Bytes, c: Bytes, d: Bytes, e: Bytes, f: Bytes, g: Bytes)
    ensures [] + a + b + c + d + e + f + g == a + (b + (c + (d + ((e + f) + g))))
  {
  }

  // ---------------------------------------------------------------------------------------------
  // No two configurations give the same bytes
  // ---------------------------------------------------------------------------------------------

  const WORD := 0x1_0000_0000_0000_0000

  function Power(width: nat): nat { if width == 0 then 1 else 256 * Power(width - 1) }

  lemma EightBytes()
    ensures Power(8) == WORD
  {
    assert Power(4) == 0x1_0000_0000;
    assert Power(8) == 256 * (256 * (256 * (256 * Power(4))));
  }

  /** The number that bytes stand for, the first counting most. */
  function Read(bytes: Bytes): nat {
    if bytes == [] then 0 else 256 * Read(bytes[..|bytes| - 1]) + bytes[|bytes| - 1] as int
  }

  /** A count that fits is written so that it can be read. */
  lemma {:induction false} CountIsRead(n: nat, width: nat)
    requires n < Power(width)
    ensures Read(BigEndian(n, width)) == n
  {
    if width > 0 {
      CountIsRead(n / 256, width - 1);
      var bytes := BigEndian(n, width);
      assert bytes[..|bytes| - 1] == BigEndian(n / 256, width - 1);
    }
  }

  lemma BigEndianInjective(n: nat, m: nat, width: nat)
    requires n < Power(width) && m < Power(width) && BigEndian(n, width) == BigEndian(m, width)
    ensures n == m
  {
    CountIsRead(n, width);
    CountIsRead(m, width);
  }

  /** A count is read back from the front of anything. */
  lemma CountPrefix(n: nat, m: nat, a: Bytes, b: Bytes)
    requires n < WORD && m < WORD && Count(n) + a == Count(m) + b
    ensures n == m && a == b
  {
    assert Count(n) == (Count(n) + a)[..8] && Count(m) == (Count(m) + b)[..8];
    assert a == (Count(n) + a)[8..] && b == (Count(m) + b)[8..];
    EightBytes();
    BigEndianInjective(n, m, 8);
  }

  /** So is a field. */
  lemma FieldPrefix(s: Bytes, t: Bytes, a: Bytes, b: Bytes)
    requires |s| < WORD && |t| < WORD && Field(s) + a == Field(t) + b
    ensures s == t && a == b
  {
    Regroup(Count(|s|), s, a);
    Regroup(Count(|t|), t, b);
    CountPrefix(|s|, |t|, s + a, t + b);
    assert s == (s + a)[..|s|] && t == (t + b)[..|t|];
    assert a == (s + a)[|s|..] && b == (t + b)[|t|..];
  }

  predicate AllShort(ss: seq<Bytes>) { forall s :: s in ss ==> |s| < WORD }

  lemma {:induction false} FieldsPrefix(ss: seq<Bytes>, ts: seq<Bytes>, a: Bytes, b: Bytes)
    requires |ss| == |ts| && AllShort(ss) && AllShort(ts) && Fields(ss) + a == Fields(ts) + b
    ensures ss == ts && a == b
  {
    if ss == [] {
      assert [] + a == a && [] + b == b;
    } else {
      Regroup(Field(ss[0]), Fields(ss[1..]), a);
      Regroup(Field(ts[0]), Fields(ts[1..]), b);
      FieldPrefix(ss[0], ts[0], Fields(ss[1..]) + a, Fields(ts[1..]) + b);
      FieldsPrefix(ss[1..], ts[1..], a, b);
      assert ss == [ss[0]] + ss[1..] && ts == [ts[0]] + ts[1..];
    }
  }

  predicate ShortPairs(keys: seq<Bytes>, env: EnvMap) {
    forall k :: k in keys ==> k in env && |k| < WORD && |env[k]| < WORD
  }

  lemma PairsHead(keys: seq<Bytes>, env: EnvMap, a: Bytes)
    requires keys != [] && ShortPairs(keys, env)
    ensures ShortPairs(keys[1..], env)
    ensures Pairs(keys, env) + a == Field(keys[0]) + (Field(env[keys[0]]) + (Pairs(keys[1..], env) + a))
  {
    hide Field;
    var k, rest := keys[0], Pairs(keys[1..], env);
    Regroup(Field(k) + Field(env[k]), rest, a);
    Regroup(Field(k), Field(env[k]), rest + a);
  }

  lemma {:induction false} PairsPrefix(ks: seq<Bytes>, m: EnvMap, js: seq<Bytes>, n: EnvMap, a: Bytes, b: Bytes)
    requires |ks| == |js| && ShortPairs(ks, m) && ShortPairs(js, n)
    requires Pairs(ks, m) + a == Pairs(js, n) + b
    ensures ks == js && a == b && forall k :: k in ks ==> m[k] == n[k]
  {
    hide Field;
    if ks == [] {
      assert [] + a == a && [] + b == b;
    } else {
      var k, j, rest, rest' := ks[0], js[0], Pairs(ks[1..], m) + a, Pairs(js[1..], n) + b;
      PairsHead(ks, m, a);
      PairsHead(js, n, b);
      FieldPrefix(k, j, Field(m[k]) + rest, Field(n[j]) + rest');
      FieldPrefix(m[k], n[j], rest, rest');
      hide Pairs;
      PairsPrefix(ks[1..], m, js[1..], n, a, b);
      assert ks == [k] + ks[1..] && js == [j] + js[1..];
    }
  }

  /** Nothing in the configuration is as long as a count can say. */
  predicate Sized(s: Server) {
    && |s.id| < WORD && |s.command| < WORD && |s.era| < WORD
    && |s.args| < WORD && AllShort(s.args)
    && |s.env| < WORD && forall k :: k in s.env ==> |k| < WORD && |s.env[k]| < WORD
  }

  lemma VariablesPrefix(m: EnvMap, n: EnvMap, a: Bytes, b: Bytes)
    requires |m| < WORD && forall k :: k in m ==> |k| < WORD && |m[k]| < WORD
    requires |n| < WORD && forall k :: k in n ==> |k| < WORD && |n[k]| < WORD
    requires Variables(m) + a == Variables(n) + b
    ensures m == n && a == b
  {
    var ks, js := SortedKeys(m.Keys), SortedKeys(n.Keys);
    SortedKeysExactly(m.Keys);
    SortedKeysExactly(n.Keys);
    hide SortedKeys;
    assert |m.Keys| == |m| && |n.Keys| == |n|;
    Regroup(Count(|ks|), Pairs(ks, m), a);
    Regroup(Count(|js|), Pairs(js, n), b);
    CountPrefix(|ks|, |js|, Pairs(ks, m) + a, Pairs(js, n) + b);
    PairsPrefix(ks, m, js, n, a, b);
    assert m.Keys == n.Keys;
  }

  /** Equal bytes are fed for equal configurations only: the same id, command, arguments, variables and era. */
  lemma EncodeIsInjective(s: Server, t: Server)
    requires Sized(s) && Sized(t) && Encode(s) == Encode(t)
    ensures s == t
  {
    hide Field, Fields, Count, Variables, AllShort;
    var afterArgs, afterArgs' := Variables(s.env) + Field(s.era), Variables(t.env) + Field(t.era);
    var afterCount, afterCount' := Fields(s.args) + afterArgs, Fields(t.args) + afterArgs';
    var afterCommand, afterCommand' := Count(|s.args|) + afterCount, Count(|t.args|) + afterCount';
    FieldPrefix(s.id, t.id, Field(s.command) + afterCommand, Field(t.command) + afterCommand');
    FieldPrefix(s.command, t.command, afterCommand, afterCommand');
    CountPrefix(|s.args|, |t.args|, afterCount, afterCount');
    FieldsPrefix(s.args, t.args, afterArgs, afterArgs');
    VariablesPrefix(s.env, t.env, Field(s.era), Field(t.era));
    assert Field(s.era) + [] == Field(s.era) && Field(t.era) + [] == Field(t.era);
    FieldPrefix(s.era, t.era, [], []);
  }

  // ---------------------------------------------------------------------------------------------
  // The key of a process
  // ---------------------------------------------------------------------------------------------

  datatype Subject = Subject(issuer: Bytes, sub: Bytes)

  const NUL: byte := '\0'

  function SubjectKey(s: Subject): Bytes { s.issuer + [NUL] + s.sub }

  /** `t` is `s` with the boundary moved to an earlier NUL of the issuer. */
  ghost predicate Shifted(s: Subject, t: Subject) {
    exists middle: Bytes :: s.issuer == t.issuer + [NUL] + middle && t.sub == middle + [NUL] + s.sub
  }

  /** Two subjects have one key exactly when they are the same or an issuer holds the separator just where the other ends. */
  lemma SubjectKeysCollide(s: Subject, t: Subject)
    ensures SubjectKey(s) == SubjectKey(t) <==> s == t || Shifted(s, t) || Shifted(t, s)
  {
    if Shifted(s, t) {
      ShiftedCollides(s, t);
    }
    if Shifted(t, s) {
      ShiftedCollides(t, s);
    }
    if SubjectKey(s) == SubjectKey(t) {
      if |s.issuer| == |t.issuer| {
        assert s.issuer == SubjectKey(s)[..|s.issuer|] && t.issuer == SubjectKey(t)[..|s.issuer|];
        assert s.sub == SubjectKey(s)[|s.issuer| + 1..] && t.sub == SubjectKey(t)[|s.issuer| + 1..];
      } else if |s.issuer| > |t.issuer| {
        CollisionIsShift(s, t);
      } else {
        CollisionIsShift(t, s);
      }
    }
  }

  lemma ShiftedCollides(s: Subject, t: Subject)
    requires Shifted(s, t)
    ensures SubjectKey(s) == SubjectKey(t)
  {
    var middle: Bytes :| s.issuer == t.issuer + [NUL] + middle && t.sub == middle + [NUL] + s.sub;
    assert SubjectKey(s) == t.issuer + [NUL] + middle + [NUL] + s.sub;
    assert SubjectKey(t) == t.issuer + [NUL] + middle + [NUL] + s.sub;
  }

  lemma CollisionIsShift(s: Subject, t: Subject)
    requires SubjectKey(s) == SubjectKey(t) && |s.issuer| > |t.issuer|
    ensures Shifted(s, t)
  {
    var key, n := SubjectKey(s), |t.issuer|;
    var middle := s.issuer[n + 1..];
    assert key[..|s.issuer|] == s.issuer && key[n] == NUL;
    assert s.issuer == key[..n] + [key[n]] + key[n + 1..|s.issuer|];
    assert key[..n] == t.issuer && key[n + 1..|s.issuer|] == middle;
    assert key[n + 1..] == t.sub;
    assert key[n + 1..] == key[n + 1..|s.issuer|] + [key[|s.issuer|]] + key[|s.issuer| + 1..];
    assert key[|s.issuer| + 1..] == s.sub;
  }

  /** An issuer without a NUL, which is assumed of issuers, ends where the key says it does. */
  lemma SubjectKeyIsInjective(s: Subject, t: Subject)
    requires NUL !in s.issuer && NUL !in t.issuer && SubjectKey(s) == SubjectKey(t)
    ensures s == t
  {
    SubjectKeysCollide(s, t);
    NotShifted(s, t);
    NotShifted(t, s);
  }

  lemma NotShifted(s: Subject, t: Subject)
    requires NUL !in s.issuer
    ensures !Shifted(s, t)
  {
    forall middle: Bytes ensures s.issuer != t.issuer + [NUL] + middle {
      assert (t.issuer + [NUL] + middle)[|t.issuer|] == NUL;
    }
  }

  /** Two subjects with one key: the NUL of one issuer stands where the other issuer ends. */
  lemma SubjectsThatCollide()
    ensures Subject("a\0b", "c") != Subject("a", "b\0c")
    ensures SubjectKey(Subject("a\0b", "c")) == SubjectKey(Subject("a", "b\0c"))
  {
    assert SubjectKey(Subject("a\0b", "c")) == "a\0b\0c";
    assert SubjectKey(Subject("a", "b\0c")) == "a\0b\0c";
  }

  datatype PoolKey = PoolKey(subject: Bytes, fingerprint: Bytes)

  ghost function KeyFor(digest: Bytes -> Bytes, subject: Subject, server: Server): PoolKey {
    PoolKey(SubjectKey(subject), digest(Encode(server)))
  }

  /** The digest gives two different configurations the same bytes. */
  ghost predicate Collides(digest: Bytes -> Bytes, s: Server, t: Server) {
    Encode(s) != Encode(t) && digest(Encode(s)) == digest(Encode(t))
  }

  /** One key means one subject and one configuration, unless the digest itself collides on the two. */
  lemma PoolKeyIsInjective(digest: Bytes -> Bytes, subject: Subject, server: Server, subject': Subject, server': Server)
    requires NUL !in subject.issuer && NUL !in subject'.issuer && Sized(server) && Sized(server')
    requires KeyFor(digest, subject, server) == KeyFor(digest, subject', server')
    ensures subject == subject'
    ensures server == server' || Collides(digest, server, server')
  {
    hide Encode, SubjectKey, Sized;
    SubjectKeyIsInjective(subject, subject');
    if Encode(server) == Encode(server') {
      EncodeIsInjective(server, server');
    }
  }
}
