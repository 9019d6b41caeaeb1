/** The names of an environment's variables, in order: what makes anything computed from a map reproducible. */
module EnvKeys {
  import opened Text
  import opened Sorting

  /** In order, each once. */
  ghost predicate Increasing(s: seq<Bytes>) {
    forall i, j :: 0 <= i < j < |s| ==> AtMost(s[i], s[j]) && s[i] != s[j]
  }

  lemma {:induction false} LeastExists(ks: set<Bytes>)
    requires ks != {}
    ensures exists m :: m in ks && forall k :: k in ks ==> AtMost(m, k)
  {
    var x :| x in ks;
    AtMostIsTotal(x, x);
    var rest := ks - {x};
    if rest != {} {
      LeastExists(rest);
      var m :| m in rest && forall k :: k in rest ==> AtMost(m, k);
      AtMostIsTotal(m, x);
      var least := if AtMost(m, x) then m else x;
      forall k | k in ks ensures AtMost(least, k) {
        if k != x && least == x {
          AtMostIsTransitive(x, m, k);
        }
      }
    } else {
      assert ks == {x};
    }
  }

  ghost function Least(ks: set<Bytes>): (m: Bytes)
    requires ks != {}
    ensures m in ks && forall k :: k in ks ==> AtMost(m, k)
  {
    LeastExists(ks);
    var m :| m in ks && forall k :: k in ks ==> AtMost(m, k);
    m
  }

  ghost function SortedKeys(ks: set<Bytes>): seq<Bytes> {
    if ks == {} then [] else [Least(ks)] + SortedKeys(ks - {Least(ks)})
  }

  lemma IncreasingFurther(m: Bytes, keys: seq<Bytes>)
    requires Increasing(keys) && forall k :: k in keys ==> AtMost(m, k) && k != m
    ensures Increasing([m] + keys)
  {
    hide AtMost;
    assert forall i :: 0 <= i < |keys| ==> keys[i] in keys;
  }

  /** The keys are in order, each once, and exactly those of the map. */
  lemma {:induction false} SortedKeysExactly(ks: set<Bytes>)
    ensures Increasing(SortedKeys(ks)) && |SortedKeys(ks)| == |ks|
    ensures forall k :: k in SortedKeys(ks) <==> k in ks
  {
    hide AtMost;
    if ks != {} {
      var m, rest := Least(ks), ks - {Least(ks)};
      SortedKeysExactly(rest);
      IncreasingFurther(m, SortedKeys(rest));
    }
  }

  /** There is only one such sequence. */
  lemma {:induction false} IncreasingIsUnique(s: seq<Bytes>, ks: set<Bytes>)
    requires Increasing(s) && forall k :: k in s <==> k in ks
    ensures s == SortedKeys(ks)
  {
    if s == [] {
      assert forall k :: k !in ks;
      assert ks == {};
    } else {
      assert s[0] in s;
      var m := Least(ks);
      AtMostIsTotal(s[0], m);
      var i :| 0 <= i < |s| && s[i] == m;
      assert AtMost(m, s[0]);
      assert s[0] == m;
      var rest := s[1..];
      assert s == [m] + rest;
      assert Increasing(rest) && m !in rest;
      assert forall k :: k in rest <==> k in ks - {m};
      IncreasingIsUnique(rest, ks - {m});
    }
  }

  /** Whatever order the map is read in. */
  method Keys(env: map<Bytes, Bytes>) returns (keys: seq<Bytes>)
    ensures keys == SortedKeys(env.Keys)
  {
    var read, left := [], env.Keys;
    while left != {}
      invariant left <= env.Keys
      invariant forall k :: k in read <==> k in env.Keys - left
      invariant forall i, j :: 0 <= i < j < |read| ==> read[i] != read[j]
      decreases |left|
    {
      var k :| k in left;
      assert k !in read;
      read, left := read + [k], left - {k};
    }
    keys := Sort(read, AtMost);
    SortedOnce(read);
    IncreasingIsUnique(keys, env.Keys);
  }

  lemma SortedOnce(read: seq<Bytes>)
    requires forall i, j :: 0 <= i < j < |read| ==> read[i] != read[j]
    ensures var keys := Sort(read, AtMost); Increasing(keys) && forall k :: k in keys <==> k in read
  {
    OrdersBytes(read);
    SortSorts(read, AtMost);
    SameElements(Sort(read, AtMost), read);
    OnceByCount(read);
    OnceByCount(Sort(read, AtMost));
  }

  /** Elements that occur once each are distinct, however they are arranged. */
  lemma {:induction false} OnceByCount(s: seq<Bytes>)
    ensures (forall i, j :: 0 <= i < j < |s| ==> s[i] != s[j]) <==> Once(multiset(s))
  {
    if s != [] {
      var front, last := s[..|s| - 1], s[|s| - 1];
      OnceByCount(front);
      SplitLast(s);
      OnceMore(multiset(front), last);
      assert last in multiset(front) <==> last in front;
      OneMoreDistinct(front, last);
      assert s == front + [last];
    }
  }

  lemma OneMoreDistinct(front: seq<Bytes>, last: Bytes)
    ensures var s := front + [last];
            (forall i, j :: 0 <= i < j < |s| ==> s[i] != s[j]) <==>
            (forall i, j :: 0 <= i < j < |front| ==> front[i] != front[j]) && last !in front
  {
    var s := front + [last];
    assert s[|front|] == last;
    assert forall i :: 0 <= i < |front| ==> s[i] == front[i];
  }
}
