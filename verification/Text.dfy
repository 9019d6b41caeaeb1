/** Strings as the program has them: sequences of bytes, in the order of `strings.Compare`. */
module Text {

  type byte = c: char | c as int < 256 witness 'a'
  type Bytes = seq<byte>

  /** `a` comes no later than `b`. */
  predicate AtMost(a: Bytes, b: Bytes) {
    a == [] || (b != [] && (a[0] < b[0] || (a[0] == b[0] && AtMost(a[1..], b[1..]))))
  }

  lemma AtMostIsTotal(a: Bytes, b: Bytes)
    ensures AtMost(a, b) || AtMost(b, a)
    ensures AtMost(a, b) && AtMost(b, a) ==> a == b
  {
    if a != [] && b != [] {
      AtMostIsTotal(a[1..], b[1..]);
      assert a == [a[0]] + a[1..] && b == [b[0]] + b[1..];
    }
  }

  lemma AtMostIsTransitive(a: Bytes, b: Bytes, c: Bytes)
    requires AtMost(a, b) && AtMost(b, c)
    ensures AtMost(a, c)
  {
    if a != [] && a[0] == b[0] == c[0] {
      AtMostIsTransitive(a[1..], b[1..], c[1..]);
    }
  }

  /** Both are prefixes of one string, so one is a prefix of the other. */
  lemma PrefixesAgree(a: Bytes, b: Bytes, whole: Bytes)
    requires a <= whole && b <= whole && |a| <= |b|
    ensures a <= b
  {
    assert a == whole[..|a|] && b == whole[..|b|];
  }
}

/** Sorting as the library does it: a copy in order, with the elements it was given. */
module Sorting {
  import opened Text

  /** `le` is an order in which any two of `s` can be compared. */
  ghost predicate Orders<T(!new)>(le: (T, T) -> bool) {
    && (forall x, y :: le(x, y) || le(y, x))
    && (forall x, y, z :: le(x, y) && le(y, z) ==> le(x, z))
  }

  /** Elements of `s` that `le` does not tell apart are equal. */
  ghost predicate Distinguishes<T(!new)>(le: (T, T) -> bool, s: seq<T>) {
    forall x, y :: x in s && y in s && le(x, y) && le(y, x) ==> x == y
  }

  ghost predicate Sorted<T(!new)>(s: seq<T>, le: (T, T) -> bool) {
    forall i, j :: 0 <= i < j < |s| ==> le(s[i], s[j])
  }

  /** `x` after every element that comes no later. */
  function Insert<T>(s: seq<T>, x: T, le: (T, T) -> bool): seq<T> {
    if s == [] || le(s[|s| - 1], x) then s + [x]
    else Insert(s[..|s| - 1], x, le) + [s[|s| - 1]]
  }

  function Sort<T>(s: seq<T>, le: (T, T) -> bool): seq<T> {
    if s == [] then [] else Insert(Sort(s[..|s| - 1], le), s[|s| - 1], le)
  }

  lemma SplitLast<T>(s: seq<T>)
    requires s != []
    ensures s == s[..|s| - 1] + [s[|s| - 1]]
    ensures multiset(s) == multiset(s[..|s| - 1]) + multiset{s[|s| - 1]}
    ensures multiset(s[..|s| - 1]) == multiset(s) - multiset{s[|s| - 1]}
  {
    assert s == s[..|s| - 1] + [s[|s| - 1]];
  }

  lemma {:induction false} InsertKeepsElements<T>(s: seq<T>, x: T, le: (T, T) -> bool)
    ensures multiset(Insert(s, x, le)) == multiset(s) + multiset{x}
  {
    if s != [] && !le(s[|s| - 1], x) {
      InsertKeepsElements(s[..|s| - 1], x, le);
      assert s == s[..|s| - 1] + [s[|s| - 1]];
    }
  }

  lemma {:induction false} InsertSorts<T(!new)>(s: seq<T>, x: T, le: (T, T) -> bool)
    requires Orders(le) && Sorted(s, le)
    ensures Sorted(Insert(s, x, le), le)
  {
    if s != [] && !le(s[|s| - 1], x) {
      var front, last := s[..|s| - 1], s[|s| - 1];
      InsertSorts(front, x, le);
      InsertKeepsElements(front, x, le);
      forall y | y in Insert(front, x, le) ensures le(y, last) {
        assert y in multiset(Insert(front, x, le));
        assert y in front || y == x;
      }
    }
  }

  /** The result is in order and has exactly the elements that were given. */
  lemma {:induction false} SortSorts<T(!new)>(s: seq<T>, le: (T, T) -> bool)
    requires Orders(le)
    ensures Sorted(Sort(s, le), le)
    ensures multiset(Sort(s, le)) == multiset(s)
  {
    if s != [] {
      var front := s[..|s| - 1];
      hide Sorted, Orders, Insert;
      SortSorts(front, le);
      InsertSorts(Sort(front, le), s[|s| - 1], le);
      InsertKeepsElements(Sort(front, le), s[|s| - 1], le);
      SplitLast(s);
    }
  }

  lemma SameElements<T>(s: seq<T>, t: seq<T>)
    requires multiset(s) == multiset(t)
    ensures |s| == |t| && forall x :: x in s <==> x in t
  {
    assert |multiset(s)| == |s| && |multiset(t)| == |t|;
    forall x: T ensures x in s <==> x in t {
      assert x in s <==> x in multiset(s);
      assert x in t <==> x in multiset(t);
    }
  }

  /** There is only one way to put given elements in order, if the order tells them apart. */
  lemma {:induction false} SortedIsUnique<T(!new)>(s: seq<T>, t: seq<T>, le: (T, T) -> bool)
    requires Orders(le) && Sorted(s, le) && Sorted(t, le)
    requires multiset(s) == multiset(t) && Distinguishes(le, s)
    ensures s == t
  {
    hide Sorted, Orders, Distinguishes;
    SameElements(s, t);
    if s != [] {
      var n := |s| - 1;
      LastAgrees(s, t, le);
      FrontSorted(s, le);
      FrontSorted(t, le);
      FrontDistinguished(s, le);
      SplitLast(s);
      SplitLast(t);
      SortedIsUnique(s[..n], t[..n], le);
    }
  }

  lemma LastIsGreatest<T(!new)>(s: seq<T>, le: (T, T) -> bool)
    requires Orders(le) && Sorted(s, le) && s != []
    ensures forall x :: x in s ==> le(x, s[|s| - 1])
  {
    assert le(s[|s| - 1], s[|s| - 1]);
  }

  lemma FrontSorted<T(!new)>(s: seq<T>, le: (T, T) -> bool)
    requires Sorted(s, le) && s != []
    ensures Sorted(s[..|s| - 1], le)
  {
  }

  lemma FrontDistinguished<T(!new)>(s: seq<T>, le: (T, T) -> bool)
    requires Distinguishes(le, s) && s != []
    ensures Distinguishes(le, s[..|s| - 1])
  {
    assert forall x :: x in s[..|s| - 1] ==> x in s;
  }

  lemma LastAgrees<T(!new)>(s: seq<T>, t: seq<T>, le: (T, T) -> bool)
    requires Orders(le) && Sorted(s, le) && Sorted(t, le) && s != [] && t != []
    requires (forall x :: x in s <==> x in t) && Distinguishes(le, s)
    ensures s[|s| - 1] == t[|t| - 1]
  {
    LastIsGreatest(s, le);
    LastIsGreatest(t, le);
    assert s[|s| - 1] in t && t[|t| - 1] in s;
  }

  /** The order the elements were given in does not matter. */
  lemma SortIgnoresOrder<T(!new)>(s: seq<T>, t: seq<T>, le: (T, T) -> bool)
    requires Orders(le) && multiset(s) == multiset(t) && Distinguishes(le, s)
    ensures Sort(s, le) == Sort(t, le)
  {
    SortSorts(s, le);
    SortSorts(t, le);
    SameElements(Sort(s, le), s);
    SortedIsUnique(Sort(s, le), Sort(t, le), le);
  }

  /** The elements that `f` finds in each of `s`, all together. */
  function Gather<A, T>(s: seq<A>, f: A -> multiset<T>): multiset<T> {
    if s == [] then multiset{} else Gather(s[..|s| - 1], f) + f(s[|s| - 1])
  }

  lemma {:induction false} GatherWithout<A, T>(s: seq<A>, k: nat, f: A -> multiset<T>)
    requires k < |s|
    ensures Gather(s, f) == Gather(s[..k] + s[k + 1..], f) + f(s[k])
  {
    var n := |s| - 1;
    var without := s[..k] + s[k + 1..];
    if k == n {
      assert without == s[..n];
    } else {
      GatherWithout(s[..n], k, f);
      assert without[..n - 1] == s[..n][..k] + s[..n][k + 1..];
      assert without[n - 1] == s[n];
    }
  }

  /** Gathering takes no notice of order. */
  lemma {:induction false} GatherIgnoresOrder<A, T>(s: seq<A>, t: seq<A>, f: A -> multiset<T>)
    requires multiset(s) == multiset(t)
    ensures Gather(s, f) == Gather(t, f)
  {
    SameElements(s, t);
    if s != [] {
      var n := |s| - 1;
      assert s[n] in s && s[n] in t;
      var k :| 0 <= k < |t| && t[k] == s[n];
      SplitLast(s);
      assert t == t[..k] + [t[k]] + t[k + 1..];
      GatherIgnoresOrder(s[..n], t[..k] + t[k + 1..], f);
      GatherWithout(t, k, f);
    }
  }

  /** Each part is among what is gathered. */
  lemma {:induction false} GatherHolds<A, T>(s: seq<A>, k: nat, f: A -> multiset<T>)
    requires k < |s|
    ensures f(s[k]) <= Gather(s, f)
  {
    GatherWithout(s, k, f);
  }

  ghost predicate Once<T(!new)>(bag: multiset<T>) {
    forall x :: bag[x] <= 1
  }

  lemma OnceMore<T(!new)>(bag: multiset<T>, x: T)
    ensures Once(bag + multiset{x}) <==> Once(bag) && x !in bag
  {
    var more := bag + multiset{x};
    assert more[x] == bag[x] + 1;
    if Once(more) {
      forall y ensures bag[y] <= 1 {
        assert bag[y] <= more[y];
      }
    } else if Once(bag) {
      var y :| more[y] > 1;
      assert y == x;
    }
  }

  /** The order of strings orders any of them, and tells them apart. */
  lemma OrdersBytes(s: seq<Bytes>)
    ensures Orders(AtMost) && Distinguishes(AtMost, s)
  {
    forall a: Bytes, b: Bytes ensures (AtMost(a, b) || AtMost(b, a)) && (AtMost(a, b) && AtMost(b, a) ==> a == b) {
      AtMostIsTotal(a, b);
    }
    forall a: Bytes, b: Bytes, c: Bytes | AtMost(a, b) && AtMost(b, c) ensures AtMost(a, c) {
      AtMostIsTransitive(a, b, c);
    }
  }
}
