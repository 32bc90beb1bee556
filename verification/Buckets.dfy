// Bucketing a list by level: the buckets, put together, are a stable sort of the list.
module Buckets {

  /** The elements of s on level h, in the order of s. */
  ghost function AtLevel<T>(s: seq<T>, level: T -> nat, h: nat): seq<T> {
    if s == [] then []
    else
      var front, last := s[..|s| - 1], s[|s| - 1];
      AtLevel(front, level, h) + if level(last) == h then [last] else []
  }

  ghost predicate HasLevel<T>(s: seq<T>, level: T -> nat, h: nat) {
    exists t :: t in s && level(t) == h
  }

  lemma AtLevelAppend<T>(s: seq<T>, t: T, level: T -> nat, h: nat)
    ensures AtLevel(s + [t], level, h) == AtLevel(s, level, h) + if level(t) == h then [t] else []
  {
    assert (s + [t])[..|s|] == s;
  }

  lemma {:induction false} AtLevelMembers<T>(s: seq<T>, level: T -> nat, h: nat)
    ensures forall t :: t in AtLevel(s, level, h) <==> t in s && level(t) == h
  {
    if s != [] {
      var front, last := s[..|s| - 1], s[|s| - 1];
      AtLevelMembers(front, level, h);
      assert s == front + [last];
    }
  }

  lemma {:induction false} AtLevelElement<T>(s: seq<T>, level: T -> nat, h: nat, i: nat)
    requires i < |AtLevel(s, level, h)|
    ensures level(AtLevel(s, level, h)[i]) == h
  {
    if i < |AtLevel(s[..|s| - 1], level, h)| {
      AtLevelElement(s[..|s| - 1], level, h, i);
    }
  }

  lemma {:induction false} AbsentLevelIsEmpty<T>(s: seq<T>, level: T -> nat, h: nat)
    requires !HasLevel(s, level, h)
    ensures AtLevel(s, level, h) == []
  {
    if s != [] {
      assert s[|s| - 1] in s;
      AbsentLevelIsEmpty(s[..|s| - 1], level, h);
    }
  }

  lemma {:induction false} AtLevelOfConcat<T>(a: seq<T>, b: seq<T>, level: T -> nat, h: nat)
    ensures AtLevel(a + b, level, h) == AtLevel(a, level, h) + AtLevel(b, level, h)
    decreases |b|
  {
    if b == [] {
      assert a + b == a;
    } else {
      var front, last := b[..|b| - 1], b[|b| - 1];
      AtLevelOfConcat(a, front, level, h);
      assert a + b == (a + front) + [last];
      AtLevelAppend(a + front, last, level, h);
    }
  }

  lemma {:induction false} AtLevelOfBucket<T>(s: seq<T>, level: T -> nat, g: nat, h: nat)
    ensures AtLevel(AtLevel(s, level, g), level, h) == if g == h then AtLevel(s, level, h) else []
    decreases |s|
  {
    if s != [] {
      var front, last := s[..|s| - 1], s[|s| - 1];
      AtLevelOfBucket(front, level, g, h);
      if level(last) == g {
        AtLevelAppend(AtLevel(front, level, g), last, level, h);
      } else {
        assert AtLevel(s, level, g) == AtLevel(front, level, g);
      }
    }
  }

  /** The buckets 1..n one after the other. */
  ghost function Concatenated<T>(s: seq<T>, level: T -> nat, n: nat): seq<T> {
    if n == 0 then [] else Concatenated(s, level, n - 1) + AtLevel(s, level, n)
  }

  lemma MultisetOfConcat<T>(a: seq<T>, b: seq<T>)
    ensures multiset(a + b) == multiset(a) + multiset(b)
  {
  }

  lemma {:induction false} ConcatenatedTakesOneMore<T>(s: seq<T>, t: T, level: T -> nat, n: nat)
    ensures multiset(Concatenated(s + [t], level, n)) ==
              multiset(Concatenated(s, level, n)) + if 1 <= level(t) <= n then multiset{t} else multiset{}
  {
    if n > 0 {
      ConcatenatedTakesOneMore(s, t, level, n - 1);
      AtLevelAppend(s, t, level, n);
      var m := if 1 <= level(t) <= n - 1 then multiset{t} else multiset{};
      var x := if level(t) == n then [t] else [];
      OneMoreInConcat(Concatenated(s + [t], level, n - 1), Concatenated(s, level, n - 1), AtLevel(s, level, n), m, x);
      assert AtLevel(s + [t], level, n) == AtLevel(s, level, n) + x;
      assert m + multiset(x) == if 1 <= level(t) <= n then multiset{t} else multiset{};
    }
  }

  lemma OneMoreInConcat<T>(a': seq<T>, a: seq<T>, b: seq<T>, m: multiset<T>, x: seq<T>)
    requires multiset(a') == multiset(a) + m
    ensures multiset(a' + (b + x)) == multiset(a + b) + (m + multiset(x))
  {
    MultisetOfConcat(a', b + x);
    MultisetOfConcat(b, x);
    MultisetOfConcat(a, b);
  }

  ghost predicate SortedByLevel<T>(s: seq<T>, level: T -> nat) {
    forall i, j :: 0 <= i < j < |s| ==> level(s[i]) <= level(s[j])
  }

  lemma {:induction false} ConcatenatedIsSorted<T>(s: seq<T>, level: T -> nat, n: nat)
    ensures SortedByLevel(Concatenated(s, level, n), level)
    ensures forall i :: 0 <= i < |Concatenated(s, level, n)| ==> level(Concatenated(s, level, n)[i]) <= n
  {
    if n > 0 {
      ConcatenatedIsSorted(s, level, n - 1);
      var b := AtLevel(s, level, n);
      forall i | 0 <= i < |b| ensures level(b[i]) == n {
        AtLevelElement(s, level, n, i);
      }
      assert Concatenated(s, level, n) == Concatenated(s, level, n - 1) + b;
    }
  }

  lemma {:induction false} ConcatenatedKeepsBuckets<T>(s: seq<T>, level: T -> nat, n: nat, h: nat)
    ensures AtLevel(Concatenated(s, level, n), level, h) == if 1 <= h <= n then AtLevel(s, level, h) else []
  {
    if n > 0 {
      ConcatenatedKeepsBuckets(s, level, n - 1, h);
      AtLevelOfConcat(Concatenated(s, level, n - 1), AtLevel(s, level, n), level, h);
      AtLevelOfBucket(s, level, n, h);
    }
  }

  lemma {:induction false} ConcatenatedIsPermutation<T>(s: seq<T>, level: T -> nat, n: nat)
    requires forall t :: t in s ==> 1 <= level(t) <= n
    ensures multiset(Concatenated(s, level, n)) == multiset(s)
    decreases |s|
  {
    if s == [] {
      ConcatenatedEmpty<T>(level, n);
    } else {
      var front, last := s[..|s| - 1], s[|s| - 1];
      assert s == front + [last];
      assert last in s;
      ConcatenatedIsPermutation(front, level, n);
      ConcatenatedTakesOneMore(front, last, level, n);
      MultisetOfConcat(front, [last]);
    }
  }

  lemma ConcatenatedEmpty<T>(level: T -> nat, n: nat)
    ensures Concatenated([], level, n) == []
  {
  }

  /** The concatenated buckets are a permutation of s, sorted by level, and equal levels keep their order. */
  lemma BucketsAreStableSort<T>(s: seq<T>, level: T -> nat, n: nat)
    requires forall t :: t in s ==> 1 <= level(t) <= n
    ensures multiset(Concatenated(s, level, n)) == multiset(s)
    ensures SortedByLevel(Concatenated(s, level, n), level)
    ensures forall h: nat :: AtLevel(Concatenated(s, level, n), level, h) == AtLevel(s, level, h)
  {
    ConcatenatedIsPermutation(s, level, n);
    ConcatenatedIsSorted(s, level, n);
    forall h: nat ensures AtLevel(Concatenated(s, level, n), level, h) == AtLevel(s, level, h) {
      ConcatenatedKeepsBuckets(s, level, n, h);
      if !(1 <= h <= n) {
        AbsentLevelIsEmpty(s, level, h);
      }
    }
  }
}
