/** Sequence operations that the service's stream pipelines are built from. */
module Sequences {

  /** The elements of `s` that satisfy `p`, in their original order (Stream.filter). */
  function Filter<T>(s: seq<T>, p: T -> bool): (r: seq<T>)
    ensures |r| <= |s|
    ensures forall x :: x in r ==> p(x) && x in s
  {
    if s == [] then []
    else
      assert s == [s[0]] + s[1..];
      var rest := Filter(s[1..], p);
      if p(s[0]) then [s[0]] + rest else rest
  }

  /** Filtering keeps every copy of an element that passes and none of one that fails. */
  lemma {:induction false} FilterMultiset<T>(s: seq<T>, p: T -> bool)
    ensures forall x :: x in s ==> multiset(Filter(s, p))[x] == if p(x) then multiset(s)[x] else 0
  {
    if s != [] {
      assert s == [s[0]] + s[1..];
      FilterMultiset(s[1..], p);
    }
  }

  /** At most the first `n` elements of `s` (Stream.limit). */
  function Take<T>(s: seq<T>, n: nat): (r: seq<T>)
    ensures r <= s
    ensures |r| == if |s| < n then |s| else n
  {
    if |s| <= n then s else s[..n]
  }

  /** No two positions of `s` share a key. */
  ghost predicate DistinctKeys<T>(s: seq<T>, key: T -> int) {
    forall i, j :: 0 <= i < j < |s| ==> key(s[i]) != key(s[j])
  }

  /** Filtering distributes over concatenation. */
  lemma {:induction false} FilterAppend<T>(a: seq<T>, b: seq<T>, p: T -> bool)
    ensures Filter(a + b, p) == Filter(a, p) + Filter(b, p)
  {
    if a == [] {
      assert a + b == b;
    } else {
      assert (a + b)[0] == a[0];
      assert (a + b)[1..] == a[1..] + b;
      FilterAppend(a[1..], b, p);
    }
  }

  /** The length of a filtered sequence is the number of positions whose element passes. */
  lemma {:induction false} FilterLengthIsPositionCount<T>(s: seq<T>, p: T -> bool)
    ensures |Filter(s, p)| == |PassingPositions(s, p)|
  {
    if s == [] {
      assert PassingPositions(s, p) == {};
    } else {
      var init, last := s[..|s| - 1], s[|s| - 1];
      assert s == init + [last];
      FilterAppend(init, [last], p);
      FilterLengthIsPositionCount(init, p);
      assert Filter([last], p) == if p(last) then [last] else [];
      PassingPositionsSnoc(init, last, p);
    }
  }

  /** The positions of `s` whose element satisfies `p`. */
  ghost function PassingPositions<T>(s: seq<T>, p: T -> bool): set<int> {
    set i | 0 <= i < |s| && p(s[i])
  }

  lemma PassingPositionsSnoc<T>(init: seq<T>, last: T, p: T -> bool)
    ensures |PassingPositions(init + [last], p)| == |PassingPositions(init, p)| + if p(last) then 1 else 0
  {
    var s := init + [last];
    var before, after := PassingPositions(init, p), PassingPositions(s, p);
    forall i | 0 <= i < |s|
      ensures i in after <==> i in before || (i == |init| && p(last))
    {
      if i < |init| {
        assert s[i] == init[i];
      }
    }
    if p(last) {
      assert after == before + {|init|};
    } else {
      assert after == before;
    }
  }

  /** Filtering keeps a subsequence, so keys that were distinct stay distinct. */
  lemma {:induction false} FilterDistinctKeys<T>(s: seq<T>, p: T -> bool, key: T -> int)
    requires DistinctKeys(s, key)
    ensures DistinctKeys(Filter(s, p), key)
  {
    if s != [] {
      FilterDistinctKeys(s[1..], p, key);
      var rest := Filter(s[1..], p);
      forall y | y in rest
        ensures key(s[0]) != key(y)
      {
        var k :| 0 <= k < |s[1..]| && s[1..][k] == y;
        assert s[k + 1] == y;
      }
    }
  }

  /** A filter every element passes keeps the whole list. */
  lemma {:induction false} FilterKeepsAll<T>(s: seq<T>, p: T -> bool)
    requires forall x :: x in s ==> p(x)
    ensures Filter(s, p) == s
  {
    if s != [] {
      assert s == [s[0]] + s[1..];
      FilterKeepsAll(s[1..], p);
    }
  }
}
