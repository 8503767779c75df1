/**
 * The stable sort behind `Stream.sorted(comparator)` on an ordered stream,
 * for comparators that compare one integer key. `Comparator.reversed()`
 * is the same sort on the negated key.
 */
module StableSort {
  import opened Sequences

  /** `s` is in non-decreasing order of `key`. */
  ghost predicate SortedBy<T>(s: seq<T>, key: T -> int) {
    forall i, j :: 0 <= i < j < |s| ==> key(s[i]) <= key(s[j])
  }

  /** `s` is in strictly increasing order of `key`. */
  ghost predicate StrictlySortedBy<T>(s: seq<T>, key: T -> int) {
    forall i, j :: 0 <= i < j < |s| ==> key(s[i]) < key(s[j])
  }

  /** Puts `x` in front of the first element whose key is not smaller. */
  function Insert<T>(x: T, s: seq<T>, key: T -> int): (r: seq<T>)
    ensures multiset(r) == multiset(s) + multiset{x}
  {
    if s == [] || key(x) <= key(s[0]) then [x] + s
    else
      assert s == [s[0]] + s[1..];
      [s[0]] + Insert(x, s[1..], key)
  }

  lemma InsertMembers<T>(x: T, s: seq<T>, key: T -> int)
    ensures forall y :: y in Insert(x, s, key) ==> y == x || y in s
  {
    var r := Insert(x, s, key);
    forall y | y in r
      ensures y == x || y in s
    {
      assert y in multiset(r);
    }
  }

  /** Putting an element no larger than all others in front of a sorted sequence keeps it sorted. */
  lemma SortedCons<T>(a: T, s: seq<T>, key: T -> int)
    requires SortedBy(s, key)
    requires forall y :: y in s ==> key(a) <= key(y)
    ensures SortedBy([a] + s, key)
  {
    var r := [a] + s;
    forall i, j | 0 <= i < j < |r|
      ensures key(r[i]) <= key(r[j])
    {
      assert r[j] == s[j - 1];
      if i > 0 {
        assert r[i] == s[i - 1];
      }
    }
  }

  lemma StrictlySortedCons<T>(a: T, s: seq<T>, key: T -> int)
    requires StrictlySortedBy(s, key)
    requires forall y :: y in s ==> key(a) < key(y)
    ensures StrictlySortedBy([a] + s, key)
  {
    var r := [a] + s;
    forall i, j | 0 <= i < j < |r|
      ensures key(r[i]) < key(r[j])
    {
      assert r[j] == s[j - 1];
      if i > 0 {
        assert r[i] == s[i - 1];
      }
    }
  }

  /** Inserting into a sorted sequence keeps it sorted. */
  lemma {:induction false} InsertSorted<T>(x: T, s: seq<T>, key: T -> int)
    requires SortedBy(s, key)
    ensures SortedBy(Insert(x, s, key), key)
  {
    if s == [] || key(x) <= key(s[0]) {
      forall y | y in s
        ensures key(x) <= key(y)
      {
      }
      SortedCons(x, s, key);
    } else {
      var rest := Insert(x, s[1..], key);
      InsertSorted(x, s[1..], key);
      InsertMembers(x, s[1..], key);
      forall y | y in rest
        ensures key(s[0]) <= key(y)
      {
        if y != x {
          var k :| 0 <= k < |s[1..]| && s[1..][k] == y;
          assert s[k + 1] == y;
        }
      }
      SortedCons(s[0], rest, key);
    }
  }

  /** Stable insertion sort, ascending by `key`. */
  function SortBy<T>(s: seq<T>, key: T -> int): (r: seq<T>)
    ensures SortedBy(r, key)
    ensures multiset(r) == multiset(s)
  {
    if s == [] then []
    else
      assert s == [s[0]] + s[1..];
      var sorted := SortBy(s[1..], key);
      assert SortedBy(Insert(s[0], sorted, key), key) by {
        InsertSorted(s[0], sorted, key);
      }
      Insert(s[0], sorted, key)
  }

  lemma {:induction false} InsertKeyFilter<T>(x: T, s: seq<T>, key: T -> int, k: int, p: T -> bool)
    requires forall y :: p(y) <==> key(y) == k
    ensures Filter(Insert(x, s, key), p) == if p(x) then [x] + Filter(s, p) else Filter(s, p)
  {
    if s == [] || key(x) <= key(s[0]) {
      assert ([x] + s)[0] == x && ([x] + s)[1..] == s;
    } else {
      var t := [s[0]] + Insert(x, s[1..], key);
      assert t[0] == s[0] && t[1..] == Insert(x, s[1..], key);
      assert s == [s[0]] + s[1..];
      InsertKeyFilter(x, s[1..], key, k, p);
    }
  }

  /**
   * Stability: the elements sharing a key keep their input order. `p` is
   * any test that holds exactly of the elements with key `k`.
   */
  lemma {:induction false} SortByStable<T>(s: seq<T>, key: T -> int, k: int, p: T -> bool)
    requires forall y :: p(y) <==> key(y) == k
    ensures Filter(SortBy(s, key), p) == Filter(s, p)
  {
    if s != [] {
      assert s == [s[0]] + s[1..];
      SortByStable(s[1..], key, k, p);
      InsertKeyFilter(s[0], SortBy(s[1..], key), key, k, p);
    }
  }

  lemma {:induction false} InsertStrict<T>(x: T, s: seq<T>, key: T -> int)
    requires StrictlySortedBy(s, key)
    requires forall y :: y in s ==> key(y) != key(x)
    ensures StrictlySortedBy(Insert(x, s, key), key)
  {
    if s == [] || key(x) <= key(s[0]) {
      forall y | y in s
        ensures key(x) < key(y)
      {
        var k :| 0 <= k < |s| && s[k] == y;
        if k > 0 {
          assert key(s[0]) < key(s[k]);
        }
      }
      StrictlySortedCons(x, s, key);
    } else {
      var rest := Insert(x, s[1..], key);
      InsertStrict(x, s[1..], key);
      InsertMembers(x, s[1..], key);
      forall y | y in rest
        ensures key(s[0]) < key(y)
      {
        if y != x {
          var k :| 0 <= k < |s[1..]| && s[1..][k] == y;
          assert s[k + 1] == y;
        }
      }
      StrictlySortedCons(s[0], rest, key);
    }
  }

  /** When no two elements share a key, the sorted result is strictly increasing. */
  lemma {:induction false} SortByStrict<T>(s: seq<T>, key: T -> int)
    requires DistinctKeys(s, key)
    ensures StrictlySortedBy(SortBy(s, key), key)
  {
    if s != [] {
      SortByStrict(s[1..], key);
      var sorted := SortBy(s[1..], key);
      forall y | y in sorted
        ensures key(y) != key(s[0])
      {
        assert y in multiset(sorted);
        var k :| 0 <= k < |s[1..]| && s[1..][k] == y;
        assert s[k + 1] == y;
      }
      InsertStrict(s[0], sorted, key);
    }
  }
}
