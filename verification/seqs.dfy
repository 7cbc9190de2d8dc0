/** Sequence operations the LINQ queries are built from: `Where`, `Select`,
    `FirstOrDefault`, `Distinct`, and `OrderBy` on a total preorder. */
module Seqs {
  import opened Outcomes

  predicate NoDups<T(==)>(s: seq<T>) {
    forall i, j :: 0 <= i < j < |s| ==> s[i] != s[j]
  }

  /** No two elements share a key: the shape of a unique index. */
  predicate UniqueBy<T, K(==)>(s: seq<T>, key: T -> K) {
    forall i, j :: 0 <= i < j < |s| ==> key(s[i]) != key(s[j])
  }

  /** The set of elements of a sequence. */
  function Elems<T>(s: seq<T>): set<T> {
    set x | x in s
  }

  // ---------------------------------------------------------------------------
  // Where / Select / FirstOrDefault
  // ---------------------------------------------------------------------------

  /** `Where(p)`: the elements satisfying `p`, in their original order. */
  function Filter<T(!new)>(s: seq<T>, p: T -> bool): (r: seq<T>)
    ensures |r| <= |s|
    ensures forall x :: x in r <==> x in s && p(x)
  {
    if |s| == 0 then [] else (if p(s[0]) then [s[0]] else []) + Filter(s[1..], p)
  }

  lemma {:induction false} FilterConcat<T(!new)>(a: seq<T>, b: seq<T>, p: T -> bool)
    ensures Filter(a + b, p) == Filter(a, p) + Filter(b, p)
    decreases |a|
  {
    if |a| > 0 {
      assert (a + b)[1..] == a[1..] + b;
      FilterConcat(a[1..], b, p);
    } else {
      assert a + b == b;
    }
  }

  lemma {:induction false} FilterKeepsAll<T(!new)>(s: seq<T>, p: T -> bool)
    requires forall x :: x in s ==> p(x)
    ensures Filter(s, p) == s
    decreases |s|
  {
    if |s| > 0 {
      FilterKeepsAll(s[1..], p);
    }
  }

  lemma {:induction false} FilterKeepsNone<T(!new)>(s: seq<T>, p: T -> bool)
    requires forall x :: x in s ==> !p(x)
    ensures Filter(s, p) == []
    decreases |s|
  {
    if |s| > 0 {
      FilterKeepsNone(s[1..], p);
    }
  }

  /** Filtering twice by a condition and a weaker one is filtering by the
      stronger one. */
  lemma {:induction false} FilterOfFilter<T(!new)>(s: seq<T>, p: T -> bool, q: T -> bool)
    requires forall x :: q(x) ==> p(x)
    ensures Filter(Filter(s, p), q) == Filter(s, q)
    decreases |s|
  {
    if |s| > 0 {
      FilterOfFilter(s[1..], p, q);
      var fp := Filter(s, p);
      if p(s[0]) {
        assert fp == [s[0]] + Filter(s[1..], p);
        assert fp[0] == s[0] && fp[1..] == Filter(s[1..], p);
      } else {
        assert fp == Filter(s[1..], p);
      }
    }
  }

  /** Filtering by two conditions that agree on every element gives the same
      list. */
  lemma {:induction false} FilterCongruent<T(!new)>(s: seq<T>, p: T -> bool, q: T -> bool)
    requires forall x :: x in s ==> p(x) == q(x)
    ensures Filter(s, p) == Filter(s, q)
    decreases |s|
  {
    if |s| > 0 {
      FilterCongruent(s[1..], p, q);
    }
  }

  /** A filter keeps every occurrence of a value satisfying `p` and none of
      any other value. */
  lemma {:induction false} FilterMultiset<T(!new)>(s: seq<T>, p: T -> bool)
    ensures forall x :: multiset(Filter(s, p))[x] == if p(x) then multiset(s)[x] else 0
    decreases |s|
  {
    if |s| > 0 {
      FilterMultiset(s[1..], p);
      assert s == [s[0]] + s[1..];
    }
  }

  /** Filtering two permutations of one list gives permutations of one
      list, of the same length. */
  lemma FilterPermutation<T(!new)>(a: seq<T>, b: seq<T>, p: T -> bool)
    requires multiset(a) == multiset(b)
    ensures multiset(Filter(a, p)) == multiset(Filter(b, p))
    ensures |Filter(a, p)| == |Filter(b, p)|
  {
    FilterMultiset(a, p);
    FilterMultiset(b, p);
    assert multiset(Filter(a, p)) == multiset(Filter(b, p));
    assert |multiset(Filter(a, p))| == |Filter(a, p)|;
    assert |multiset(Filter(b, p))| == |Filter(b, p)|;
  }

  lemma {:induction false} FilterPreservesNoDups<T(!new)>(s: seq<T>, p: T -> bool)
    requires NoDups(s)
    ensures NoDups(Filter(s, p))
    decreases |s|
  {
    if |s| > 0 {
      FilterPreservesNoDups(s[1..], p);
    }
  }

  lemma {:induction false} UniqueByFilter<T(!new), K>(s: seq<T>, p: T -> bool, key: T -> K)
    requires UniqueBy(s, key)
    ensures UniqueBy(Filter(s, p), key)
    decreases |s|
  {
    if |s| > 0 {
      var tail := s[1..];
      assert UniqueBy(tail, key) by {
        forall i, j | 0 <= i < j < |tail|
          ensures key(tail[i]) != key(tail[j])
        {
          assert tail[i] == s[i + 1] && tail[j] == s[j + 1];
        }
      }
      UniqueByFilter(tail, p, key);
      var rest := Filter(tail, p);
      if p(s[0]) {
        var r := [s[0]] + rest;
        forall i, j | 0 <= i < j < |r|
          ensures key(r[i]) != key(r[j])
        {
          assert r[j] == rest[j - 1];
          if i == 0 {
            assert r[j] in tail;
            var k :| 0 <= k < |tail| && tail[k] == r[j];
            assert s[k + 1] == r[j];
          } else {
            assert r[i] == rest[i - 1];
          }
        }
      }
    }
  }

  lemma UniqueByConcat<T, K>(a: seq<T>, b: seq<T>, key: T -> K)
    requires UniqueBy(a, key) && UniqueBy(b, key)
    requires forall x, y :: x in a && y in b ==> key(x) != key(y)
    ensures UniqueBy(a + b, key)
  {
    var r := a + b;
    forall i, j | 0 <= i < j < |r|
      ensures key(r[i]) != key(r[j])
    {
      if j < |a| {
        assert r[i] == a[i] && r[j] == a[j];
      } else if i >= |a| {
        assert r[i] == b[i - |a|] && r[j] == b[j - |a|];
      } else {
        assert r[i] in a && r[j] == b[j - |a|] && r[j] in b;
      }
    }
  }

  /** A sequence without elements is empty. */
  lemma NothingIn<T>(s: seq<T>)
    requires forall x :: x !in s
    ensures s == []
  {
    forall x
      ensures multiset(s)[x] == 0
    {
      assert x !in s;
    }
    assert multiset(s) == multiset{};
  }

  /** Filtering keeps a sorted sequence sorted. */
  lemma {:induction false} FilterSorted<T(!new)>(s: seq<T>, p: T -> bool, le: (T, T) -> bool)
    requires SortedBy(s, le)
    ensures SortedBy(Filter(s, p), le)
    decreases |s|
  {
    if |s| > 0 {
      assert SortedBy(s[1..], le);
      FilterSorted(s[1..], p, le);
      var rest := Filter(s[1..], p);
      if p(s[0]) {
        var r := [s[0]] + rest;
        forall i, j | 0 <= i < j < |r|
          ensures le(r[i], r[j])
        {
          assert r[j] == rest[j - 1];
          if i > 0 {
            assert r[i] == rest[i - 1];
          } else {
            assert r[j] in rest && r[j] in s[1..];
            var k :| 0 <= k < |s[1..]| && s[1..][k] == r[j];
            assert s[k + 1] == r[j];
          }
        }
      }
    }
  }

  /** `Select(f)`. */
  function Map<T, U>(s: seq<T>, f: T -> U): (r: seq<U>)
    ensures |r| == |s|
    ensures forall i :: 0 <= i < |s| ==> r[i] == f(s[i])
  {
    seq(|s|, i requires 0 <= i < |s| => f(s[i]))
  }

  /** The elements of `Map(s, f)` are the images of the elements of `s`. */
  lemma MapMembers<T, U>(s: seq<T>, f: T -> U)
    ensures forall x :: x in s ==> f(x) in Map(s, f)
    ensures forall y :: y in Map(s, f) ==> exists x :: x in s && y == f(x)
  {
    var r := Map(s, f);
    forall x | x in s
      ensures f(x) in r
    {
      var i :| 0 <= i < |s| && s[i] == x;
      assert r[i] == f(x);
    }
    forall y | y in r
      ensures exists x :: x in s && y == f(x)
    {
      var i :| 0 <= i < |r| && r[i] == y;
      assert s[i] in s;
    }
  }

  lemma MapConcat<T, U>(a: seq<T>, b: seq<T>, f: T -> U)
    ensures Map(a + b, f) == Map(a, f) + Map(b, f)
  {
    assert forall i :: 0 <= i < |a + b| ==> Map(a + b, f)[i] == (Map(a, f) + Map(b, f))[i];
  }

  /** `Count(p)`. */
  function Count<T(!new)>(s: seq<T>, p: T -> bool): nat {
    |Filter(s, p)|
  }

  /** `FirstOrDefault(p)`: the first element satisfying `p`, or null. */
  function Find<T(!new)>(s: seq<T>, p: T -> bool): (r: Option<T>)
    ensures r.Some? ==> r.value in s && p(r.value)
    ensures r.None? <==> forall x :: x in s ==> !p(x)
  {
    if |s| == 0 then None else if p(s[0]) then Some(s[0]) else Find(s[1..], p)
  }

  /** The element found is the first match: nothing before it satisfies `p`. */
  lemma {:induction false} FindFirst<T(!new)>(s: seq<T>, p: T -> bool)
    requires Find(s, p).Some?
    ensures exists k :: 0 <= k < |s| && s[k] == Find(s, p).value && forall j :: 0 <= j < k ==> !p(s[j])
    decreases |s|
  {
    if !p(s[0]) {
      FindFirst(s[1..], p);
      var k :| 0 <= k < |s| - 1 && s[1..][k] == Find(s, p).value && forall j :: 0 <= j < k ==> !p(s[1..][j]);
      assert s[k + 1] == Find(s, p).value;
      forall j | 0 <= j < k + 1
        ensures !p(s[j])
      {
        if j > 0 { assert s[j] == s[1..][j - 1]; }
      }
    }
  }

  /** Searching a concatenation searches the second part only when the first
      has no match. */
  lemma {:induction false} FindConcat<T(!new)>(a: seq<T>, b: seq<T>, p: T -> bool)
    ensures Find(a + b, p) == if Find(a, p).Some? then Find(a, p) else Find(b, p)
    decreases |a|
  {
    if |a| == 0 {
      assert a + b == b;
    } else {
      assert (a + b)[0] == a[0];
      assert (a + b)[1..] == a[1..] + b;
      FindConcat(a[1..], b, p);
    }
  }

  // ---------------------------------------------------------------------------
  // Distinct
  // ---------------------------------------------------------------------------

  /** `Distinct()`: each element once, at its first occurrence. */
  function Dedup<T(==,!new)>(s: seq<T>): (r: seq<T>)
    ensures NoDups(r)
    ensures forall x :: x in r <==> x in s
  {
    if |s| == 0 then []
    else
      var r := Dedup(s[..|s| - 1]);
      assert forall x :: x in s <==> x in s[..|s| - 1] || x == s[|s| - 1];
      if s[|s| - 1] in r then r else r + [s[|s| - 1]]
  }

  /** `a.Except(b)`: the distinct elements of `a` missing from `b`, in the
      order of their first occurrence. */
  function Except<T(==,!new)>(a: seq<T>, b: seq<T>): (r: seq<T>)
    ensures NoDups(r)
    ensures forall x :: x in r <==> x in a && x !in b
  {
    var d := Dedup(a);
    FilterPreservesNoDups(d, x => x !in b);
    Filter(d, x => x !in b)
  }

  /** A duplicate-free sequence is as long as its set of elements is large. */
  lemma {:induction false} NoDupsCardinality<T>(s: seq<T>)
    requires NoDups(s)
    ensures |Elems(s)| == |s|
    decreases |s|
  {
    if |s| > 0 {
      var init := s[..|s| - 1];
      assert Elems(s) == Elems(init) + {s[|s| - 1]};
      assert s[|s| - 1] !in Elems(init);
      NoDupsCardinality(init);
    }
  }

  /** `Distinct()` keeps as many elements as there are different values. */
  lemma DedupLength<T(!new)>(s: seq<T>)
    ensures |Dedup(s)| == |Elems(s)|
  {
    NoDupsCardinality(Dedup(s));
    assert Elems(Dedup(s)) == Elems(s);
  }

  // ---------------------------------------------------------------------------
  // OrderBy
  // ---------------------------------------------------------------------------

  /** `le` orders every pair and is transitive: the shape of a chain of
      `OrderBy(...).ThenBy(...)` keys. */
  ghost predicate TotalPreorder<T(!new)>(le: (T, T) -> bool) {
    && (forall a, b :: le(a, b) || le(b, a))
    && (forall a, b, c :: le(a, b) && le(b, c) ==> le(a, c))
  }

  predicate SortedBy<T>(s: seq<T>, le: (T, T) -> bool) {
    forall i, j :: 0 <= i < j < |s| ==> le(s[i], s[j])
  }

  function InsertBy<T(!new)>(x: T, s: seq<T>, le: (T, T) -> bool): (r: seq<T>)
    requires TotalPreorder(le) && SortedBy(s, le)
    ensures SortedBy(r, le)
    ensures multiset(r) == multiset(s) + multiset{x}
  {
    if |s| == 0 then [x]
    else if le(x, s[0]) then [x] + s
    else
      var rest := InsertBy(x, s[1..], le);
      assert s == [s[0]] + s[1..];
      InsertedAfterHead(x, s, rest, le);
      SortedCons(s[0], rest, le);
      [s[0]] + rest
  }

  /** Inserting behind the head keeps every element at or above the head. */
  lemma InsertedAfterHead<T(!new)>(x: T, s: seq<T>, rest: seq<T>, le: (T, T) -> bool)
    requires TotalPreorder(le) && SortedBy(s, le) && |s| > 0 && !le(x, s[0])
    requires multiset(rest) == multiset(s[1..]) + multiset{x}
    ensures forall y :: y in rest ==> le(s[0], y)
  {
    forall y | y in rest
      ensures le(s[0], y)
    {
      assert y in multiset(rest);
      if y != x {
        assert y in s[1..];
        var k :| 0 <= k < |s[1..]| && s[1..][k] == y;
        assert s[k + 1] == y;
      }
    }
  }

  /** A head at or below every element of a sorted tail keeps it sorted. */
  lemma SortedCons<T>(a: T, rest: seq<T>, le: (T, T) -> bool)
    requires SortedBy(rest, le) && forall y :: y in rest ==> le(a, y)
    ensures SortedBy([a] + rest, le)
  {
    var r := [a] + rest;
    forall i, j | 0 <= i < j < |r|
      ensures le(r[i], r[j])
    {
      assert r[j] == rest[j - 1];
      if i > 0 {
        assert r[i] == rest[i - 1];
      }
    }
  }

  /** `OrderBy`: a sorted permutation of the input (the store does not promise
      a stable order among equal keys, and neither does this). */
  function SortBy<T(!new)>(s: seq<T>, le: (T, T) -> bool): (r: seq<T>)
    requires TotalPreorder(le)
    ensures SortedBy(r, le)
    ensures multiset(r) == multiset(s)
  {
    if |s| == 0 then []
    else
      assert s == [s[0]] + s[1..];
      InsertBy(s[0], SortBy(s[1..], le), le)
  }

  /** Sorting keeps exactly the elements of its input. */
  lemma SortByElems<T(!new)>(s: seq<T>, le: (T, T) -> bool)
    requires TotalPreorder(le)
    ensures |SortBy(s, le)| == |s|
    ensures forall x :: x in SortBy(s, le) <==> x in s
  {
    var r := SortBy(s, le);
    assert |r| == |multiset(r)| == |multiset(s)| == |s|;
    forall x
      ensures x in r <==> x in s
    {
      assert x in r <==> x in multiset(r);
      assert x in s <==> x in multiset(s);
    }
  }
}
