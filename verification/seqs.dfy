/**
  Sequence operators that the query pipelines are built from: the `where`
  clause (`Filter`), the predicates handed to it, order-preservation
  (`IsSubsequence`), key distinctness and the first position of a key.
 */
module Seqs {

  /** Keeps the elements satisfying `p`, in their original relative order
      (the semantics of `Enumerable.Where`). */
  function Filter<T(!new)>(s: seq<T>, p: T -> bool): (r: seq<T>)
    ensures |r| <= |s|
    ensures forall i :: 0 <= i < |r| ==> p(r[i])
  {
    if s == [] then []
    else (if p(s[0]) then [s[0]] else []) + Filter(s[1..], p)
  }

  /** The kept elements are exactly the elements satisfying `p`. */
  lemma {:induction false} FilterMembers<T(!new)>(s: seq<T>, p: T -> bool)
    ensures forall x :: x in Filter(s, p) <==> x in s && p(x)
  {
    if s != [] {
      FilterMembers(s[1..], p);
      assert forall x :: x in s <==> x == s[0] || x in s[1..];
    }
  }

  /** The predicate "the key of this element is `k`". Every grouping and
      counting statement uses this one closure, so that two occurrences of
      it denote the same function. */
  function HasKey<T, K(==)>(key: T -> K, k: K): T -> bool
  {
    e => key(e) == k
  }

  /** The complement of a predicate. */
  function Not<T>(p: T -> bool): T -> bool
  {
    e => !p(e)
  }

  /** `a` can be obtained from `b` by deleting elements. */
  predicate IsSubsequence<T(==)>(a: seq<T>, b: seq<T>)
    decreases |b|
  {
    if a == [] then true
    else if b == [] then false
    else if a[0] == b[0] then IsSubsequence(a[1..], b[1..])
    else IsSubsequence(a, b[1..])
  }

  /** No value occurs twice. */
  ghost predicate Distinct<K>(xs: seq<K>)
  {
    forall i, j :: 0 <= i < j < |xs| ==> xs[i] != xs[j]
  }

  /** The position of the first element whose key is `k`, or `|s|` when
      there is none. */
  function FirstIndex<T, K(==)>(s: seq<T>, key: T -> K, k: K): (r: nat)
    ensures r <= |s|
    ensures r < |s| ==> key(s[r]) == k
    ensures forall i :: 0 <= i < r ==> key(s[i]) != k
  {
    if s == [] then 0
    else if key(s[0]) == k then 0
    else 1 + FirstIndex(s[1..], key, k)
  }

  /** A key that no element has is found at `|s|`. */
  lemma {:induction false} FirstIndexAbsent<T, K>(s: seq<T>, key: T -> K, k: K)
    requires forall x :: x in s ==> key(x) != k
    ensures FirstIndex(s, key, k) == |s|
  {
    if s != [] {
      assert s[0] in s;
      assert forall x :: x in s[1..] ==> x in s;
      FirstIndexAbsent(s[1..], key, k);
    }
  }

  /** Filtering distributes over concatenation: relative order is kept
      across the boundary. */
  lemma {:induction false} FilterAppend<T(!new)>(a: seq<T>, b: seq<T>, p: T -> bool)
    ensures Filter(a + b, p) == Filter(a, p) + Filter(b, p)
  {
    if a == [] {
      assert a + b == b;
    } else {
      assert (a + b)[0] == a[0];
      assert (a + b)[1..] == a[1..] + b;
      FilterAppend(a[1..], b, p);
    }
  }

  /** Filtering a one-element extension. */
  lemma {:induction false} FilterSnoc<T(!new)>(s: seq<T>, e: T, p: T -> bool)
    ensures Filter(s + [e], p) == Filter(s, p) + (if p(e) then [e] else [])
  {
    FilterAppend(s, [e], p);
    assert [e][1..] == [];
  }

  /** Nothing satisfies `p`, so nothing is kept. */
  lemma {:induction false} FilterNone<T(!new)>(s: seq<T>, p: T -> bool)
    requires forall x :: x in s ==> !p(x)
    ensures Filter(s, p) == []
  {
    if s != [] {
      assert s[0] in s;
      assert forall x :: x in s[1..] ==> x in s;
      FilterNone(s[1..], p);
    }
  }

  /** Everything satisfies `p`, so everything is kept. */
  lemma {:induction false} FilterAll<T(!new)>(s: seq<T>, p: T -> bool)
    requires forall i :: 0 <= i < |s| ==> p(s[i])
    ensures Filter(s, p) == s
  {
    if s != [] {
      FilterAll(s[1..], p);
    }
  }

  /** A filter keeps its input's order: the result is a subsequence. */
  lemma {:induction false} FilterIsSubsequence<T(!new)>(s: seq<T>, p: T -> bool)
    ensures IsSubsequence(Filter(s, p), s)
  {
    if s != [] {
      FilterIsSubsequence(s[1..], p);
      var rest := Filter(s[1..], p);
      if p(s[0]) {
        var r := [s[0]] + rest;
        assert r[0] == s[0] && r[1..] == rest;
      } else {
        assert Filter(s, p) == rest;
      }
    }
  }

  /** Each value satisfying `p` is kept as often as it occurs; every other
      value is dropped entirely. */
  lemma {:induction false} FilterMultiplicity<T(!new)>(s: seq<T>, p: T -> bool, x: T)
    ensures multiset(Filter(s, p))[x] == if p(x) then multiset(s)[x] else 0
  {
    if s != [] {
      var y, rest := s[0], s[1..];
      FilterMultiplicity(rest, p, x);
      assert s == [y] + rest;
      FilterCons(y, rest, p);
      assert multiset(s) == multiset{y} + multiset(rest);
      assert multiset(Filter(s, p)) == multiset(if p(y) then [y] else []) + multiset(Filter(rest, p));
    }
  }

  /** The kept and the dropped elements together are the input. */
  lemma {:induction false} FilterPartition<T(!new)>(s: seq<T>, p: T -> bool)
    ensures multiset(Filter(s, p)) + multiset(Filter(s, Not(p))) == multiset(s)
  {
    if s != [] {
      var x, rest := s[0], s[1..];
      FilterPartition(rest, p);
      assert s == [x] + rest;
      FilterCons(x, rest, p);
      FilterCons(x, rest, Not(p));
      if p(x) {
        assert Filter(s, Not(p)) == Filter(rest, Not(p));
        assert multiset(Filter(s, p)) == multiset{x} + multiset(Filter(rest, p));
      } else {
        assert Filter(s, p) == Filter(rest, p);
        assert multiset(Filter(s, Not(p))) == multiset{x} + multiset(Filter(rest, Not(p)));
      }
    }
  }

  /** `FilterMultiplicity` for every value at once. */
  lemma {:induction false} FilterMultiplicities<T(!new)>(s: seq<T>, p: T -> bool)
    ensures forall x :: multiset(Filter(s, p))[x] == if p(x) then multiset(s)[x] else 0
  {
    forall x
      ensures multiset(Filter(s, p))[x] == if p(x) then multiset(s)[x] else 0
    {
      FilterMultiplicity(s, p, x);
    }
  }

  /** Predicates that agree on the elements of `s` filter it alike. */
  lemma {:induction false} FilterCongruent<T(!new)>(s: seq<T>, p: T -> bool, q: T -> bool)
    requires forall i :: 0 <= i < |s| ==> p(s[i]) == q(s[i])
    ensures Filter(s, p) == Filter(s, q)
  {
    if s != [] {
      FilterCongruent(s[1..], p, q);
    }
  }

  /** Filtering a sequence that starts with `x`. */
  lemma {:induction false} FilterCons<T(!new)>(x: T, s: seq<T>, p: T -> bool)
    ensures Filter([x] + s, p) == (if p(x) then [x] else []) + Filter(s, p)
  {
    assert ([x] + s)[0] == x && ([x] + s)[1..] == s;
  }

  /** A sequence of distinct booleans has at most two elements. */
  lemma {:induction false} DistinctBools(bs: seq<bool>)
    requires Distinct(bs)
    ensures |bs| <= 2
  {
    if |bs| > 2 {
      ThreeBoolsRepeat(bs);
      assert false;
    }
  }

  /** Among three booleans two are equal. */
  lemma {:induction false} ThreeBoolsRepeat(bs: seq<bool>)
    requires |bs| >= 3
    ensures exists i, j :: 0 <= i < j < |bs| && bs[i] == bs[j]
  {
    if bs[0] == bs[1] {
      assert bs[0] == bs[1];
    } else if bs[0] == bs[2] {
      assert bs[0] == bs[2];
    } else {
      assert bs[1] == bs[2];
    }
  }

  /** Two sequences listing the same values in strictly increasing order of
      a ranking `f` are equal. */
  lemma {:induction false} StrictlyIncreasingUnique<T(!new)>(a: seq<T>, b: seq<T>, f: T -> int)
    requires forall i, j :: 0 <= i < j < |a| ==> f(a[i]) < f(a[j])
    requires forall i, j :: 0 <= i < j < |b| ==> f(b[i]) < f(b[j])
    requires forall x :: x in a <==> x in b
    ensures a == b
  {
    if a == [] {
      NoMembers(b);
    } else {
      assert a[0] in b;
      if b == [] {
        assert false;
      }
      HeadsAgree(a, b, f);
      TailsAgree(a, b, f);
      StrictlyIncreasingUnique(a[1..], b[1..], f);
      assert a == [a[0]] + a[1..] && b == [b[0]] + b[1..];
    }
  }

  /** A sequence without members is empty. */
  lemma NoMembers<T>(s: seq<T>)
    requires forall x :: x !in s
    ensures s == []
  {
    if s != [] {
      HeadIsMember(s);
      assert false;
    }
  }

  lemma HeadIsMember<T>(s: seq<T>)
    ensures |s| > 0 ==> s[0] in s
  {
  }

  /** In a strictly increasing sequence the first element has least rank. */
  lemma RankedFirst<T>(s: seq<T>, f: T -> int, k: int)
    requires forall i, j :: 0 <= i < j < |s| ==> f(s[i]) < f(s[j])
    requires 0 <= k < |s|
    ensures f(s[0]) <= f(s[k])
  {
    if k > 0 {
      assert f(s[0]) < f(s[k]);
    }
  }

  /** Both sequences start with the value of least rank. */
  lemma HeadsAgree<T(!new)>(a: seq<T>, b: seq<T>, f: T -> int)
    requires a != [] && b != []
    requires forall i, j :: 0 <= i < j < |a| ==> f(a[i]) < f(a[j])
    requires forall i, j :: 0 <= i < j < |b| ==> f(b[i]) < f(b[j])
    requires forall x :: x in a <==> x in b
    ensures a[0] == b[0]
  {
    assert a[0] in b && b[0] in a;
    var ka :| 0 <= ka < |b| && b[ka] == a[0];
    var kb :| 0 <= kb < |a| && a[kb] == b[0];
    RankedFirst(b, f, ka);
    RankedFirst(a, f, kb);
    assert ka == 0;
  }

  /** After a common head, the rest list the same values. */
  lemma TailsAgree<T(!new)>(a: seq<T>, b: seq<T>, f: T -> int)
    requires a != [] && b != [] && a[0] == b[0]
    requires forall i, j :: 0 <= i < j < |a| ==> f(a[i]) < f(a[j])
    requires forall i, j :: 0 <= i < j < |b| ==> f(b[i]) < f(b[j])
    requires forall x :: x in a <==> x in b
    ensures forall x :: x in a[1..] <==> x in b[1..]
  {
    forall x
      ensures x in a[1..] ==> x in b[1..]
    {
      if x in a[1..] {
        var k :| 1 <= k < |a| && a[k] == x;
        assert f(a[0]) < f(x);
        assert x in b && x != b[0];
        assert b == [b[0]] + b[1..];
      }
    }
    forall x
      ensures x in b[1..] ==> x in a[1..]
    {
      if x in b[1..] {
        var k :| 1 <= k < |b| && b[k] == x;
        assert f(b[0]) < f(x);
        assert x in a && x != a[0];
        assert a == [a[0]] + a[1..];
      }
    }
  }

  /** When no two elements both satisfy `p`, at most one is kept. */
  lemma {:induction false} FilterAtMostOne<T(!new)>(s: seq<T>, p: T -> bool)
    requires forall i, j :: 0 <= i < j < |s| && p(s[i]) ==> !p(s[j])
    ensures |Filter(s, p)| <= 1
  {
    if s != [] {
      FilterAtMostOne(s[1..], p);
      if p(s[0]) {
        FilterMembers(s[1..], p);
        assert forall x :: x in s[1..] ==> !p(x);
        FilterNone(s[1..], p);
      }
    }
  }

  /** Filtering two permutations of each other gives permutations of each
      other. */
  lemma {:induction false} FilterPermutation<T(!new)>(s: seq<T>, t: seq<T>, p: T -> bool)
    requires multiset(t) == multiset(s)
    ensures multiset(Filter(t, p)) == multiset(Filter(s, p))
  {
    FilterMultiplicities(s, p);
    FilterMultiplicities(t, p);
    assert forall x :: multiset(Filter(t, p))[x] == multiset(Filter(s, p))[x];
  }

  /** Filtering keeps keys that were pairwise distinct pairwise distinct. */
  lemma {:induction false} FilterKeepsDistinct<T(!new), K>(s: seq<T>, p: T -> bool, key: T -> K)
    requires forall i, j :: 0 <= i < j < |s| ==> key(s[i]) != key(s[j])
    ensures forall i, j :: 0 <= i < j < |Filter(s, p)| ==> key(Filter(s, p)[i]) != key(Filter(s, p)[j])
  {
    if s != [] {
      FilterKeepsDistinct(s[1..], p, key);
      var rest := Filter(s[1..], p);
      FilterMembers(s[1..], p);
      if p(s[0]) {
        var r := [s[0]] + rest;
        forall i, j | 0 <= i < j < |r|
          ensures key(r[i]) != key(r[j])
        {
          if i == 0 {
            assert r[j] == rest[j - 1] && rest[j - 1] in s[1..];
            var k :| 0 <= k < |s[1..]| && s[1..][k] == r[j];
            assert s[k + 1] == r[j] && r[0] == s[0];
            assert key(s[0]) != key(s[k + 1]);
          } else {
            assert r[i] == rest[i - 1] && r[j] == rest[j - 1];
            assert 0 <= i - 1 < j - 1 < |rest|;
            assert key(rest[i - 1]) != key(rest[j - 1]);
          }
        }
        assert Filter(s, p) == r;
      } else {
        assert Filter(s, p) == rest;
      }
    }
  }
}
