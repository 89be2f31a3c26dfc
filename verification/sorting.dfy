/**
  The ordering operators: `OrderBy`/`ThenBy` (and their descending forms)
  are one stable sort under a composite comparison. The sort here is an
  insertion sort over a total preorder `leq` ("may come first"); elements
  that `leq` cannot tell apart keep their source order. Also the ordinal
  order on strings used for string sort keys.
 */
module Sorting {
  import opened Seqs

  /** `leq` compares any two values and is transitive. */
  ghost predicate TotalPreorder<T(!new)>(leq: (T, T) -> bool)
  {
    && (forall a, b :: leq(a, b) || leq(b, a))
    && (forall a, b, c :: leq(a, b) && leq(b, c) ==> leq(a, c))
  }

  /** Every element may come before every later one. */
  ghost predicate Sorted<T>(s: seq<T>, leq: (T, T) -> bool)
  {
    forall i, j :: 0 <= i < j < |s| ==> leq(s[i], s[j])
  }

  /** Inserts `x` in front of the first element it may precede. */
  function Insert<T>(x: T, s: seq<T>, leq: (T, T) -> bool): (r: seq<T>)
    ensures multiset(r) == multiset(s) + multiset{x}
  {
    if s == [] then [x]
    else if leq(x, s[0]) then [x] + s
    else
      assert s == [s[0]] + s[1..];
      [s[0]] + Insert(x, s[1..], leq)
  }

  /** Stable sort: the source order of `s` is kept between elements that
      `leq` considers equal. */
  function StableSort<T(!new)>(s: seq<T>, leq: (T, T) -> bool): (r: seq<T>)
    requires TotalPreorder(leq)
    ensures multiset(r) == multiset(s)
    ensures |r| == |s|
    ensures Sorted(r, leq)
  {
    if s == [] then []
    else
      var rest := StableSort(s[1..], leq);
      InsertSorted(s[0], rest, leq);
      assert s == [s[0]] + s[1..];
      assert |multiset(s)| == |s|;
      Insert(s[0], rest, leq)
  }

  /** Inserting into a sorted sequence keeps it sorted. */
  lemma {:induction false} InsertSorted<T(!new)>(x: T, s: seq<T>, leq: (T, T) -> bool)
    requires TotalPreorder(leq)
    requires Sorted(s, leq)
    ensures Sorted(Insert(x, s, leq), leq)
  {
    if s == [] {
    } else if leq(x, s[0]) {
      forall z | z in s
        ensures leq(x, z)
      {
        var k :| 0 <= k < |s| && s[k] == z;
        if k > 0 {
          assert leq(s[0], s[k]);
        }
      }
      SortedCons(x, s, leq);
    } else {
      var tail := Insert(x, s[1..], leq);
      InsertSorted(x, s[1..], leq);
      assert leq(s[0], x);
      forall z | z in tail
        ensures leq(s[0], z)
      {
        assert z in multiset(tail);
        if z != x {
          assert z in multiset(s[1..]);
          var k :| 0 <= k < |s[1..]| && s[1..][k] == z;
          assert s[1..][k] == s[k + 1];
        }
      }
      SortedCons(s[0], tail, leq);
    }
  }

  /** An element that may precede every element of a sorted sequence can
      be put in front of it. */
  lemma {:induction false} SortedCons<T(!new)>(y: T, t: seq<T>, leq: (T, T) -> bool)
    requires Sorted(t, leq)
    requires forall z :: z in t ==> leq(y, z)
    ensures Sorted([y] + t, leq)
  {
    var r := [y] + t;
    forall i, j | 0 <= i < j < |r|
      ensures leq(r[i], r[j])
    {
      assert r[j] == t[j - 1];
      if i == 0 {
        assert t[j - 1] in t;
      } else {
        assert r[i] == t[i - 1];
      }
    }
  }

  /** `p` only holds of elements that `leq` cannot tell apart. */
  ghost predicate EquivalentClass<T(!new)>(p: T -> bool, leq: (T, T) -> bool)
  {
    forall a, b :: p(a) && p(b) ==> leq(a, b)
  }

  /** Inserting `x` puts it in front of all elements equivalent to it. */
  lemma {:induction false} InsertStable<T(!new)>(x: T, s: seq<T>, leq: (T, T) -> bool, p: T -> bool)
    requires EquivalentClass(p, leq)
    ensures Filter(Insert(x, s, leq), p) == (if p(x) then [x] else []) + Filter(s, p)
  {
    if s == [] {
    } else if leq(x, s[0]) {
      FilterCons(x, s, p);
    } else {
      var rest := Insert(x, s[1..], leq);
      assert Insert(x, s, leq) == [s[0]] + rest;
      InsertStable(x, s[1..], leq, p);
      assert p(x) ==> !p(s[0]);
      FilterPassOver(x, s[0], s[1..], rest, p);
      assert s == [s[0]] + s[1..];
    }
  }

  /** Moving `x` past an element of another class leaves the class orders
      unchanged. */
  lemma {:induction false} FilterPassOver<T(!new)>(x: T, y: T, tail: seq<T>, rest: seq<T>, p: T -> bool)
    requires Filter(rest, p) == (if p(x) then [x] else []) + Filter(tail, p)
    requires p(x) ==> !p(y)
    ensures Filter([y] + rest, p) == (if p(x) then [x] else []) + Filter([y] + tail, p)
  {
    FilterCons(y, rest, p);
    FilterCons(y, tail, p);
  }

  /** Stability: among the elements of any class of mutually equivalent
      elements, the sorted sequence has the source order. */
  lemma {:induction false} StableSortStable<T(!new)>(s: seq<T>, leq: (T, T) -> bool, p: T -> bool)
    requires TotalPreorder(leq)
    requires EquivalentClass(p, leq)
    ensures Filter(StableSort(s, leq), p) == Filter(s, p)
  {
    if s != [] {
      StableSortStable(s[1..], leq, p);
      InsertStable(s[0], StableSort(s[1..], leq), leq, p);
    }
  }

  /** The elements `leq` cannot tell apart from `y`. */
  function EquivalentTo<T>(leq: (T, T) -> bool, y: T): T -> bool
  {
    e => leq(e, y) && leq(y, e)
  }

  /** Both sequences list every equivalence class in the same order. */
  ghost predicate SameClassOrder<T(!new)>(a: seq<T>, b: seq<T>, leq: (T, T) -> bool)
  {
    forall y :: Filter(a, EquivalentTo(leq, y)) == Filter(b, EquivalentTo(leq, y))
  }

  /** The first element of a sorted sequence may precede every element. */
  lemma {:induction false} SortedHeadFirst<T(!new)>(a: seq<T>, leq: (T, T) -> bool, y: T)
    requires TotalPreorder(leq)
    requires Sorted(a, leq) && y in multiset(a)
    ensures leq(a[0], y)
  {
    var k :| 0 <= k < |a| && a[k] == y;
    if k == 0 {
      assert leq(y, y) || leq(y, y);
    }
  }

  /** Two sorted permutations agreeing on every class order start alike. */
  lemma {:induction false} SortedHeadsAgree<T(!new)>(a: seq<T>, b: seq<T>, leq: (T, T) -> bool)
    requires TotalPreorder(leq)
    requires Sorted(a, leq) && Sorted(b, leq)
    requires multiset(a) == multiset(b) && a != []
    requires SameClassOrder(a, b, leq)
    ensures b != [] && a[0] == b[0]
  {
    assert a[0] in multiset(b);
    assert b[0] in multiset(a);
    SortedHeadFirst(a, leq, b[0]);
    SortedHeadFirst(b, leq, a[0]);
    SortedHeadFirst(a, leq, a[0]);
    var q := EquivalentTo(leq, a[0]);
    assert q(a[0]) && q(b[0]);
    assert a == [a[0]] + a[1..] && b == [b[0]] + b[1..];
    FilterAppend([a[0]], a[1..], q);
    FilterAppend([b[0]], b[1..], q);
    assert Filter(a, q)[0] == a[0];
    assert Filter(b, q)[0] == b[0];
  }

  /** Dropping a common first element keeps the class orders equal. */
  lemma {:induction false} TailsKeepClassOrder<T(!new)>(a: seq<T>, b: seq<T>, leq: (T, T) -> bool)
    requires a != [] && b != [] && a[0] == b[0]
    requires SameClassOrder(a, b, leq)
    ensures SameClassOrder(a[1..], b[1..], leq)
  {
    forall y
      ensures Filter(a[1..], EquivalentTo(leq, y)) == Filter(b[1..], EquivalentTo(leq, y))
    {
      var p := EquivalentTo(leq, y);
      var head := if p(a[0]) then [a[0]] else [];
      assert Filter(a, p) == head + Filter(a[1..], p);
      assert Filter(b, p) == head + Filter(b[1..], p);
      assert Filter(a[1..], p) == Filter(a, p)[|head|..];
    }
  }

  /** A stable sort has a single possible outcome: two sorted permutations
      that agree on the order inside every equivalence class are equal. So
      `StableSort` is the result of any stable sorting algorithm, in
      particular of the one behind `OrderBy`. */
  lemma {:induction false} StableSortUnique<T(!new)>(a: seq<T>, b: seq<T>, leq: (T, T) -> bool)
    requires TotalPreorder(leq)
    requires Sorted(a, leq) && Sorted(b, leq)
    requires multiset(a) == multiset(b)
    requires SameClassOrder(a, b, leq)
    ensures a == b
  {
    if a == [] {
      assert |multiset(b)| == 0;
    } else {
      SortedHeadsAgree(a, b, leq);
      TailsKeepClassOrder(a, b, leq);
      SortedTail(a, leq);
      SortedTail(b, leq);
      TailsPermutation(a, b);
      StableSortUnique(a[1..], b[1..], leq);
      assert a == [a[0]] + a[1..] && b == [b[0]] + b[1..];
    }
  }

  lemma {:induction false} SortedTail<T(!new)>(a: seq<T>, leq: (T, T) -> bool)
    requires Sorted(a, leq) && a != []
    ensures Sorted(a[1..], leq)
  {
    forall i, j | 0 <= i < j < |a| - 1
      ensures leq(a[1..][i], a[1..][j])
    {
      assert a[1..][i] == a[i + 1] && a[1..][j] == a[j + 1];
    }
  }

  /** Permutations with the same first element have permuted tails. */
  lemma {:induction false} TailsPermutation<T>(a: seq<T>, b: seq<T>)
    requires a != [] && b != [] && a[0] == b[0]
    requires multiset(a) == multiset(b)
    ensures multiset(a[1..]) == multiset(b[1..])
  {
    assert a == [a[0]] + a[1..] && b == [b[0]] + b[1..];
    assert multiset(a) == multiset{a[0]} + multiset(a[1..]);
    assert multiset(b) == multiset{b[0]} + multiset(b[1..]);
    assert multiset(a[1..]) == multiset(a) - multiset{a[0]};
    assert multiset(b[1..]) == multiset(b) - multiset{b[0]};
  }

  /** `StableSort` agrees with its input on the order inside every class. */
  lemma {:induction false} StableSortClassOrder<T(!new)>(s: seq<T>, leq: (T, T) -> bool)
    requires TotalPreorder(leq)
    ensures SameClassOrder(StableSort(s, leq), s, leq)
  {
    forall y
      ensures Filter(StableSort(s, leq), EquivalentTo(leq, y)) == Filter(s, EquivalentTo(leq, y))
    {
      StableSortStable(s, leq, EquivalentTo(leq, y));
    }
  }

  /** Any sorted permutation of `s` keeping the source order inside every
      equivalence class is `StableSort(s, leq)`. */
  lemma {:induction false} StableSortCharacterization<T(!new)>(s: seq<T>, t: seq<T>, leq: (T, T) -> bool)
    requires TotalPreorder(leq)
    requires Sorted(t, leq) && multiset(t) == multiset(s)
    requires SameClassOrder(t, s, leq)
    ensures t == StableSort(s, leq)
  {
    StableSortClassOrder(s, leq);
    StableSortUnique(t, StableSort(s, leq), leq);
  }

  /** When no two elements of `s` are equivalent, sortedness alone fixes
      the order: every sorted permutation of `s` is `StableSort(s, leq)`. */
  lemma {:induction false} SortedPermutationUnique<T(!new)>(s: seq<T>, t: seq<T>, leq: (T, T) -> bool)
    requires TotalPreorder(leq)
    requires forall i, j :: 0 <= i < j < |s| ==> !(leq(s[i], s[j]) && leq(s[j], s[i]))
    requires Sorted(t, leq) && multiset(t) == multiset(s)
    ensures t == StableSort(s, leq)
  {
    forall y
      ensures Filter(t, EquivalentTo(leq, y)) == Filter(s, EquivalentTo(leq, y))
    {
      SingletonClass(s, t, leq, y);
    }
    StableSortCharacterization(s, t, leq);
  }

  /** Two elements equivalent to `y` are equivalent to each other. */
  lemma {:induction false} EquivalentToSame<T(!new)>(leq: (T, T) -> bool, y: T, a: T, b: T)
    requires TotalPreorder(leq)
    ensures EquivalentTo(leq, y)(a) && EquivalentTo(leq, y)(b) ==> leq(a, b) && leq(b, a)
  {
  }

  /** The class of `y` holds at most one element of `s`, so a permutation
      of `s` lists it identically. */
  lemma {:induction false} SingletonClass<T(!new)>(s: seq<T>, t: seq<T>, leq: (T, T) -> bool, y: T)
    requires TotalPreorder(leq)
    requires forall i, j :: 0 <= i < j < |s| ==> !(leq(s[i], s[j]) && leq(s[j], s[i]))
    requires multiset(t) == multiset(s)
    ensures Filter(t, EquivalentTo(leq, y)) == Filter(s, EquivalentTo(leq, y))
  {
    var q := EquivalentTo(leq, y);
    forall i, j | 0 <= i < j < |s| && q(s[i])
      ensures !q(s[j])
    {
      EquivalentToSame(leq, y, s[i], s[j]);
    }
    FilterAtMostOne(s, q);
    FilterPermutation(s, t, q);
    ShortPermutationEqual(Filter(t, q), Filter(s, q));
  }

  /** A permutation of a sequence of at most one element is that sequence. */
  lemma {:induction false} ShortPermutationEqual<T>(a: seq<T>, b: seq<T>)
    requires |b| <= 1 && multiset(a) == multiset(b)
    ensures a == b
  {
    assert |a| == |multiset(a)| == |multiset(b)| == |b|;
    if |a| == 1 {
      assert a[0] in multiset(b);
      assert a == [a[0]] && b == [b[0]];
    }
  }

  /** Ordinal string order: code points left to right, a proper prefix first. */
  predicate StringLe(a: string, b: string)
  {
    if a == [] then true
    else if b == [] then false
    else if a[0] != b[0] then a[0] < b[0]
    else StringLe(a[1..], b[1..])
  }

  lemma {:induction false} StringLeTotal(a: string, b: string)
    ensures StringLe(a, b) || StringLe(b, a)
  {
    if a != [] && b != [] && a[0] == b[0] {
      StringLeTotal(a[1..], b[1..]);
    }
  }

  lemma {:induction false} StringLeTransitive(a: string, b: string, c: string)
    requires StringLe(a, b) && StringLe(b, c)
    ensures StringLe(a, c)
  {
    if a != [] && b != [] && c != [] && a[0] == b[0] && b[0] == c[0] {
      StringLeTransitive(a[1..], b[1..], c[1..]);
    }
  }

  lemma {:induction false} StringLeAntisymmetric(a: string, b: string)
    requires StringLe(a, b) && StringLe(b, a)
    ensures a == b
  {
    if a != [] && b != [] {
      StringLeAntisymmetric(a[1..], b[1..]);
      assert a == [a[0]] + a[1..] && b == [b[0]] + b[1..];
    }
  }
}
