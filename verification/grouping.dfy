/**
  `Enumerable.GroupBy` and the `Count()` reduction applied to its groups.
  Grouping works like the lookup behind `GroupBy`: each element is appended
  to the group of its key, and an element whose key has not been seen opens
  a new group at the end. Hence the group keys come in first-occurrence
  order and each group keeps its elements in source order.
 */
module Grouping {
  import opened Seqs

  datatype Group<K, T> = Group(key: K, items: seq<T>)

  /** The key of every group, in group order. */
  function Keys<K, T>(gs: seq<Group<K, T>>): (ks: seq<K>)
    ensures |ks| == |gs|
    ensures forall i :: 0 <= i < |gs| ==> ks[i] == gs[i].key
  {
    if gs == [] then [] else [gs[0].key] + Keys(gs[1..])
  }

  /** Distinct keys, stated on the groups themselves. */
  lemma {:induction false} GroupKeysDistinct<K, T>(gs: seq<Group<K, T>>)
    requires Distinct(Keys(gs))
    ensures forall i, j :: 0 <= i < j < |gs| ==> gs[i].key != gs[j].key
  {
    var ks := Keys(gs);
    forall i, j | 0 <= i < j < |gs|
      ensures gs[i].key != gs[j].key
    {
      assert ks[i] == gs[i].key && ks[j] == gs[j].key;
      assert ks[i] != ks[j];
    }
  }

  /** The elements of all groups, group after group. */
  function Flatten<K, T>(gs: seq<Group<K, T>>): seq<T>
  {
    if gs == [] then [] else gs[0].items + Flatten(gs[1..])
  }

  /** Adds `e`, whose key is `k`, to the group for `k`, opening that group
      at the end when there is none. */
  function AddTo<K(==), T>(gs: seq<Group<K, T>>, k: K, e: T): seq<Group<K, T>>
  {
    if gs == [] then
      [Group(k, [e])]
    else if gs[0].key == k then
      [Group(k, gs[0].items + [e])] + gs[1..]
    else
      [gs[0]] + AddTo(gs[1..], k, e)
  }

  /** Adding keeps the existing keys and their order; a new key goes last. */
  lemma {:induction false} AddToKeys<K, T>(gs: seq<Group<K, T>>, k: K, e: T)
    ensures Keys(AddTo(gs, k, e)) == if k in Keys(gs) then Keys(gs) else Keys(gs) + [k]
  {
    if gs != [] {
      var r := AddTo(gs, k, e);
      assert Keys(gs) == [gs[0].key] + Keys(gs[1..]);
      if gs[0].key == k {
        assert r[1..] == gs[1..];
        assert Keys(r) == [k] + Keys(gs[1..]);
      } else {
        AddToKeys(gs[1..], k, e);
        assert r[1..] == AddTo(gs[1..], k, e);
        assert Keys(r) == [gs[0].key] + Keys(AddTo(gs[1..], k, e));
        assert k in Keys(gs) <==> k in Keys(gs[1..]);
      }
    }
  }

  /** With distinct keys, adding appends `e` to exactly the group for `k`. */
  lemma {:induction false} AddToItems<K, T>(gs: seq<Group<K, T>>, k: K, e: T)
    requires Distinct(Keys(gs))
    ensures var r := AddTo(gs, k, e);
            forall i :: 0 <= i < |r| ==>
              r[i].items == (if i < |gs| then gs[i].items else []) + (if r[i].key == k then [e] else [])
  {
    if gs != [] {
      var r := AddTo(gs, k, e);
      if gs[0].key == k {
        forall i | 1 <= i < |gs|
          ensures gs[i].key != k
        {
          assert Keys(gs)[0] != Keys(gs)[i];
        }
      } else {
        var t := gs[1..];
        assert Distinct(Keys(t)) by {
          forall i, j | 0 <= i < j < |t|
            ensures Keys(t)[i] != Keys(t)[j]
          {
            assert Keys(gs)[i + 1] != Keys(gs)[j + 1];
          }
        }
        AddToItems(t, k, e);
        assert forall i :: 1 <= i < |r| ==> r[i] == AddTo(t, k, e)[i - 1];
      }
    }
  }

  /** Adding `e` adds exactly `e` to the flattened groups. */
  lemma {:induction false} AddToFlatten<K, T>(gs: seq<Group<K, T>>, k: K, e: T)
    ensures multiset(Flatten(AddTo(gs, k, e))) == multiset(Flatten(gs)) + multiset{e}
  {
    if gs != [] {
      var r := AddTo(gs, k, e);
      if gs[0].key == k {
        assert r[1..] == gs[1..];
      } else {
        AddToFlatten(gs[1..], k, e);
        assert r[1..] == AddTo(gs[1..], k, e);
      }
    }
  }

  /** `s` grouped by `key`, keys in first-occurrence order. */
  function GroupBy<T(!new), K(==)>(s: seq<T>, key: T -> K): (r: seq<Group<K, T>>)
    ensures Distinct(Keys(r))
    ensures forall i :: 0 <= i < |r| ==> r[i].items == Filter(s, HasKey(key, r[i].key))
    ensures forall i :: 0 <= i < |r| ==> r[i].items != []
    ensures forall x :: x in s ==> key(x) in Keys(r)
    ensures multiset(Flatten(r)) == multiset(s)
    decreases |s|, 1
  {
    if s == [] then []
    else
      var init := s[..|s| - 1];
      var e := s[|s| - 1];
      assert s == init + [e];
      var r := AddTo(GroupBy(init, key), key(e), e);
      GroupByStep(init, e, key);
      r
  }

  /** The inductive step of `GroupBy`: adding the last element. */
  lemma {:induction false} GroupByStep<T(!new), K>(init: seq<T>, e: T, key: T -> K)
    ensures var r := AddTo(GroupBy(init, key), key(e), e);
            && Distinct(Keys(r))
            && (forall i :: 0 <= i < |r| ==> r[i].items == Filter(init + [e], HasKey(key, r[i].key)))
            && (forall i :: 0 <= i < |r| ==> r[i].items != [])
            && (forall x :: x in init + [e] ==> key(x) in Keys(r))
            && multiset(Flatten(r)) == multiset(init + [e])
    decreases |init| + 1, 0
  {
    var g := GroupBy(init, key);
    AddToFlatten(g, key(e), e);
    StepKeys(g, key(e), e);
    StepItems(init, e, key, g);
    StepCovers(init, e, key, g);
  }

  lemma {:induction false} StepKeys<K, T>(g: seq<Group<K, T>>, k: K, e: T)
    requires Distinct(Keys(g))
    requires forall i :: 0 <= i < |g| ==> g[i].items != []
    ensures var r := AddTo(g, k, e);
            && Distinct(Keys(r))
            && (forall i :: 0 <= i < |r| ==> r[i].items != [])
  {
    var r := AddTo(g, k, e);
    AddToKeys(g, k, e);
    AddToItems(g, k, e);
    if k !in Keys(g) {
      forall i, j | 0 <= i < j < |r|
        ensures Keys(r)[i] != Keys(r)[j]
      {
        if j == |g| {
          assert Keys(r)[i] == Keys(g)[i];
        }
      }
    }
    forall i | 0 <= i < |r|
      ensures r[i].items != []
    {
      if i == |g| {
        assert Keys(r)[i] == k;
      }
    }
  }

  lemma {:induction false} StepItems<T(!new), K>(init: seq<T>, e: T, key: T -> K, g: seq<Group<K, T>>)
    requires Distinct(Keys(g))
    requires forall i :: 0 <= i < |g| ==> g[i].items == Filter(init, HasKey(key, g[i].key))
    requires forall x :: x in init ==> key(x) in Keys(g)
    ensures var r := AddTo(g, key(e), e);
            forall i :: 0 <= i < |r| ==> r[i].items == Filter(init + [e], HasKey(key, r[i].key))
  {
    var r := AddTo(g, key(e), e);
    AddToKeys(g, key(e), e);
    AddToItems(g, key(e), e);
    forall i | 0 <= i < |r|
      ensures r[i].items == Filter(init + [e], HasKey(key, r[i].key))
    {
      var k := r[i].key;
      FilterSnoc(init, e, HasKey(key, k));
      if i < |g| {
        assert Keys(r)[i] == Keys(g)[i];
      } else {
        assert k == key(e) && key(e) !in Keys(g);
        FilterNone(init, HasKey(key, k));
      }
    }
  }

  lemma {:induction false} StepCovers<T(!new), K>(init: seq<T>, e: T, key: T -> K, g: seq<Group<K, T>>)
    requires forall x :: x in init ==> key(x) in Keys(g)
    ensures forall x :: x in init + [e] ==> key(x) in Keys(AddTo(g, key(e), e))
  {
    AddToKeys(g, key(e), e);
  }

  /** The groups' keys occur in `s`, earlier groups' keys earlier. */
  ghost predicate FirstOccurrenceOrder<T, K>(gs: seq<Group<K, T>>, s: seq<T>, key: T -> K)
  {
    && (forall i :: 0 <= i < |gs| ==> FirstIndex(s, key, gs[i].key) < |s|)
    && (forall i, j :: 0 <= i < j < |gs| ==>
          FirstIndex(s, key, gs[i].key) < FirstIndex(s, key, gs[j].key))
  }

  /** Every group key occurs in `s`, and earlier groups have keys that
      occur earlier in `s`. */
  lemma {:induction false} GroupByFirstOccurrence<T(!new), K>(s: seq<T>, key: T -> K)
    ensures FirstOccurrenceOrder(GroupBy(s, key), s, key)
    decreases |s|
  {
    if s != [] {
      var init := s[..|s| - 1];
      var e := s[|s| - 1];
      assert s == init + [e];
      GroupByFirstOccurrence(init, key);
      StepFirstOccurrence(init, e, key, GroupBy(init, key));
    }
  }

  lemma {:induction false} StepFirstOccurrence<T, K>(init: seq<T>, e: T, key: T -> K, g: seq<Group<K, T>>)
    requires FirstOccurrenceOrder(g, init, key)
    requires forall x :: x in init ==> key(x) in Keys(g)
    ensures FirstOccurrenceOrder(AddTo(g, key(e), e), init + [e], key)
  {
    var s := init + [e];
    var r := AddTo(g, key(e), e);
    forall i | 0 <= i < |r|
      ensures FirstIndex(s, key, r[i].key) < |s|
    {
      StepKeyPosition(init, e, key, g, i);
    }
    forall i, j | 0 <= i < j < |r|
      ensures FirstIndex(s, key, r[i].key) < FirstIndex(s, key, r[j].key)
    {
      StepKeyPosition(init, e, key, g, i);
      StepKeyPosition(init, e, key, g, j);
    }
  }

  /** After adding `e`, the key of an old group keeps its first position
      in the input; a new group's key first occurs at `e`. */
  lemma {:induction false} StepKeyPosition<T, K>(init: seq<T>, e: T, key: T -> K, g: seq<Group<K, T>>, i: int)
    requires FirstOccurrenceOrder(g, init, key)
    requires forall x :: x in init ==> key(x) in Keys(g)
    requires 0 <= i < |AddTo(g, key(e), e)|
    ensures var r := AddTo(g, key(e), e);
      if i < |g| then
        r[i].key == g[i].key && FirstIndex(init + [e], key, r[i].key) == FirstIndex(init, key, g[i].key) < |init|
      else
        i == |g| && FirstIndex(init + [e], key, r[i].key) == |init|
  {
    var r := AddTo(g, key(e), e);
    AddToKeys(g, key(e), e);
    FirstIndexSnoc(init, e, key, r[i].key);
    if i < |g| {
      assert Keys(r)[i] == Keys(g)[i];
    } else {
      assert r[i].key == Keys(r)[i] == key(e) && key(e) !in Keys(g);
      FirstIndexAbsent(init, key, key(e));
    }
  }

  /** The first position of a key in a one-element extension. */
  lemma {:induction false} FirstIndexSnoc<T, K>(s: seq<T>, e: T, key: T -> K, k: K)
    ensures FirstIndex(s + [e], key, k) ==
      if FirstIndex(s, key, k) < |s| then FirstIndex(s, key, k)
      else if key(e) == k then |s| else |s| + 1
  {
    if s != [] {
      assert (s + [e])[1..] == s[1..] + [e];
      FirstIndexSnoc(s[1..], e, key, k);
    }
  }

  /** The reduction `{ Key, Count() }` of each group. */
  datatype KeyCount<K> = KeyCount(key: K, count: nat)

  function CountGroups<K, T>(gs: seq<Group<K, T>>): (r: seq<KeyCount<K>>)
    ensures |r| == |gs|
    ensures forall i :: 0 <= i < |r| ==> r[i] == KeyCount(gs[i].key, |gs[i].items|)
  {
    if gs == [] then [] else [KeyCount(gs[0].key, |gs[0].items|)] + CountGroups(gs[1..])
  }

  /** The counts of all groups add up to the number of grouped elements. */
  lemma {:induction false} CountGroupsSum<K, T>(gs: seq<Group<K, T>>)
    ensures SumCounts(CountGroups(gs)) == |Flatten(gs)|
  {
    if gs != [] {
      CountGroupsSum(gs[1..]);
      assert CountGroups(gs)[1..] == CountGroups(gs[1..]);
    }
  }

  function SumCounts<K>(cs: seq<KeyCount<K>>): nat
  {
    if cs == [] then 0 else cs[0].count + SumCounts(cs[1..])
  }

  /** What a per-key count of `s` promises: distinct keys in first-occurrence
      order, every key of `s` present, each count positive and equal to the
      number of elements with that key, and the counts adding up to `|s|`. */
  ghost predicate IsCountBy<T(!new), K>(cs: seq<KeyCount<K>>, s: seq<T>, key: T -> K)
  {
    && (forall i, j :: 0 <= i < j < |cs| ==> cs[i].key != cs[j].key)
    && (forall i :: 0 <= i < |cs| ==> 1 <= cs[i].count == |Filter(s, HasKey(key, cs[i].key))|)
    && (forall x :: x in s ==> exists i :: 0 <= i < |cs| && cs[i].key == key(x))
    && (forall i, j :: 0 <= i < j < |cs| ==>
          FirstIndex(s, key, cs[i].key) < FirstIndex(s, key, cs[j].key))
    && SumCounts(cs) == |s|
    && (cs == [] <==> s == [])
  }

  /** `s.GroupBy(key).Select(g => new { g.Key, Count = g.Count() })`. */
  function CountBy<T(!new), K(==)>(s: seq<T>, key: T -> K): (r: seq<KeyCount<K>>)
    ensures IsCountBy(r, s, key)
  {
    var gs := GroupBy(s, key);
    GroupByFirstOccurrence(s, key);
    CountGroupsMeaning(gs, s, key);
    CountGroups(gs)
  }

  /** Counting the groups of a first-occurrence grouping of `s`. */
  lemma {:induction false} CountGroupsMeaning<T(!new), K>(gs: seq<Group<K, T>>, s: seq<T>, key: T -> K)
    requires Distinct(Keys(gs))
    requires forall i :: 0 <= i < |gs| ==> gs[i].items == Filter(s, HasKey(key, gs[i].key))
    requires forall i :: 0 <= i < |gs| ==> gs[i].items != []
    requires forall x :: x in s ==> key(x) in Keys(gs)
    requires multiset(Flatten(gs)) == multiset(s)
    requires FirstOccurrenceOrder(gs, s, key)
    ensures IsCountBy(CountGroups(gs), s, key)
  {
    var r := CountGroups(gs);
    CountDistinct(gs);
    CountSizes(gs, s, key);
    CountCovers(gs, r, s, key);
    CountOrder(gs, s, key);
    CountGroupsSum(gs);
    assert |Flatten(gs)| == |multiset(Flatten(gs))| == |multiset(s)| == |s|;
    if s != [] {
      assert key(s[0]) in Keys(gs);
    }
  }

  lemma {:induction false} CountDistinct<K, T>(gs: seq<Group<K, T>>)
    requires Distinct(Keys(gs))
    ensures var r := CountGroups(gs);
            forall i, j :: 0 <= i < j < |r| ==> r[i].key != r[j].key
  {
    var r := CountGroups(gs);
    forall i, j | 0 <= i < j < |r|
      ensures r[i].key != r[j].key
    {
      assert Keys(gs)[i] != Keys(gs)[j];
    }
  }

  lemma {:induction false} CountSizes<T(!new), K>(gs: seq<Group<K, T>>, s: seq<T>, key: T -> K)
    requires forall i :: 0 <= i < |gs| ==> gs[i].items == Filter(s, HasKey(key, gs[i].key))
    requires forall i :: 0 <= i < |gs| ==> gs[i].items != []
    ensures var r := CountGroups(gs);
            forall i :: 0 <= i < |r| ==> 1 <= r[i].count == |Filter(s, HasKey(key, r[i].key))|
  {
  }

  lemma {:induction false} CountCovers<T(!new), K>(gs: seq<Group<K, T>>, cs: seq<KeyCount<K>>, s: seq<T>, key: T -> K)
    requires cs == CountGroups(gs)
    requires forall x :: x in s ==> key(x) in Keys(gs)
    ensures forall x :: x in s ==> exists i :: 0 <= i < |cs| && cs[i].key == key(x)
  {
    forall x | x in s
      ensures exists i :: 0 <= i < |cs| && cs[i].key == key(x)
    {
      CountHasKey(gs, key(x));
    }
  }

  lemma {:induction false} CountHasKey<K, T>(gs: seq<Group<K, T>>, k: K)
    requires k in Keys(gs)
    ensures exists i :: 0 <= i < |CountGroups(gs)| && CountGroups(gs)[i].key == k
  {
    var n := KeyPosition(gs, k);
    assert CountGroups(gs)[n].key == k;
  }

  /** Where a key sits among the groups. */
  lemma {:induction false} KeyPosition<K, T>(gs: seq<Group<K, T>>, k: K) returns (n: nat)
    requires k in Keys(gs)
    ensures n < |gs| && gs[n].key == k
  {
    n :| 0 <= n < |Keys(gs)| && Keys(gs)[n] == k;
  }

  lemma {:induction false} CountOrder<T, K>(gs: seq<Group<K, T>>, s: seq<T>, key: T -> K)
    requires FirstOccurrenceOrder(gs, s, key)
    ensures var r := CountGroups(gs);
            forall i, j :: 0 <= i < j < |r| ==>
              FirstIndex(s, key, r[i].key) < FirstIndex(s, key, r[j].key)
  {
  }

  /** `IsCountBy` is a complete specification: the counts of `s` by `key`
      can be listed in one way only, and `CountBy` lists them so. */
  lemma {:induction false} CountByUnique<T(!new), K(!new)>(cs: seq<KeyCount<K>>, s: seq<T>, key: T -> K)
    requires IsCountBy(cs, s, key)
    ensures cs == CountBy(s, key)
  {
    var ds := CountBy(s, key);
    var rank := (c: KeyCount<K>) => FirstIndex(s, key, c.key);
    CountsAgree(cs, ds, s, key);
    CountsAgree(ds, cs, s, key);
    StrictlyIncreasingUnique(cs, ds, rank);
  }

  /** Every entry of one count of `s` by `key` is an entry of another. */
  lemma {:induction false} CountsAgree<T(!new), K>(cs: seq<KeyCount<K>>, ds: seq<KeyCount<K>>, s: seq<T>, key: T -> K)
    requires IsCountBy(cs, s, key) && IsCountBy(ds, s, key)
    ensures forall x :: x in cs ==> x in ds
  {
    forall x | x in cs
      ensures x in ds
    {
      var p := HasKey(key, x.key);
      FilterMembers(s, p);
      var y := Filter(s, p)[0];
      assert y in s && key(y) == x.key;
      var j :| 0 <= j < |ds| && ds[j].key == key(y);
      assert ds[j] == x;
    }
  }
}
