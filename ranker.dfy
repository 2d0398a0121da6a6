/** The order `sorted(dataset, key=sort_key, reverse=True)` puts records in: by key,
    highest first, and records with equal keys in their input order (Python's sort
    is stable, also with `reverse=True`). The order is computed on indices, so that
    "input order" is stated about positions rather than about record values, which
    may repeat. */
module Ranker {

  /** Index i comes before index j in the sorted order. */
  predicate Before(keys: seq<real>, i: nat, j: nat)
    requires i < |keys| && j < |keys|
  {
    keys[i] > keys[j] || (keys[i] == keys[j] && i < j)
  }

  /** `o` lists indices of `keys`, each before the next. */
  predicate Ordered(keys: seq<real>, o: seq<nat>) {
    && (forall k :: 0 <= k < |o| ==> o[k] < |keys|)
    && (forall a, b :: 0 <= a < b < |o| ==> Before(keys, o[a], o[b]))
  }

  /** Inserts index i, larger than every index already in `o`, after every index
      whose key is at least its own. */
  function Insert(keys: seq<real>, o: seq<nat>, i: nat): (r: seq<nat>)
    requires i < |keys| && Ordered(keys, o)
    requires forall k :: 0 <= k < |o| ==> o[k] < i
    ensures |r| == |o| + 1 && Ordered(keys, r)
    ensures forall x :: x in r <==> x in o || x == i
  {
    if |o| == 0 then [i]
    else if keys[o[0]] >= keys[i] then
      var rest := Insert(keys, o[1..], i);
      assert o == [o[0]] + o[1..];
      assert forall b :: 0 <= b < |rest| ==> Before(keys, o[0], rest[b]) by {
        forall b | 0 <= b < |rest| ensures Before(keys, o[0], rest[b]) {
          assert rest[b] in rest;
          if rest[b] != i {
            var a :| 0 <= a < |o[1..]| && o[1..][a] == rest[b];
            assert o[a + 1] == rest[b];
          }
        }
      }
      [o[0]] + rest
    else
      [i] + o
  }

  /** The first n indices of `keys` in sorted order: insertion sort. */
  function StableOrder(keys: seq<real>, n: nat): (o: seq<nat>)
    requires n <= |keys|
    ensures |o| == n && Ordered(keys, o)
    ensures forall x: int :: x in o <==> 0 <= x < n
  {
    if n == 0 then []
    else
      var prev := StableOrder(keys, n - 1);
      assert forall k :: 0 <= k < |prev| ==> prev[k] in prev;
      Insert(keys, prev, n - 1)
  }

  /** The whole sorted order, as `sorted` returns it: a permutation of the indices,
      with keys descending and ties kept in input order. */
  lemma SortedOrder(keys: seq<real>)
    ensures var o := StableOrder(keys, |keys|);
      && |o| == |keys|
      && (forall i :: 0 <= i < |keys| ==> i in o)
      && (forall a, b :: 0 <= a < b < |o| ==> o[a] != o[b])
      && (forall a, b :: 0 <= a < b < |o| ==> keys[o[a]] >= keys[o[b]])
      && (forall a, b :: 0 <= a < b < |o| && keys[o[a]] == keys[o[b]] ==> o[a] < o[b])
  {
  }

  /** Any of the first m indices of the order has a key at least that of any index
      that is not among them. */
  lemma PrefixDominates(keys: seq<real>, m: nat, j: nat)
    requires m <= |keys| && j < |keys|
    requires j !in StableOrder(keys, |keys|)[..m]
    ensures forall a :: 0 <= a < m ==> keys[StableOrder(keys, |keys|)[a]] >= keys[j]
  {
    var o := StableOrder(keys, |keys|);
    assert j in o;
    var b :| 0 <= b < |o| && o[b] == j;
  }

  /** The head of an ordered sequence comes before every other index in it. */
  lemma HeadFirst(keys: seq<real>, o: seq<nat>, x: nat)
    requires Ordered(keys, o) && x in o
    ensures x == o[0] || Before(keys, o[0], x)
  {
    var b :| 0 <= b < |o| && o[b] == x;
    if b > 0 {
      assert Before(keys, o[0], o[b]);
    }
  }

  lemma SameElementsBothEmpty(o1: seq<nat>, o2: seq<nat>)
    requires forall x :: x in o1 <==> x in o2
    ensures |o1| == 0 <==> |o2| == 0
  {
    if |o1| > 0 {
      assert o1[0] in o1;
    }
    if |o2| > 0 {
      assert o2[0] in o2;
    }
  }

  /** Two sequences of the same indices, both ordered, are equal: the stable
      descending order is the only one with these properties. */
  lemma {:induction false} OrderUnique(keys: seq<real>, o1: seq<nat>, o2: seq<nat>)
    requires Ordered(keys, o1) && Ordered(keys, o2)
    requires forall x :: x in o1 <==> x in o2
    ensures o1 == o2
    decreases |o1|
  {
    SameElementsBothEmpty(o1, o2);
    if |o1| > 0 {
      var h1, h2 := o1[0], o2[0];
      HeadFirst(keys, o2, h1);
      HeadFirst(keys, o1, h2);
      forall x ensures x in o1[1..] <==> x in o2[1..] {
        if x in o1[1..] {
          var a :| 1 <= a < |o1| && o1[a] == x;
          assert x != h1;
        }
        if x in o2[1..] {
          var a :| 1 <= a < |o2| && o2[a] == x;
          assert x != h2;
        }
        assert x in o1 <==> x in o1[1..] || x == h1;
        assert x in o2 <==> x in o2[1..] || x == h2;
      }
      OrderUnique(keys, o1[1..], o2[1..]);
      assert o1 == [h1] + o1[1..] && o2 == [h2] + o2[1..];
    }
  }
}
