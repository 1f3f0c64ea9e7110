/**
 * The Kotlin collection operations the report is built from: filtering by a
 * key, flatten, map lookup with an empty-list default, and groupBy.
 */
module Sequences {

  ghost predicate Distinct<T>(s: seq<T>) {
    forall i, j :: 0 <= i < j < |s| ==> s[i] != s[j]
  }

  /** The elements of `xs` whose key is `k`, in their order in `xs`. */
  function Filter<T(!new), K(==,!new)>(xs: seq<T>, key: T -> K, k: K): (r: seq<T>)
    ensures |r| <= |xs|
    ensures forall x :: x in r <==> x in xs && key(x) == k
  {
    if xs == [] then []
    else
      var last := xs[|xs| - 1];
      Filter(xs[..|xs| - 1], key, k) + (if key(last) == k then [last] else [])
  }

  lemma {:induction false} FilterAppend<T(!new), K(!new)>(a: seq<T>, b: seq<T>, key: T -> K, k: K)
    ensures Filter(a + b, key, k) == Filter(a, key, k) + Filter(b, key, k)
  {
    if b != [] {
      var last := b[|b| - 1];
      assert (a + b)[..|a + b| - 1] == a + b[..|b| - 1];
      FilterAppend(a, b[..|b| - 1], key, k);
    } else {
      assert a + b == a;
    }
  }

  /** Filtering by two keys gives the same list in either order. */
  lemma {:induction false} FilterCommutes<T(!new), K1(!new), K2(!new)>(xs: seq<T>, key1: T -> K1, k1: K1, key2: T -> K2, k2: K2)
    ensures Filter(Filter(xs, key1, k1), key2, k2) == Filter(Filter(xs, key2, k2), key1, k1)
  {
    if xs != [] {
      var init, last := xs[..|xs| - 1], xs[|xs| - 1];
      FilterCommutes(init, key1, k1, key2, k2);
      FilterAppend(Filter(init, key1, k1), if key1(last) == k1 then [last] else [], key2, k2);
      FilterAppend(Filter(init, key2, k2), if key2(last) == k2 then [last] else [], key1, k1);
    }
  }

  /** The elements of `xs` whose key is `k` when no element has key `k`. */
  lemma FilterAbsentKey<T(!new), K(!new)>(xs: seq<T>, key: T -> K, k: K)
    requires forall x :: x in xs ==> key(x) != k
    ensures Filter(xs, key, k) == []
  {
  }

  /** Kotlin `flatten`: the lists one after another. */
  function Flatten<T>(xss: seq<seq<T>>): seq<T> {
    if xss == [] then [] else xss[0] + Flatten(xss[1..])
  }

  /**
   * Building a list element by element from a list of inputs: when the
   * head and each later result stand in `rel` to their inputs, so does
   * every element of the whole.
   */
  lemma ConsRelated<A, B>(xs: seq<A>, y: B, ys: seq<B>, rel: (A, B) -> bool)
    requires xs != [] && |ys| == |xs| - 1 && rel(xs[0], y)
    requires forall i :: 0 <= i < |ys| ==> rel(xs[1..][i], ys[i])
    ensures forall i :: 0 <= i < |xs| ==> rel(xs[i], ([y] + ys)[i])
  {
    forall i | 0 < i < |xs|
      ensures rel(xs[i], ([y] + ys)[i])
    {
      assert xs[i] == xs[1..][i - 1] && ([y] + ys)[i] == ys[i - 1];
    }
  }

  /** `m[k] ?: emptyList()`. */
  function Lookup<K, V>(m: map<K, seq<V>>, k: K): seq<V> {
    if k in m then m[k] else []
  }

  /**
   * Kotlin `groupBy(key)`: one bucket per key that occurs, holding the
   * elements with that key in their original order. The elements are visited
   * in order and each is appended to its key's bucket (created empty when the
   * key is first seen), so no bucket is ever empty.
   */
  function GroupBy<T(!new), K(==,!new)>(xs: seq<T>, key: T -> K): (g: map<K, seq<T>>)
    ensures forall k :: k in g <==> exists x :: x in xs && key(x) == k
    ensures forall k :: k in g ==> g[k] == Filter(xs, key, k) && g[k] != []
  {
    if xs == [] then map[]
    else
      var init, last := xs[..|xs| - 1], xs[|xs| - 1];
      var g := GroupBy(init, key);
      assert forall x :: x in xs <==> x in init || x == last;
      assert Lookup(g, key(last)) == Filter(init, key, key(last)) by {
        if key(last) !in g { FilterAbsentKey(init, key, key(last)); }
      }
      g[key(last) := Lookup(g, key(last)) + [last]]
  }

  /**
   * The buckets partition the list: an element is in the bucket of its own
   * key and in no other, and a missing key reads as the empty list.
   */
  lemma GroupByPartitions<T(!new), K(!new)>(xs: seq<T>, key: T -> K, k: K)
    ensures Lookup(GroupBy(xs, key), k) == Filter(xs, key, k)
    ensures forall x :: x in Lookup(GroupBy(xs, key), k) <==> x in xs && key(x) == k
  {
    if k !in GroupBy(xs, key) {
      FilterAbsentKey(xs, key, k);
    }
  }

  // ---------------------------------------------------------------------
  // toSortedSet on integer keys

  predicate StrictlyAscending(s: seq<int>) {
    forall i, j :: 0 <= i < j < |s| ==> s[i] < s[j]
  }

  /** Adds `y` to a sorted set held as a strictly ascending list. */
  function InsertSorted(s: seq<int>, y: int): (r: seq<int>)
    requires StrictlyAscending(s)
    ensures StrictlyAscending(r)
    ensures forall z :: z in r <==> z in s || z == y
  {
    if s == [] then [y]
    else if y < s[0] then [y] + s
    else if y == s[0] then s
    else
      var tail := s[1..];
      var rest := InsertSorted(tail, y);
      forall k | 0 <= k < |rest| ensures s[0] < rest[k] {
        assert rest[k] in rest;
        if rest[k] != y {
          var i :| 0 <= i < |tail| && tail[i] == rest[k];
          assert s[i + 1] == rest[k];
        }
      }
      assert s == [s[0]] + tail;
      [s[0]] + rest
  }

  /**
   * The keys of the elements of `xs` as a sorted set (TreeSet), read in
   * iteration order: every key once, smallest first.
   */
  function SortedKeys<T(!new)>(xs: seq<T>, key: T -> int): (r: seq<int>)
    ensures StrictlyAscending(r)
    ensures forall y :: y in r <==> exists x :: x in xs && key(x) == y
  {
    if xs == [] then []
    else
      var init, last := xs[..|xs| - 1], xs[|xs| - 1];
      assert forall x :: x in xs <==> x in init || x == last;
      InsertSorted(SortedKeys(init, key), key(last))
  }

  lemma StrictlyAscendingIsDistinct(s: seq<int>)
    requires StrictlyAscending(s)
    ensures Distinct(s)
  {
  }
}
