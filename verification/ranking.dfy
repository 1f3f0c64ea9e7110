/**
 * Kotlin `sortedByDescending(selector).take(n)`: a stable sort on a key,
 * largest first, then the first n elements. Keys are compared as numbers
 * (BigDecimal.compareTo), so keys are the reals the decimals stand for.
 */
module Ranking {
  import opened Sequences

  /** Keys never increase along the list. */
  predicate SortedDescending<T>(s: seq<T>, key: T -> real) {
    forall i, j :: 0 <= i < j < |s| ==> key(s[i]) >= key(s[j])
  }

  /** Places x after every element whose key is at least its own. */
  function Insert<T(!new)>(s: seq<T>, x: T, key: T -> real): (r: seq<T>)
    requires SortedDescending(s, key)
    ensures SortedDescending(r, key)
    ensures |r| == |s| + 1
    ensures multiset(r) == multiset(s) + multiset{x}
  {
    if s == [] then [x]
    else if key(x) > key(s[0]) then [x] + s
    else
      var rest := Insert(s[1..], x, key);
      assert s == [s[0]] + s[1..];
      HeadStaysFirst(s, rest, x, key);
      [s[0]] + rest
  }

  lemma HeadStaysFirst<T>(s: seq<T>, rest: seq<T>, x: T, key: T -> real)
    requires |s| > 0 && SortedDescending(s, key) && key(x) <= key(s[0])
    requires SortedDescending(rest, key)
    requires multiset(rest) == multiset(s[1..]) + multiset{x}
    ensures SortedDescending([s[0]] + rest, key)
  {
    forall j | 0 <= j < |rest| ensures key(s[0]) >= key(rest[j]) {
      var y := rest[j];
      assert y in multiset(rest);
      if y != x {
        assert y in multiset(s[1..]);
        var i :| 0 <= i < |s[1..]| && s[1..][i] == y;
        assert s[i + 1] == y;
      }
    }
  }

  /**
   * `sortedByDescending(key)`: largest key first; the sort is stable, so
   * elements with equal keys keep their order. Each element in turn is
   * placed after all earlier ones whose key is at least its own.
   */
  function SortedByDescending<T(!new)>(xs: seq<T>, key: T -> real): (r: seq<T>)
    ensures SortedDescending(r, key)
    ensures multiset(r) == multiset(xs)
    ensures |r| == |xs|
  {
    if xs == [] then []
    else
      var init, last := xs[..|xs| - 1], xs[|xs| - 1];
      assert xs == init + [last];
      Insert(SortedByDescending(init, key), last, key)
  }

  function Min(a: nat, b: nat): nat { if a < b then a else b }

  /**
   * `sortedByDescending(key).take(n)`: min(n, |xs|) elements drawn from
   * xs, largest key first.
   */
  function Top<T(!new)>(xs: seq<T>, key: T -> real, n: nat): (r: seq<T>)
    ensures |r| == Min(n, |xs|)
    ensures SortedDescending(r, key)
    ensures multiset(r) <= multiset(xs)
  {
    var sorted := SortedByDescending(xs, key);
    var k := Min(n, |sorted|);
    assert sorted == sorted[..k] + sorted[k..];
    sorted[..k]
  }

  lemma FilterSingleton<T(!new)>(x: T, key: T -> real, v: real)
    ensures Filter([x], key, v) == if key(x) == v then [x] else []
  {
    assert [x][..0] == [];
  }

  lemma FilterCons<T(!new)>(x: T, s: seq<T>, key: T -> real, v: real)
    ensures Filter([x] + s, key, v) == (if key(x) == v then [x] else []) + Filter(s, key, v)
  {
    FilterAppend([x], s, key, v);
    FilterSingleton(x, key, v);
  }

  /** Inserting x puts it after every element of equal key. */
  lemma {:induction false} InsertKeepsTies<T(!new)>(s: seq<T>, x: T, key: T -> real, v: real)
    requires SortedDescending(s, key)
    ensures Filter(Insert(s, x, key), key, v) == Filter(s, key, v) + (if key(x) == v then [x] else [])
  {
    if s == [] {
      FilterSingleton(x, key, v);
    } else if key(x) > key(s[0]) {
      InsertInFront(s, x, key, v);
    } else {
      InsertKeepsTies(s[1..], x, key, v);
      FilterConsBoth(s[0], Insert(s[1..], x, key), s[1..], if key(x) == v then [x] else [], key, v);
      assert [s[0]] + s[1..] == s;
    }
  }

  lemma InsertInFront<T(!new)>(s: seq<T>, x: T, key: T -> real, v: real)
    requires SortedDescending(s, key) && s != [] && key(x) > key(s[0])
    ensures Filter(Insert(s, x, key), key, v) == Filter(s, key, v) + (if key(x) == v then [x] else [])
  {
    assert Insert(s, x, key) == [x] + s;
    FilterCons(x, s, key, v);
    if key(x) == v {
      NoTiesBelowLargerKey(s, key, v);
    }
  }

  /** Putting the same element in front of two lists keeps a relation between their filters. */
  lemma FilterConsBoth<T(!new)>(y: T, rest: seq<T>, tail: seq<T>, e: seq<T>, key: T -> real, v: real)
    requires Filter(rest, key, v) == Filter(tail, key, v) + e
    ensures Filter([y] + rest, key, v) == Filter([y] + tail, key, v) + e
  {
    var h: seq<T> := if key(y) == v then [y] else [];
    FilterCons(y, rest, key, v);
    FilterCons(y, tail, key, v);
    ConcatAssociates(h, Filter(tail, key, v), e);
  }

  lemma ConcatAssociates<T>(a: seq<T>, b: seq<T>, c: seq<T>)
    ensures a + (b + c) == (a + b) + c
  {
  }

  /** No element of a descending list has a key above its first one. */
  lemma NoTiesBelowLargerKey<T(!new)>(s: seq<T>, key: T -> real, v: real)
    requires s != [] && SortedDescending(s, key) && v > key(s[0])
    ensures Filter(s, key, v) == []
  {
    forall y | y in s ensures key(y) != v {
      var i :| 0 <= i < |s| && s[i] == y;
      assert key(s[0]) >= key(s[i]);
    }
    FilterAbsentKey(s, key, v);
  }

  /** The sort is stable: the elements of any one key keep their input order. */
  lemma {:induction false} SortIsStable<T(!new)>(xs: seq<T>, key: T -> real, v: real)
    ensures Filter(SortedByDescending(xs, key), key, v) == Filter(xs, key, v)
  {
    if xs != [] {
      var init, last := xs[..|xs| - 1], xs[|xs| - 1];
      SortIsStable(init, key, v);
      InsertKeepsTies(SortedByDescending(init, key), last, key, v);
    }
  }

  /** No element left out of the first n has a larger key than one kept. */
  lemma TopIsLargest<T(!new)>(xs: seq<T>, key: T -> real, n: nat)
    ensures forall x, y :: x in Top(xs, key, n) && y in multiset(xs) - multiset(Top(xs, key, n)) ==> key(x) >= key(y)
  {
    var sorted := SortedByDescending(xs, key);
    var k := Min(n, |sorted|);
    TopLeavesRest(xs, key, n);
    SplitDominates(sorted, k, key);
  }

  /** What the first n leave out of the input is the rest of the sorted list. */
  lemma TopLeavesRest<T(!new)>(xs: seq<T>, key: T -> real, n: nat)
    ensures var sorted := SortedByDescending(xs, key);
      var k := Min(n, |sorted|);
      Top(xs, key, n) == sorted[..k] && multiset(xs) - multiset(Top(xs, key, n)) == multiset(sorted[k..])
  {
    var sorted := SortedByDescending(xs, key);
    var k := Min(n, |sorted|);
    var top, rest := sorted[..k], sorted[k..];
    assert sorted == top + rest;
    assert multiset(sorted) == multiset(top) + multiset(rest);
  }

  /** In a descending list, every element before position k dominates every one after. */
  lemma SplitDominates<T(!new)>(sorted: seq<T>, k: nat, key: T -> real)
    requires k <= |sorted| && SortedDescending(sorted, key)
    ensures forall x, y :: x in sorted[..k] && y in multiset(sorted[k..]) ==> key(x) >= key(y)
  {
    forall x, y | x in sorted[..k] && y in multiset(sorted[k..]) ensures key(x) >= key(y) {
      LeftPartDominates(sorted, k, x, y, key);
    }
  }

  lemma LeftPartDominates<T(!new)>(sorted: seq<T>, k: nat, x: T, y: T, key: T -> real)
    requires k <= |sorted| && SortedDescending(sorted, key)
    requires x in sorted[..k] && y in multiset(sorted[k..])
    ensures key(x) >= key(y)
  {
    var top, rest := sorted[..k], sorted[k..];
    assert y in rest;
    var i :| 0 <= i < |top| && top[i] == x;
    var j :| 0 <= j < |rest| && rest[j] == y;
    assert sorted[i] == x && sorted[k + j] == y;
  }

  /**
   * Among elements of equal key, the ones that make the first n are the
   * earliest in the input: the top's elements of each key are a prefix of
   * the input's elements of that key.
   */
  lemma TopPrefersEarlierTies<T(!new)>(xs: seq<T>, key: T -> real, n: nat, v: real)
    ensures Filter(Top(xs, key, n), key, v) <= Filter(xs, key, v)
  {
    var sorted := SortedByDescending(xs, key);
    var k := Min(n, |sorted|);
    assert sorted == sorted[..k] + sorted[k..];
    FilterAppend(sorted[..k], sorted[k..], key, v);
    SortIsStable(xs, key, v);
  }
}
