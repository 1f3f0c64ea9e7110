/**
 * The `sumBy` extension: the BigDecimal sum of a selector over a list, and
 * how such sums split over a partition of the list.
 */
module Aggregation {
  import opened Decimals
  import opened Sequences

  /** The exact sum of the numbers the selected values stand for. */
  ghost function RealSum<T>(xs: seq<T>, selector: T -> Decimal): real {
    if xs == [] then 0.0
    else RealSum(xs[..|xs| - 1], selector) + Value(selector(xs[|xs| - 1]))
  }

  /**
   * The sum sumBy computes, as a specification: BigDecimal.ZERO plus the
   * selected value of each element, added in list order. No rounding
   * happens, so it stands for the exact total.
   */
  function Sum<T>(xs: seq<T>, selector: T -> Decimal): (r: Decimal)
    ensures Value(r) == RealSum(xs, selector)
  {
    if xs == [] then Zero
    else
      var init := Sum(xs[..|xs| - 1], selector);
      AddIsExact(init, selector(xs[|xs| - 1]));
      Add(init, selector(xs[|xs| - 1]))
  }

  /** `Iterable<T>.sumBy(selector)`: a running sum from ZERO, one element at a time. */
  method SumBy<T>(xs: seq<T>, selector: T -> Decimal) returns (sum: Decimal)
    ensures sum == Sum(xs, selector)
  {
    sum := Zero;
    for i := 0 to |xs|
      invariant sum == Sum(xs[..i], selector)
    {
      assert xs[..i + 1][..i] == xs[..i];
      sum := Add(sum, selector(xs[i]));
    }
    assert xs[..|xs|] == xs;
  }

  /** The sum over a concatenation is the sum of the two sums, scale included. */
  lemma {:induction false} SumAppend<T>(xs: seq<T>, ys: seq<T>, selector: T -> Decimal)
    ensures Sum(xs + ys, selector) == Add(Sum(xs, selector), Sum(ys, selector))
  {
    if ys == [] {
      assert xs + ys == xs;
      AddZero(Sum(xs, selector));
    } else {
      var init, last := ys[..|ys| - 1], ys[|ys| - 1];
      assert (xs + ys)[..|xs + ys| - 1] == xs + init;
      SumAppend(xs, init, selector);
      AddAssociates(Sum(xs, selector), Sum(init, selector), selector(last));
    }
  }

  /** A list of decimals added up from the left, starting from ZERO. */
  function Total(ds: seq<Decimal>): Decimal {
    if ds == [] then Zero else Add(ds[0], Total(ds[1..]))
  }

  /** For each key, the sum over the elements with that key. */
  function SumsByKey<T(!new), K(==,!new)>(xs: seq<T>, selector: T -> Decimal, key: T -> K, ks: seq<K>): (r: seq<Decimal>)
    ensures |r| == |ks|
    ensures forall i :: 0 <= i < |ks| ==> r[i] == Sum(Filter(xs, key, ks[i]), selector)
  {
    if ks == [] then []
    else [Sum(Filter(xs, key, ks[0]), selector)] + SumsByKey(xs, selector, key, ks[1..])
  }

  /** An element whose key is not listed leaves the per-key sums unchanged. */
  lemma SumsByKeyOtherKey<T(!new), K(!new)>(xs: seq<T>, x: T, selector: T -> Decimal, key: T -> K, ks: seq<K>)
    requires key(x) !in ks
    ensures SumsByKey(xs + [x], selector, key, ks) == SumsByKey(xs, selector, key, ks)
  {
    var a, b := SumsByKey(xs + [x], selector, key, ks), SumsByKey(xs, selector, key, ks);
    forall i | 0 <= i < |ks| ensures a[i] == b[i] {
      assert (xs + [x])[..|xs|] == xs;
      assert Filter(xs + [x], key, ks[i]) == Filter(xs, key, ks[i]);
    }
  }

  /** Appending an element adds its value to the total of the per-key sums. */
  lemma {:induction false} TotalOfSumsByKeyAppend<T(!new), K(!new)>(xs: seq<T>, x: T, selector: T -> Decimal, key: T -> K, ks: seq<K>)
    requires Distinct(ks) && key(x) in ks
    ensures Total(SumsByKey(xs + [x], selector, key, ks))
         == Add(Total(SumsByKey(xs, selector, key, ks)), selector(x))
  {
    var xs' := xs + [x];
    assert xs'[..|xs'| - 1] == xs;
    var k, rest := ks[0], ks[1..];
    var s, f := Sum(Filter(xs, key, k), selector), selector(x);
    var r := Total(SumsByKey(xs, selector, key, rest));
    if key(x) == k {
      assert key(x) !in rest;
      SumsByKeyOtherKey(xs, x, selector, key, rest);
      assert Sum(Filter(xs', key, k), selector) == Add(s, f);
      // (s + f) + r == (s + r) + f
      AddAssociates(s, f, r);
      AddCommutes(f, r);
      AddAssociates(s, r, f);
    } else {
      TotalOfSumsByKeyAppend(xs, x, selector, key, rest);
      assert Filter(xs', key, k) == Filter(xs, key, k);
      // s + (r + f) == (s + r) + f
      AddAssociates(s, r, f);
    }
  }

  /**
   * Summing a list is summing each part of a partition and adding the
   * results: `ks` lists every key that occurs, each once.
   */
  lemma {:induction false} SumPartition<T(!new), K(!new)>(xs: seq<T>, selector: T -> Decimal, key: T -> K, ks: seq<K>)
    requires Distinct(ks)
    requires forall x :: x in xs ==> key(x) in ks
    ensures Sum(xs, selector) == Total(SumsByKey(xs, selector, key, ks))
  {
    if xs == [] {
      TotalOfEmptyParts(selector, key, ks);
    } else {
      var init, last := xs[..|xs| - 1], xs[|xs| - 1];
      assert xs == init + [last];
      SumPartition(init, selector, key, ks);
      TotalOfSumsByKeyAppend(init, last, selector, key, ks);
    }
  }

  lemma {:induction false} TotalOfEmptyParts<T(!new), K(!new)>(selector: T -> Decimal, key: T -> K, ks: seq<K>)
    ensures Total(SumsByKey([], selector, key, ks)) == Zero
  {
    if ks != [] {
      TotalOfEmptyParts(selector, key, ks[1..]);
    }
  }
}
