/** The price-statistics analyser `stock_prices` (stocks.py:72-93).
    Prices are mathematical reals: the float rounding of `sum / len`
    and of the median's halving is not modelled. */
module Analysis {
  import opened Wrappers

  /** One record of the output list, with the keys of the dictionary the
      analyser builds: "min", "max", "avg", "medium" (the median) and "ticker". */
  datatype StatsRecord = StatsRecord(min: real, max: real, avg: real, medium: real, ticker: string)

  /** `m` is an element of `s` and no element of `s` is smaller. */
  predicate IsLeast(m: real, s: seq<real>) {
    m in s && forall i :: 0 <= i < |s| ==> m <= s[i]
  }

  /** `m` is an element of `s` and no element of `s` is larger. */
  predicate IsGreatest(m: real, s: seq<real>) {
    m in s && forall i :: 0 <= i < |s| ==> s[i] <= m
  }

  /** Python's `min` over a non-empty list. */
  function Min(s: seq<real>): (m: real)
    requires |s| > 0
    ensures IsLeast(m, s)
  {
    if |s| == 1 then s[0]
    else
      var rest := Min(s[1..]);
      if s[0] <= rest then s[0] else rest
  }

  /** Python's `max` over a non-empty list. */
  function Max(s: seq<real>): (m: real)
    requires |s| > 0
    ensures IsGreatest(m, s)
  {
    if |s| == 1 then s[0]
    else
      var rest := Max(s[1..]);
      if rest <= s[0] then s[0] else rest
  }

  /** Python's `sum`. */
  function Sum(s: seq<real>): real {
    if |s| == 0 then 0.0 else s[0] + Sum(s[1..])
  }

  /** The arithmetic mean `sum(prices) / len(prices)`; the list is never empty here. */
  function Mean(s: seq<real>): (m: real)
    requires |s| > 0
    ensures m * (|s| as real) == Sum(s)
  {
    var n := |s| as real;
    var m := Sum(s) / n;
    assert Sum(s) == n * m;
    m
  }

  /** Python's `sum` adds left to right; adding at the end of the list agrees with `Sum`. */
  lemma {:induction false} SumAppend(s: seq<real>, x: real)
    ensures Sum(s + [x]) == Sum(s) + x
  {
    if |s| == 0 {
      assert s + [x] == [x];
      assert [x][1..] == [];
    } else {
      assert (s + [x])[1..] == s[1..] + [x];
      SumAppend(s[1..], x);
    }
  }

  /** A sum of `n` values, each within `[lo, hi]`, lies within `[n * lo, n * hi]`. */
  lemma {:induction false} SumBounds(s: seq<real>, lo: real, hi: real)
    requires forall i :: 0 <= i < |s| ==> lo <= s[i] <= hi
    ensures (|s| as real) * lo <= Sum(s) <= (|s| as real) * hi
  {
    if |s| > 0 {
      SumBounds(s[1..], lo, hi);
    }
  }

  /** Dividing by a positive count keeps an inequality with a multiple of that count. */
  lemma DivideBounds(x: real, n: real, lo: real, hi: real)
    requires n > 0.0
    requires n * lo <= x <= n * hi
    ensures lo <= x / n <= hi
    ensures (x / n) * n == x
  {
    var q := x / n;
    assert x == n * q;
    assert n * (q - lo) >= 0.0;
    assert n * (hi - q) >= 0.0;
  }

  /** A mean of values within `[lo, hi]` lies within `[lo, hi]`, and times the count gives back the sum. */
  lemma MeanWithin(s: seq<real>, lo: real, hi: real)
    requires |s| > 0
    requires forall i :: 0 <= i < |s| ==> lo <= s[i] <= hi
    ensures lo <= Mean(s) <= hi
    ensures Mean(s) * (|s| as real) == Sum(s)
  {
    SumBounds(s, lo, hi);
    DivideBounds(Sum(s), |s| as real, lo, hi);
  }

  /** The mean lies between the minimum and the maximum. */
  lemma MeanBounds(s: seq<real>)
    requires |s| > 0
    ensures Min(s) <= Mean(s) <= Max(s)
    ensures Mean(s) * (|s| as real) == Sum(s)
  {
    MeanWithin(s, Min(s), Max(s));
  }

  /** Ascending order. */
  predicate Sorted(s: seq<real>) {
    forall i, j :: 0 <= i < j < |s| ==> s[i] <= s[j]
  }

  /** A value not larger than any element of an ascending list can be put in front of it. */
  lemma SortedCons(x: real, t: seq<real>)
    requires Sorted(t)
    requires forall k :: 0 <= k < |t| ==> x <= t[k]
    ensures Sorted([x] + t)
  {
  }

  /** A lower bound of the elements of `b` bounds the elements of any `a` holding the same elements. */
  lemma LowerBoundOfPermutation(lo: real, a: seq<real>, b: seq<real>)
    requires multiset(a) == multiset(b)
    requires forall k :: 0 <= k < |b| ==> lo <= b[k]
    ensures forall k :: 0 <= k < |a| ==> lo <= a[k]
  {
    forall k | 0 <= k < |a|
      ensures lo <= a[k]
    {
      assert a[k] in multiset(b);
    }
  }

  /** Inserts `x` into the sorted list `s` before the first element not smaller than it. */
  function Insert(x: real, s: seq<real>): (r: seq<real>)
    requires Sorted(s)
    ensures Sorted(r)
    ensures multiset(r) == multiset(s) + multiset{x}
  {
    if |s| == 0 then [x]
    else if x <= s[0] then [x] + s
    else
      var tail := Insert(x, s[1..]);
      assert multiset(s) == multiset{s[0]} + multiset(s[1..]) by {
        assert s == [s[0]] + s[1..];
      }
      LowerBoundOfPermutation(s[0], tail, s[1..] + [x]);
      SortedCons(s[0], tail);
      assert multiset([s[0]] + tail) == multiset{s[0]} + multiset(tail);
      [s[0]] + tail
  }

  /** Python's `sorted`, as an insertion sort: an ascending permutation of its input. */
  function SortAscending(s: seq<real>): (r: seq<real>)
    ensures Sorted(r)
    ensures multiset(r) == multiset(s)
    ensures |r| == |s|
  {
    if |s| == 0 then []
    else
      assert s == [s[0]] + s[1..];
      Insert(s[0], SortAscending(s[1..]))
  }

  /** The middle of an ascending list: its middle element for an odd count,
      the mean of its two middle elements for an even count. */
  function Middle(t: seq<real>): real
    requires |t| > 0
  {
    var n := |t|;
    if n % 2 == 1 then t[n / 2] else (t[n / 2 - 1] + t[n / 2]) / 2.0
  }

  /** `statistics.median`: the middle of the sorted list. */
  function Median(s: seq<real>): (m: real)
    requires |s| > 0
    ensures |s| % 2 == 1 ==> m in s
    ensures |s| % 2 == 0 ==> exists i, j :: 0 <= i < j < |s| && m == (s[i] + s[j]) / 2.0
  {
    MiddleOfPermutation(s, SortAscending(s));
    Middle(SortAscending(s))
  }

  /** The middle of any arrangement `t` of `s` is an element of `s` for an
      odd count, and the mean of the elements at two different positions of
      `s` for an even count. */
  lemma MiddleOfPermutation(s: seq<real>, t: seq<real>)
    requires |t| > 0 && multiset(t) == multiset(s)
    ensures |s| % 2 == 1 ==> Middle(t) in s
    ensures |s| % 2 == 0 ==> exists i, j :: 0 <= i < j < |s| && Middle(t) == (s[i] + s[j]) / 2.0
  {
    var n := |t|;
    assert |s| == |multiset(s)| == n;
    if n % 2 == 1 {
      assert t[n / 2] in multiset(t);
    } else {
      PairInMultiset(t, n / 2 - 1, n / 2);
      PairIndices(s, t[n / 2 - 1], t[n / 2]);
      var i, j :| 0 <= i < j < |s| && s[i] + s[j] == t[n / 2 - 1] + t[n / 2];
      assert Middle(t) == (s[i] + s[j]) / 2.0;
    }
  }

  /** The elements at two different positions of a list form a sub-multiset of it. */
  lemma PairInMultiset(t: seq<real>, p: int, q: int)
    requires 0 <= p < q < |t|
    ensures multiset{t[p], t[q]} <= multiset(t)
  {
    assert t == t[..q] + [t[q]] + t[q + 1..];
    assert t[..q][p] == t[p];
    assert t[p] in multiset(t[..q]);
  }

  /** Deleting the element at position `i` deletes one copy of it from the multiset. */
  lemma RemoveAt(s: seq<real>, i: int)
    requires 0 <= i < |s|
    ensures multiset(s[..i] + s[i + 1..]) == multiset(s) - multiset{s[i]}
  {
    assert s == s[..i] + [s[i]] + s[i + 1..];
  }

  /** Two values that occur in a list as a sub-multiset occupy two different
      positions of it. */
  lemma PairIndices(s: seq<real>, a: real, b: real)
    requires multiset{a, b} <= multiset(s)
    ensures exists i, j :: 0 <= i < j < |s| && s[i] + s[j] == a + b
  {
    assert a in multiset(s);
    var i :| 0 <= i < |s| && s[i] == a;
    var rest := s[..i] + s[i + 1..];
    RemoveAt(s, i);
    assert multiset(s)[b] >= multiset{a, b}[b];
    assert multiset(rest)[b] >= 1;
    var k :| 0 <= k < |rest| && rest[k] == b;
    if k < i {
      assert rest[k] == s[k];
      assert s[k] + s[i] == a + b;
    } else {
      assert rest[k] == s[k + 1];
      assert s[i] + s[k + 1] == a + b;
    }
  }

  /** The head of an ascending list is not larger than any of its elements. */
  lemma SortedHeadIsLeast(a: seq<real>, x: real)
    requires Sorted(a) && x in multiset(a)
    ensures |a| > 0 && a[0] <= x
  {
    var k :| 0 <= k < |a| && a[k] == x;
    assert k > 0 ==> a[0] <= a[k];
  }

  /** Removing the head of a list removes one copy of it from the multiset. */
  lemma MultisetTail(a: seq<real>)
    requires |a| > 0
    ensures multiset(a[1..]) == multiset(a) - multiset{a[0]}
  {
    assert a == [a[0]] + a[1..];
  }

  /** The tail of an ascending list is ascending. */
  lemma SortedTail(a: seq<real>)
    requires |a| > 0 && Sorted(a)
    ensures Sorted(a[1..])
  {
  }

  /** Two ascending lists holding the same elements are equal: the sorted
      order of a list is unique, whatever sort produced it. */
  lemma {:induction false} SortedUnique(a: seq<real>, b: seq<real>)
    requires Sorted(a) && Sorted(b)
    requires multiset(a) == multiset(b)
    ensures a == b
  {
    if |a| > 0 && |b| > 0 {
      assert b[0] in multiset(b);
      SortedHeadIsLeast(a, b[0]);
      assert a[0] in multiset(a);
      SortedHeadIsLeast(b, a[0]);
      assert a[0] == b[0];
      MultisetTail(a);
      MultisetTail(b);
      assert multiset(a[1..]) == multiset(b[1..]);
      SortedTail(a);
      SortedTail(b);
      SortedUnique(a[1..], b[1..]);
      assert a == [a[0]] + a[1..];
      assert b == [b[0]] + b[1..];
    } else {
      assert |a| == |multiset(a)| == |b|;
    }
  }

  /** The median read off any ascending arrangement `t` of the prices:
      index `n / 2` for an odd count, the mean of indices `n / 2 - 1` and
      `n / 2` for an even one. */
  lemma MedianOfSortedPermutation(s: seq<real>, t: seq<real>)
    requires |s| > 0
    requires Sorted(t) && multiset(t) == multiset(s)
    ensures |t| == |s|
    ensures Median(s) == Middle(t)
    ensures Median(s) == if |t| % 2 == 1 then t[|t| / 2] else (t[|t| / 2 - 1] + t[|t| / 2]) / 2.0
  {
    assert |t| == |multiset(t)| == |s|;
    SortedUnique(SortAscending(s), t);
  }

  /** Every element of a list lies between its minimum and its maximum. */
  lemma WithinMinMax(s: seq<real>, x: real)
    requires x in multiset(s)
    ensures |s| > 0 && Min(s) <= x <= Max(s)
  {
    var k :| 0 <= k < |s| && s[k] == x;
  }

  /** The middle of a list whose elements all lie in `[lo, hi]` lies in `[lo, hi]`. */
  lemma MiddleWithin(t: seq<real>, lo: real, hi: real)
    requires |t| > 0
    requires forall i :: 0 <= i < |t| ==> lo <= t[i] <= hi
    ensures lo <= Middle(t) <= hi
  {
  }

  /** The median does not depend on the order of the prices. */
  lemma MedianOrderFree(s: seq<real>, u: seq<real>)
    requires |s| > 0 && multiset(u) == multiset(s)
    ensures |u| > 0 && Median(u) == Median(s)
  {
    assert |u| == |multiset(u)| == |s|;
    SortedUnique(SortAscending(s), SortAscending(u));
  }

  /** The median lies between the minimum and the maximum. */
  lemma MedianBounds(s: seq<real>)
    requires |s| > 0
    ensures Min(s) <= Median(s) <= Max(s)
  {
    var t := SortAscending(s);
    forall i | 0 <= i < |t|
      ensures Min(s) <= t[i] <= Max(s)
    {
      assert t[i] in multiset(t);
      WithinMinMax(s, t[i]);
    }
    MiddleWithin(t, Min(s), Max(s));
  }

  /** The median of three ascending values is the second. */
  lemma MedianOfSortedThree(t: seq<real>)
    requires |t| == 3 && Sorted(t)
    ensures Median(t) == t[1]
  {
    MedianOfSortedPermutation(t, t);
  }

  /** The median of four ascending values is the mean of the second and third. */
  lemma MedianOfSortedFour(t: seq<real>)
    requires |t| == 4 && Sorted(t)
    ensures Median(t) == (t[1] + t[2]) / 2.0
  {
    MedianOfSortedPermutation(t, t);
  }

  /** `statistics.median` of three ascending values is the middle one. */
  lemma MedianOfThree(a: real, b: real, c: real)
    requires a <= b <= c
    ensures Median([a, b, c]) == b
  {
    MedianOfSortedThree([a, b, c]);
  }

  /** The median is taken in sorted order: three values given out of order
      have the same median as in order. */
  lemma MedianOfThreeUnsorted(a: real, b: real, c: real)
    ensures Median([c, a, b]) == Median([a, b, c])
  {
    assert multiset([c, a, b]) == multiset{a, b, c} == multiset([a, b, c]);
    MedianOrderFree([a, b, c], [c, a, b]);
  }

  /** `statistics.median` of four ascending values is the mean of the two middle ones. */
  lemma MedianOfFour(a: real, b: real, c: real, d: real)
    requires a <= b <= c <= d
    ensures Median([a, b, c, d]) == (b + c) / 2.0
  {
    MedianOfSortedFour([a, b, c, d]);
  }

  /** Examples: the median of `[1, 2, 3]` and of `[3, 1, 2]` is 2, and of `[1, 2, 3, 4]` it is 2.5. */
  lemma MedianExamples()
    ensures Median([1.0, 2.0, 3.0]) == 2.0
    ensures Median([3.0, 1.0, 2.0]) == 2.0
    ensures Median([1.0, 2.0, 3.0, 4.0]) == 2.5
  {
    MedianOfThree(1.0, 2.0, 3.0);
    MedianOfThreeUnsorted(1.0, 2.0, 3.0);
    MedianOfFour(1.0, 2.0, 3.0, 4.0);
  }

  /** `stock_prices`: no record for an empty list (so no division by zero);
      otherwise a record whose minimum and maximum are elements of the list
      bounding it, whose mean and median lie between them, and which carries
      the ticker exactly as given. */
  function StockPrices(prices: seq<real>, ticker: string): (r: Option<StatsRecord>)
    ensures r.None? <==> |prices| == 0
    ensures r.Some? ==> IsLeast(r.value.min, prices) && IsGreatest(r.value.max, prices)
    ensures r.Some? ==> r.value.avg == Sum(prices) / (|prices| as real)
    ensures r.Some? ==> r.value.min <= r.value.avg <= r.value.max
    ensures r.Some? ==> r.value.min <= r.value.medium <= r.value.max
    ensures r.Some? ==> r.value.medium == Median(prices)
    ensures r.Some? ==> r.value.ticker == ticker
  {
    if |prices| == 0 then None
    else
      MeanBounds(prices);
      MedianBounds(prices);
      Some(StatsRecord(Min(prices), Max(prices), Mean(prices), Median(prices), ticker))
  }

  /** Three ascending closes `t[0] <= t[1] <= t[2]` give minimum `t[0]`,
      maximum `t[2]`, mean `(t[0] + t[1] + t[2]) / 3` and median `t[1]`. */
  lemma StockPricesOfSortedThree(t: seq<real>, ticker: string)
    requires |t| == 3 && Sorted(t)
    ensures StockPrices(t, ticker) == Some(StatsRecord(t[0], t[2], (t[0] + t[1] + t[2]) / 3.0, t[1], ticker))
  {
    ThreeMinMax(t);
    ThreeMean(t);
    MedianOfSortedThree(t);
  }

  /** Minimum and maximum of three ascending values. */
  lemma ThreeMinMax(t: seq<real>)
    requires |t| == 3 && Sorted(t)
    ensures Min(t) == t[0] && Max(t) == t[2]
  {
    assert Min(t) in t && Min(t) <= t[0];
    assert Max(t) in t && Max(t) >= t[2];
  }

  /** The mean of three values. */
  lemma ThreeMean(t: seq<real>)
    requires |t| == 3
    ensures Mean(t) == (t[0] + t[1] + t[2]) / 3.0
  {
    assert Sum(t[2..]) == t[2] by { assert t[2..][1..] == []; }
    assert Sum(t[1..]) == t[1] + t[2] by { assert t[1..][1..] == t[2..]; }
  }
}
