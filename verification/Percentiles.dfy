/** Sorting the samples and reading nearest-rank percentiles off them, in exact arithmetic. */
module Percentiles {
  import opened Sequences

  ghost predicate Sorted(s: seq<real>) {
    forall i, j :: 0 <= i < j < |s| ==> s[i] <= s[j]
  }

  function Insert(x: real, s: seq<real>): seq<real> {
    if s == [] then [x] else if x <= s[0] then [x] + s else [s[0]] + Insert(x, s[1..])
  }

  function Sort(s: seq<real>): seq<real> {
    if s == [] then [] else Insert(s[0], Sort(s[1..]))
  }

  lemma {:induction false} InsertContents(x: real, s: seq<real>)
    ensures multiset(Insert(x, s)) == multiset(s) + multiset{x}
  {
    if s == [] || x <= s[0] {
    } else {
      InsertContents(x, s[1..]);
      assert s == [s[0]] + s[1..];
    }
  }

  lemma Inserted(x: real, s: seq<real>, i: nat)
    requires i < |Insert(x, s)|
    ensures Insert(x, s)[i] == x || Insert(x, s)[i] in s
  {
    hide Insert;
    InsertContents(x, s);
    assert Insert(x, s)[i] in multiset(Insert(x, s));
  }

  lemma {:induction false} InsertSorts(x: real, s: seq<real>)
    requires Sorted(s)
    ensures Sorted(Insert(x, s))
  {
    if s == [] || x <= s[0] {
    } else {
      var t := Insert(x, s[1..]);
      InsertSorts(x, s[1..]);
      forall i | 0 <= i < |t| ensures s[0] <= t[i] {
        Inserted(x, s[1..], i);
      }
    }
  }

  lemma {:induction false} SortSorts(s: seq<real>)
    ensures Sorted(Sort(s)) && multiset(Sort(s)) == multiset(s) && |Sort(s)| == |s|
  {
    if s == [] {
    } else {
      hide Sorted, Insert;
      SortSorts(s[1..]);
      InsertSorts(s[0], Sort(s[1..]));
      InsertContents(s[0], Sort(s[1..]));
      WithoutFirst(s);
      SameContents(Sort(s), s);
    }
  }

  lemma SortedParts(s: seq<real>, x: real)
    requires Sorted(s) && x in s
    ensures s[0] <= x && Sorted(s[1..])
  {
  }

  /** There is only one sorted arrangement, so any correct sort gives this one. */
  lemma {:induction false} SortedUnique(s: seq<real>, t: seq<real>)
    requires Sorted(s) && Sorted(t) && multiset(s) == multiset(t)
    ensures s == t
  {
    hide Sorted;
    SameContents(s, t);
    if s == [] {
    } else {
      SortedParts(s, t[0]);
      SortedParts(t, s[0]);
      WithoutFirst(s);
      WithoutFirst(t);
      SortedUnique(s[1..], t[1..]);
      SameParts(s, t);
    }
  }

  lemma SortPermuted(s: seq<real>, t: seq<real>)
    requires multiset(s) == multiset(t)
    ensures Sort(s) == Sort(t)
  {
    SortSorts(s);
    SortSorts(t);
    SortedUnique(Sort(s), Sort(t));
  }

  /** How many samples are strictly below the threshold. */
  function Below(s: seq<real>, threshold: real): nat {
    if s == [] then 0 else (if s[0] < threshold then 1 else 0) + Below(s[1..], threshold)
  }

  lemma {:induction false} BelowInsert(x: real, s: seq<real>, threshold: real)
    ensures Below(Insert(x, s), threshold) == (if x < threshold then 1 else 0) + Below(s, threshold)
  {
    if s == [] || x <= s[0] {
    } else {
      BelowInsert(x, s[1..], threshold);
    }
  }

  lemma {:induction false} BelowSort(s: seq<real>, threshold: real)
    ensures Below(Sort(s), threshold) == Below(s, threshold)
  {
    if s == [] {
    } else {
      BelowSort(s[1..], threshold);
      BelowInsert(s[0], Sort(s[1..]), threshold);
    }
  }

  lemma BelowPermuted(s: seq<real>, t: seq<real>, threshold: real)
    requires multiset(s) == multiset(t)
    ensures Below(s, threshold) == Below(t, threshold)
  {
    hide Below, Sort;
    BelowSort(s, threshold);
    BelowSort(t, threshold);
    SortPermuted(s, t);
  }

  lemma {:induction false} BelowSnoc(s: seq<real>, x: real, threshold: real)
    ensures Below(s + [x], threshold) == Below(s, threshold) + if x < threshold then 1 else 0
  {
    if s == [] {
      assert s + [x] == [x] && [x][1..] == [];
    } else {
      ConcatParts(s, [x]);
      BelowSnoc(s[1..], x, threshold);
    }
  }

  /** A sorted list crosses the threshold behind exactly as many samples as are below it. */
  lemma {:induction false} SortedCrossing(s: seq<real>, k: nat, threshold: real)
    requires Sorted(s) && k < |s|
    ensures s[k] < threshold <==> Below(s, threshold) >= k + 1
  {
    if s[0] >= threshold {
      NoneBelow(s, threshold);
      assert k > 0 ==> s[0] <= s[k];
    } else if k > 0 {
      SortedCrossing(s[1..], k - 1, threshold);
    }
  }

  lemma {:induction false} NoneBelow(s: seq<real>, threshold: real)
    requires forall i :: 0 <= i < |s| ==> s[i] >= threshold
    ensures Below(s, threshold) == 0
  {
    if s == [] {
    } else {
      NoneBelow(s[1..], threshold);
    }
  }

  /** `Math.ceil((p / 100) * n)` */
  function Rank(p: nat, n: nat): nat {
    (p * n + 99) / 100
  }

  function Index(p: nat, n: nat): (idx: nat)
    requires n > 0
    ensures idx < n
  {
    var rank := Rank(p, n);
    if rank == 0 then 0 else if rank - 1 < n - 1 then rank - 1 else n - 1
  }

  function Percentile(sorted: seq<real>, p: nat): real {
    if |sorted| == 0 then 0.0 else sorted[Index(p, |sorted|)]
  }

  lemma RankMonotone(p: nat, q: nat, n: nat)
    requires p <= q
    ensures Rank(p, n) <= Rank(q, n)
  {
    assert p * n <= q * n;
  }

  lemma PercentileMonotone(sorted: seq<real>, p: nat, q: nat)
    requires Sorted(sorted) && p <= q
    ensures Percentile(sorted, p) <= Percentile(sorted, q)
  {
    RankMonotone(p, q, |sorted|);
  }

  lemma PercentileBounds(sorted: seq<real>, p: nat)
    requires Sorted(sorted) && sorted != []
    ensures sorted[0] <= Percentile(sorted, p) <= sorted[|sorted| - 1]
  {
  }

  /** The rank is the ceiling of `p` percent of `n`. */
  lemma RankIsCeiling(p: nat, n: nat, count: nat)
    ensures count >= Rank(p, n) <==> 100 * count >= p * n
  {
    var product := p * n;
    assert Rank(p, n) == (product + 99) / 100;
  }

  lemma {:induction false} BelowAtMost(s: seq<real>, threshold: real)
    ensures Below(s, threshold) <= |s|
  {
    if s == [] {
    } else {
      BelowAtMost(s[1..], threshold);
    }
  }

  /** For every `p`, sensible or not: the value reported is below a threshold exactly when some
      sample is, and at least `p` percent of them or all of them are. */
  lemma PercentileOfAny(samples: seq<real>, p: nat, threshold: real)
    requires samples != []
    ensures var count := Below(samples, threshold);
            Percentile(Sort(samples), p) < threshold <==>
            count >= 1 && (100 * count >= p * |samples| || count == |samples|)
  {
    hide Rank, Sort, Below;
    var n := |samples|;
    RankIsCeiling(p, n, Below(samples, threshold));
    BelowAtMost(samples, threshold);
    SortSorts(samples);
    BelowSort(samples, threshold);
    SortedCrossing(Sort(samples), Index(p, n), threshold);
  }

  /** The nearest-rank percentile is below a threshold exactly when at least `p` percent of the
      samples are. */
  lemma PercentileMeaning(samples: seq<real>, p: nat, threshold: real)
    requires samples != [] && 0 < p <= 100
    ensures Percentile(Sort(samples), p) < threshold <==>
            100 * Below(samples, threshold) >= p * |samples|
  {
    hide Percentile, Sort, Below;
    PercentileOfAny(samples, p, threshold);
    PercentBounds(p, |samples|);
  }

  lemma PercentBounds(p: nat, n: nat)
    requires n > 0 && 0 < p <= 100
    ensures 1 <= p * n <= 100 * n
  {
    assert p * n == n + (p - 1) * n;
    assert 100 * n == p * n + (100 - p) * n;
  }

  function Sum(s: seq<real>): real {
    if s == [] then 0.0 else Sum(s[..|s| - 1]) + s[|s| - 1]
  }

  lemma {:induction false} SumCons(x: real, s: seq<real>)
    ensures Sum([x] + s) == x + Sum(s)
  {
    var all := [x] + s;
    if s == [] {
      assert all[..|all| - 1] == [];
    } else {
      var n := |s| - 1;
      assert all[..|all| - 1] == [x] + s[..n];
      SumCons(x, s[..n]);
    }
  }

  lemma {:induction false} SumInsert(x: real, s: seq<real>)
    ensures Sum(Insert(x, s)) == x + Sum(s)
  {
    hide Sum;
    SumCons(x, s);
    if s == [] {
      assert [x] + s == [x];
    } else {
      FirstAndRest(s);
      SumCons(s[0], s[1..]);
      SumInsert(x, s[1..]);
      SumCons(s[0], Insert(x, s[1..]));
    }
  }

  lemma {:induction false} SumSort(s: seq<real>)
    ensures Sum(Sort(s)) == Sum(s)
  {
    if s == [] {
    } else {
      hide Sum, Insert;
      SumSort(s[1..]);
      SumInsert(s[0], Sort(s[1..]));
      SumCons(s[0], s[1..]);
      FirstAndRest(s);
    }
  }

  /** The mean of the sorted samples, times their number, is the sum of the samples as they came. */
  lemma MeanMeaning(samples: seq<real>)
    requires samples != []
    ensures Mean(Sort(samples)) * |samples| as real == Sum(samples)
  {
    hide Sort, Sum, Mean;
    SumSort(samples);
    SortSorts(samples);
    MeanTimes(Sort(samples));
  }

  lemma MeanTimes(s: seq<real>)
    requires s != []
    ensures Mean(s) * |s| as real == Sum(s)
  {
    hide Sum;
    Divided(Sum(s), |s| as real);
  }

  lemma Divided(sum: real, n: real)
    requires n > 0.0
    ensures sum / n * n == sum
  {
  }

  lemma {:induction false} SumBounds(s: seq<real>, lo: real, hi: real)
    requires forall i :: 0 <= i < |s| ==> lo <= s[i] <= hi
    ensures lo * |s| as real <= Sum(s) <= hi * |s| as real
  {
    if s == [] {
    } else {
      SumBounds(s[..|s| - 1], lo, hi);
    }
  }

  function Mean(s: seq<real>): real {
    Sum(s) / (if |s| > 1 then |s| else 1) as real
  }

  lemma MeanBounds(sorted: seq<real>)
    requires Sorted(sorted) && sorted != []
    ensures sorted[0] <= Mean(sorted) <= sorted[|sorted| - 1]
  {
    var lo, hi := sorted[0], sorted[|sorted| - 1];
    SumBounds(sorted, lo, hi);
    Quotient(Sum(sorted), |sorted| as real, lo, hi);
  }

  lemma Quotient(sum: real, n: real, lo: real, hi: real)
    requires n > 0.0 && lo * n <= sum <= hi * n
    ensures lo <= sum / n <= hi
  {
  }
}
