/** The published order statistics of a cell's repetitions. */
module Aggregate {
  import opened Arith
  import opened Recorders

  predicate Sorted(s: seq<nat>) {
    forall i, j :: 0 <= i <= j < |s| ==> s[i] <= s[j]
  }

  function MedianIndex(n: nat): nat
    requires n > 0
  {
    if n % 2 == 1 then n / 2 else n / 2 - 1
  }

  function Median(sorted: seq<nat>): nat {
    if sorted == [] then 0 else sorted[MedianIndex(|sorted|)]
  }

  function Quartiles(sorted: seq<nat>): (nat, nat) {
    if sorted == [] then (0, 0)
    else (sorted[|sorted| / 4], sorted[Min(3 * |sorted| / 4, |sorted| - 1)])
  }

  datatype Summary = Summary(median: nat, min: nat, max: nat, q1: nat, q3: nat, iqrPermille: nat)

  /** The part of one repetition that the aggregate reads. */
  datatype Repetition = Repetition(cell: nat, p99: nat)

  datatype Aggregated = Aggregated(summary: Summary, merged: Recorder)

  datatype Refusal = NoRepetition | MixedCells | RecorderCount

  datatype Result = Ok(value: Aggregated) | Err(refusal: Refusal)

  /** The statistics of an ascending sequence, with the spread in thousandths of the median. */
  function Summarise(sorted: seq<nat>): Summary
    requires sorted != []
  {
    var median, (q1, q3) := Median(sorted), Quartiles(sorted);
    var iqr := if median == 0 then 0 else Min(Max(q3 - q1, 0) * 1000 / median, U32_LIMIT - 1);
    Summary(median, sorted[0], sorted[|sorted| - 1], q1, q3, iqr)
  }

  lemma MultisetTake(s: seq<nat>, k: nat)
    requires k < |s|
    ensures multiset(s[..k + 1]) == multiset(s[..k]) + multiset{s[k]}
  {
    assert s[..k + 1] == s[..k] + [s[k]];
  }

  lemma SortedParts(s: seq<nat>, at: nat, v: nat)
    requires Sorted(s) && at <= |s|
    requires (forall i :: 0 <= i < at ==> s[i] <= v) && (at < |s| ==> v <= s[at])
    ensures Sorted(s[..at] + [v] + s[at..])
  {
    var t := s[..at] + [v] + s[at..];
    forall i, j | 0 <= i <= j < |t| ensures t[i] <= t[j] {
      assert t[i] == if i < at then s[i] else if i == at then v else s[i - 1];
      assert t[j] == if j < at then s[j] else if j == at then v else s[j - 1];
    }
  }

  lemma Inserted(s: seq<nat>, at: nat, v: nat)
    requires at <= |s|
    ensures multiset(s[..at] + [v] + s[at..]) == multiset(s) + multiset{v}
  {
    assert s == s[..at] + s[at..];
  }

  /** The first place after every element that is not greater. */
  method PlaceFor(s: seq<nat>, v: nat) returns (at: nat)
    ensures at <= |s| && (forall i :: 0 <= i < at ==> s[i] <= v) && (at < |s| ==> v <= s[at])
  {
    at := 0;
    while at < |s| && s[at] <= v
      invariant at <= |s| && forall i :: 0 <= i < at ==> s[i] <= v
    {
      at := at + 1;
    }
  }

  /** Some ascending arrangement of the values. */
  method SortUnstable(values: seq<nat>) returns (sorted: seq<nat>)
    ensures Sorted(sorted) && multiset(sorted) == multiset(values)
  {
    hide Sorted;
    sorted := [];
    assert Sorted(sorted) by { EmptyIsSorted(); }
    for k := 0 to |values|
      invariant Sorted(sorted) && multiset(sorted) == multiset(values[..k])
    {
      var at := PlaceFor(sorted, values[k]);
      MultisetTake(values, k);
      SortedParts(sorted, at, values[k]);
      Inserted(sorted, at, values[k]);
      sorted := sorted[..at] + [values[k]] + sorted[at..];
    }
    assert values[..|values|] == values;
  }

  lemma EmptyIsSorted()
    ensures Sorted([])
  {
  }

  predicate SameCell(cell: nat, runs: seq<Repetition>) {
    forall i :: 0 <= i < |runs| ==> runs[i].cell == cell
  }

  function P99s(runs: seq<Repetition>): seq<nat> { seq(|runs|, i requires 0 <= i < |runs| => runs[i].p99) }

  /** Refused for no repetition, then for mixed cells, then for a wrong number of recorders; otherwise
      the statistics of the sorted values, and every recorder merged. */
  method FromRuns(cell: nat, runs: seq<Repetition>, recorders: seq<Recorder>) returns (r: Result)
    ensures runs == [] ==> r == Err(NoRepetition)
    ensures runs != [] && !SameCell(cell, runs) ==> r == Err(MixedCells)
    ensures runs != [] && SameCell(cell, runs) && |recorders| != |runs| ==> r == Err(RecorderCount)
    ensures runs != [] && SameCell(cell, runs) && |recorders| == |runs| ==>
      && r.Ok? && r.value.merged == MergeAll(recorders)
      && forall s :: IsSortOf(s, P99s(runs)) ==> r.value.summary == Summarise(s)
  {
    if runs == [] {
      return Err(NoRepetition);
    }
    for i := 0 to |runs|
      invariant SameCell(cell, runs[..i])
    {
      if runs[i].cell != cell {
        return Err(MixedCells);
      }
    }
    assert runs[..|runs|] == runs;
    if |recorders| != |runs| {
      return Err(RecorderCount);
    }
    var p99s := P99s(runs);
    var sorted := SortUnstable(p99s);
    assert |multiset(sorted)| == |multiset(p99s)|;
    hide Summarise;
    forall s | IsSortOf(s, p99s)
      ensures s == sorted
    {
      SortIsUnique(s, sorted);
    }
    var merged := FRESH;
    for i := 0 to |recorders|
      invariant merged == MergeAll(recorders[..i])
    {
      assert recorders[..i + 1][..i] == recorders[..i];
      merged := Merge(merged, recorders[i]);
    }
    assert recorders[..|recorders|] == recorders;
    return Ok(Aggregated(Summarise(sorted), merged));
  }

  ghost predicate IsSortOf(s: seq<nat>, values: seq<nat>)
    ensures IsSortOf(s, values) ==> |s| == |values|
  {
    assert |multiset(s)| == |s| && |multiset(values)| == |values|;
    Sorted(s) && multiset(s) == multiset(values)
  }

  // ----- ranks

  lemma SubsetSize(m: multiset<nat>, n: multiset<nat>)
    requires m <= n
    ensures |m| <= |n|
  {
    assert n == m + (n - m);
  }

  lemma WithoutReplacement(s: multiset<nat>, x: nat, y: nat, part: multiset<nat>)
    requires part <= s - multiset{x} + multiset{y}
    ensures part - multiset{y} <= s && |part - multiset{y}| >= |part| - 1
  {
    if y in part {
      assert part == (part - multiset{y}) + multiset{y};
    } else {
      assert part - multiset{y} == part;
    }
  }

  /** Values of an ascending sequence below its k-th one are among its first k. */
  lemma BelowRank(s: seq<nat>, k: nat, m: multiset<nat>)
    requires Sorted(s) && k < |s| && m <= multiset(s) && forall e :: e in m ==> e < s[k]
    ensures |m| <= k
  {
    assert s == s[..k] + s[k..];
    assert multiset(s) == multiset(s[..k]) + multiset(s[k..]);
    forall e | e in m
      ensures m[e] <= multiset(s[..k])[e]
    {
      assert e !in s[k..];
    }
    SubsetSize(m, multiset(s[..k]));
  }

  lemma AboveRank(s: seq<nat>, k: nat, m: multiset<nat>)
    requires Sorted(s) && k < |s| && m <= multiset(s) && forall e :: e in m ==> e > s[k]
    ensures |m| <= |s| - 1 - k
  {
    assert s == s[..k + 1] + s[k + 1..];
    assert multiset(s) == multiset(s[..k + 1]) + multiset(s[k + 1..]);
    forall e | e in m
      ensures m[e] <= multiset(s[k + 1..])[e]
    {
      assert e !in s[..k + 1];
    }
    SubsetSize(m, multiset(s[k + 1..]));
  }

  /** Equal contents mean equal ranks. */
  lemma RankAtMost(s: seq<nat>, t: seq<nat>, k: nat)
    requires Sorted(s) && Sorted(t) && multiset(s) == multiset(t) && k < |s| == |t|
    ensures s[k] <= t[k]
  {
    if s[k] > t[k] {
      var part := LowPart(t, k);
      BelowRank(s, k, part);
      assert false;
    }
  }

  lemma SortIsUnique(s: seq<nat>, t: seq<nat>)
    requires Sorted(s) && Sorted(t) && multiset(s) == multiset(t)
    ensures s == t
  {
    assert |s| == |multiset(s)| == |multiset(t)| == |t|;
    forall k | 0 <= k < |s|
      ensures s[k] == t[k]
    {
      RankAtMost(s, t, k);
      RankAtMost(t, s, k);
    }
  }

  /** The published numbers do not depend on the order the runs finished in. */
  lemma OrderFree(p: seq<nat>, q: seq<nat>, s: seq<nat>, t: seq<nat>)
    requires multiset(p) == multiset(q) && p != [] && IsSortOf(s, p) && IsSortOf(t, q)
    ensures Summarise(s) == Summarise(t)
  {
    SortIsUnique(s, t);
  }

  // ----- one bad run

  lemma LowPart(t: seq<nat>, k: nat) returns (part: multiset<nat>)
    requires Sorted(t) && k < |t|
    ensures part <= multiset(t) && |part| == k + 1 && forall e :: e in part ==> e <= t[k]
  {
    part := multiset(t[..k + 1]);
    assert t == t[..k + 1] + t[k + 1..];
  }

  lemma HighPart(t: seq<nat>, k: nat) returns (part: multiset<nat>)
    requires Sorted(t) && k < |t|
    ensures part <= multiset(t) && |part| == |t| - k && forall e :: e in part ==> e >= t[k]
  {
    part := multiset(t[k..]);
    assert t == t[..k] + t[k..];
  }

  lemma RankFromBelow(s: seq<nat>, t: seq<nat>, x: nat, y: nat, k: nat)
    requires Sorted(s) && Sorted(t) && |s| == |t| && 1 <= k < |s|
    requires multiset(t) == multiset(s) - multiset{x} + multiset{y}
    ensures s[k - 1] <= t[k]
  {
    if t[k] < s[k - 1] {
      var part := LowPart(t, k);
      WithoutReplacement(multiset(s), x, y, part);
      BelowRank(s, k - 1, part - multiset{y});
      assert false;
    }
  }

  lemma RankFromAbove(s: seq<nat>, t: seq<nat>, x: nat, y: nat, k: nat)
    requires Sorted(s) && Sorted(t) && |s| == |t| && k + 1 < |s|
    requires multiset(t) == multiset(s) - multiset{x} + multiset{y}
    ensures t[k] <= s[k + 1]
  {
    if t[k] > s[k + 1] {
      var part := HighPart(t, k);
      WithoutReplacement(multiset(s), x, y, part);
      AboveRank(s, k + 1, part - multiset{y});
      assert false;
    }
  }

  /** With three or more runs, replacing any one p99 by any value moves the median no further than
      the neighbouring ranks. */
  lemma MedianIsRobust(p: seq<nat>, i: nat, y: nat, s: seq<nat>, t: seq<nat>)
    requires |p| >= 3 && i < |p| && IsSortOf(s, p) && IsSortOf(t, p[i := y])
    ensures var m := MedianIndex(|p|);
      1 <= m < |s| - 1 && Median(s) == s[m] && s[m - 1] <= Median(t) <= s[m + 1]
  {
    var m := MedianIndex(|p|);
    assert multiset(p[i := y]) == multiset(p) - multiset{p[i]} + multiset{y};
    RankFromBelow(s, t, p[i], y, m);
    RankFromAbove(s, t, p[i], y, m);
  }

  /** The statistics are ordered for every non-empty input, and the spread is exact up to flooring
      unless it is clamped. */
  lemma SummaryOrdered(sorted: seq<nat>)
    requires Sorted(sorted) && sorted != []
    ensures var r := Summarise(sorted); r.min <= r.q1 <= r.median <= r.q3 <= r.max
    ensures var r := Summarise(sorted);
      r.median > 0 && r.iqrPermille < U32_LIMIT - 1 ==>
        r.median * r.iqrPermille <= (r.q3 - r.q1) * 1000 < r.median * (r.iqrPermille + 1)
  {
    var n, r := |sorted|, Summarise(sorted);
    assert n / 4 <= MedianIndex(n) <= Min(3 * n / 4, n - 1);
    if r.median > 0 {
      DivModDef(Max(r.q3 - r.q1, 0) * 1000, r.median);
      var q := Max(r.q3 - r.q1, 0) * 1000 / r.median;
      assert r.median * (q + 1) == r.median * q + r.median;
    }
  }

  /** No values have no spread, median or quartiles. */
  lemma NoValues()
    ensures Median([]) == 0 && Quartiles([]) == (0, 0)
  {
  }

  /** Every published number by its rank among the values: the lower median, the value a quarter and
      three quarters of the way up, and the extremes. */
  lemma SummaryRanks(sorted: seq<nat>)
    requires Sorted(sorted) && sorted != []
    ensures var r, n := Summarise(sorted), |sorted|;
      && (exists k :: 0 <= k < n && r.median == sorted[k] && 2 * k < n <= 2 * k + 2)
      && (exists k :: 0 <= k < n && r.q1 == sorted[k] && 4 * k <= n < 4 * k + 4)
      && (exists k :: 0 <= k < n && r.q3 == sorted[k] && 4 * k <= 3 * n < 4 * k + 4)
      && r.min in sorted && r.max in sorted && forall v :: v in sorted ==> r.min <= v <= r.max
  {
    var r, n := Summarise(sorted), |sorted|;
    var m := MedianIndex(n);
    assert r.median == sorted[m] && 2 * m < n <= 2 * m + 2;
    assert r.q1 == sorted[n / 4] && 4 * (n / 4) <= n < 4 * (n / 4) + 4;
    assert r.q3 == sorted[3 * n / 4] && 4 * (3 * n / 4) <= 3 * n < 4 * (3 * n / 4) + 4;
  }

  /** The spread is zero for a zero median and never above the largest 32-bit number, which it is when
      the true spread is at least that. */
  lemma SpreadLimits(sorted: seq<nat>)
    requires Sorted(sorted) && sorted != []
    ensures var r := Summarise(sorted);
      && r.iqrPermille <= 4_294_967_295
      && (r.median == 0 ==> r.iqrPermille == 0)
      && (r.median > 0 ==>
            (r.iqrPermille == 4_294_967_295 <==> (r.q3 - r.q1) * 1000 >= r.median * 4_294_967_295))
  {
    var r := Summarise(sorted);
    SummaryOrdered(sorted);
    if r.median > 0 {
      var a, q := (r.q3 - r.q1) * 1000, (r.q3 - r.q1) * 1000 / r.median;
      DivModDef(a, r.median);
      if q >= 4_294_967_295 { MulMono(r.median, 4_294_967_295, q); }
      else { MulMono(r.median, q + 1, 4_294_967_295); }
    }
  }
}
