/** The entropy threshold of a file, given or as a percentile of its scores: src/core.cc:81-102 and 123-146. */
module Threshold {
  import opened Wrappers
  import opened Sequences
  import opened Tokens
  import opened Units
  import opened Sorting

  datatype TauRule = Absolute(value: real) | Percentile(percent: real)

  predicate RuleOk(rule: TauRule) {
    match rule
    case Absolute(value) => value >= 0.0
    case Percentile(percent) => 0.0 <= percent <= 100.0
  }

  // ----- Sorted values

  predicate AtMost(a: real, b: real) {
    a <= b
  }

  function SortValues(values: seq<real>): (sorted: seq<real>)
    ensures |sorted| == |values|
  {
    Sort(values, AtMost)
  }

  predicate NonDecreasing(xs: seq<real>) {
    forall i, j :: 0 <= i < j < |xs| ==> xs[i] <= xs[j]
  }

  /** The same values in order. */
  predicate IsSorting(sorted: seq<real>, values: seq<real>) {
    NonDecreasing(sorted) && multiset(sorted) == multiset(values)
  }

  lemma ValuesSorted(values: seq<real>)
    ensures IsSorting(SortValues(values), values) && forall x :: x in SortValues(values) <==> x in values
  {
    SortSorts(values, AtMost);
    var sorted := SortValues(values);
    forall i, j | 0 <= i < j < |sorted| ensures sorted[i] <= sorted[j] {
      assert AtMost(sorted[i], sorted[j]);
    }
  }

  /** There is one way to put values in order. */
  lemma {:induction false} SortingUnique(a: seq<real>, b: seq<real>)
    requires NonDecreasing(a) && NonDecreasing(b) && multiset(a) == multiset(b)
    ensures a == b
  {
    if a == [] {
      assert b == [];
    } else {
      var i, j := |a| - 1, |b| - 1;
      SameLength(a, b);
      assert a[i] in multiset(b) && b[j] in multiset(a);
      SameWithout(a, i, b, j);
      assert Without(a, i) == a[..i] && Without(b, j) == b[..j];
      SortingUnique(a[..i], b[..j]);
    }
  }

  lemma SameLength<T>(a: seq<T>, b: seq<T>)
    requires multiset(a) == multiset(b)
    ensures |a| == |b|
  {
    assert |multiset(a)| == |a| && |multiset(b)| == |b|;
  }

  // ----- Percentiles

  /**
   On the line between the values i and i + 1, at the place of the percentage between 100 i / (n - 1) and
   100 (i + 1) / (n - 1).
   */
  predicate OnSegment(sorted: seq<real>, i: nat, percent: real, tau: real)
    requires i + 1 < |sorted|
  {
    100.0 * (tau - sorted[i]) == (sorted[i + 1] - sorted[i]) * (percent * (|sorted| - 1) as real - 100.0 * i as real)
  }

  /** The percentage falls between the shares of the values i and i + 1. */
  predicate InSegment(n: nat, i: nat, percent: real)
    requires i + 1 < n
  {
    100.0 * i as real <= percent * (n - 1) as real <= 100.0 * (i + 1) as real
  }

  /** Linear between the values in order, each at its share of the way from 0 to 100. */
  ghost predicate Interpolated(sorted: seq<real>, percent: real, tau: real) {
    && (|sorted| == 1 ==> tau == sorted[0])
    && (forall i :: 0 <= i && i + 1 < |sorted| && InSegment(|sorted|, i, percent) ==> OnSegment(sorted, i, percent, tau))
  }

  ghost predicate IsPercentile(values: seq<real>, percent: real, tau: real) {
    exists sorted :: IsSorting(sorted, values) && Interpolated(sorted, percent, tau)
  }

  function Rank(n: nat, percent: real): real
    requires n > 0
  {
    percent / 100.0 * ((n - 1) as real)
  }

  lemma RankBounds(n: nat, percent: real)
    requires n > 0 && 0.0 <= percent <= 100.0
    ensures 0.0 <= Rank(n, percent) <= (n - 1) as real
    ensures 0 <= Rank(n, percent).Floor <= n - 1
  {
    var share, last := percent / 100.0, (n - 1) as real;
    assert 0.0 <= share <= 1.0;
    Scale(share, 1.0, last);
    Scale(0.0, share, last);
  }

  lemma RankMonotone(n: nat, p: real, q: real)
    requires n > 0 && p <= q
    ensures Rank(n, p) <= Rank(n, q)
  {
    Scale(p / 100.0, q / 100.0, (n - 1) as real);
  }

  lemma Scale(a: real, b: real, c: real)
    requires a <= b && c >= 0.0
    ensures a * c <= b * c
  {
  }

  function Ceiling(x: real): int {
    if x.Floor as real == x then x.Floor else x.Floor + 1
  }

  function Interpolate(low: real, high: real, part: real): real {
    low + (high - low) * part
  }

  lemma InterpolateBounds(low: real, high: real, part: real)
    requires low <= high && 0.0 <= part <= 1.0
    ensures low <= Interpolate(low, high, part) <= high
  {
    Scale(0.0, part, high - low);
    Scale(part, 1.0, high - low);
  }

  lemma InterpolateMonotone(low: real, high: real, a: real, b: real)
    requires low <= high && a <= b
    ensures Interpolate(low, high, a) <= Interpolate(low, high, b)
  {
    Scale(a, b, high - low);
  }

  /** Linear interpolation between the values around a rank. */
  function At(sorted: seq<real>, rank: real): real
    requires 0.0 <= rank <= (|sorted| - 1) as real
  {
    Interpolate(sorted[rank.Floor], sorted[Ceiling(rank)], rank - rank.Floor as real)
  }

  /** The interpolated value lies between its neighbours, so all values before are at most it, all after at least. */
  lemma AtBetween(sorted: seq<real>, rank: real)
    requires NonDecreasing(sorted) && 0.0 <= rank <= (|sorted| - 1) as real
    ensures sorted[rank.Floor] <= At(sorted, rank) <= sorted[Ceiling(rank)]
  {
    InterpolateBounds(sorted[rank.Floor], sorted[Ceiling(rank)], rank - rank.Floor as real);
  }

  /** A higher rank gives no smaller value. */
  lemma AtMonotone(sorted: seq<real>, a: real, b: real)
    requires NonDecreasing(sorted) && 0.0 <= a <= b <= (|sorted| - 1) as real
    ensures At(sorted, a) <= At(sorted, b)
  {
    AtBetween(sorted, a);
    AtBetween(sorted, b);
    if a.Floor == b.Floor && Ceiling(a) == Ceiling(b) {
      InterpolateMonotone(sorted[a.Floor], sorted[Ceiling(a)], a - a.Floor as real, b - b.Floor as real);
    } else {
      assert Ceiling(a) <= b.Floor;
    }
  }

  /** Percentile: an error is left to the caller's check of the rule. */
  method PercentileOf(values: seq<real>, percent: real) returns (value: Option<real>)
    requires 0.0 <= percent <= 100.0
    ensures value.Some? <==> values != []
    ensures values != [] ==> IsPercentile(values, percent, value.value)
  {
    if values == [] {
      return None;
    }
    var sorted := SortValues(values);
    ValuesSorted(values);
    RankBounds(|values|, percent);
    AtInterpolated(sorted, percent);
    var rank := Rank(|sorted|, percent);
    var lower := rank.Floor;
    var upper := if lower as real == rank then lower else lower + 1;
    return Some(Interpolate(sorted[lower], sorted[upper], rank - lower as real));
  }

  /** The value at a percentage's rank is where the percentage says. */
  lemma AtInterpolated(sorted: seq<real>, percent: real)
    requires sorted != [] && 0.0 <= percent <= 100.0
    ensures 0.0 <= Rank(|sorted|, percent) <= (|sorted| - 1) as real
    ensures Interpolated(sorted, percent, At(sorted, Rank(|sorted|, percent)))
  {
    var n := |sorted|;
    RankBounds(n, percent);
    forall i | 0 <= i && i + 1 < n && InSegment(n, i, percent)
      ensures OnSegment(sorted, i, percent, At(sorted, Rank(n, percent)))
    {
      AtOnSegment(sorted, i, percent, Rank(n, percent));
    }
  }

  lemma AtOnSegment(sorted: seq<real>, i: nat, percent: real, rank: real)
    requires i + 1 < |sorted| && InSegment(|sorted|, i, percent)
    requires 100.0 * rank == percent * (|sorted| - 1) as real && 0.0 <= rank <= (|sorted| - 1) as real
    ensures OnSegment(sorted, i, percent, At(sorted, rank))
  {
    var step, part := sorted[i + 1] - sorted[i], rank - i as real;
    assert 0.0 <= part <= 1.0;
    assert At(sorted, rank) == sorted[i] + step * part by {
      if part == 1.0 {
        assert rank.Floor == i + 1;
      } else {
        assert rank.Floor == i;
      }
    }
    Hundredfold(step, part);
  }

  lemma Hundredfold(step: real, part: real)
    ensures 100.0 * (step * part) == step * (100.0 * part)
  {
  }

  /** A percentage has one value. */
  lemma PercentileUnique(values: seq<real>, percent: real, a: real, b: real)
    requires values != [] && 0.0 <= percent <= 100.0
    requires IsPercentile(values, percent, a) && IsPercentile(values, percent, b)
    ensures a == b
  {
    var s :| IsSorting(s, values) && Interpolated(s, percent, a);
    var t :| IsSorting(t, values) && Interpolated(t, percent, b);
    SortingUnique(s, t);
    SameLength(s, values);
    if |s| > 1 {
      var i := SegmentOf(|s|, percent);
      assert OnSegment(s, i, percent, a) && OnSegment(t, i, percent, b);
    }
  }

  lemma SegmentOf(n: nat, percent: real) returns (i: nat)
    requires n > 1 && 0.0 <= percent <= 100.0
    ensures i + 1 < n && InSegment(n, i, percent)
  {
    RankBounds(n, percent);
    var floor := Rank(n, percent).Floor;
    i := if floor == n - 1 then n - 2 else floor;
    assert 100.0 * Rank(n, percent) == percent * (n - 1) as real;
  }

  /** It is the value at the percentage's rank. */
  lemma PercentileAt(values: seq<real>, percent: real, tau: real)
    requires values != [] && 0.0 <= percent <= 100.0 && IsPercentile(values, percent, tau)
    ensures 0.0 <= Rank(|values|, percent) <= (|values| - 1) as real
    ensures tau == At(SortValues(values), Rank(|values|, percent))
  {
    var sorted := SortValues(values);
    ValuesSorted(values);
    AtInterpolated(sorted, percent);
    PercentileUnique(values, percent, tau, At(sorted, Rank(|values|, percent)));
  }

  /** At 0 it is the smallest value and at 100 the greatest. */
  lemma PercentileEnds(values: seq<real>, percent: real, tau: real)
    requires values != [] && IsPercentile(values, percent, tau)
    ensures percent == 0.0 ==> tau in values && forall x :: x in values ==> tau <= x
    ensures percent == 100.0 ==> tau in values && forall x :: x in values ==> x <= tau
  {
    var sorted :| IsSorting(sorted, values) && Interpolated(sorted, percent, tau);
    SameElements(sorted, values);
    SameLength(sorted, values);
    if |sorted| > 1 && percent == 0.0 {
      LowestValue(sorted, tau);
    } else if |sorted| > 1 && percent == 100.0 {
      HighestValue(sorted, tau);
    }
  }

  lemma LowestValue(sorted: seq<real>, tau: real)
    requires |sorted| > 1 && Interpolated(sorted, 0.0, tau)
    ensures tau == sorted[0]
  {
    Places(|sorted|, 0);
    assert OnSegment(sorted, 0, 0.0, tau);
  }

  lemma HighestValue(sorted: seq<real>, tau: real)
    requires |sorted| > 1 && Interpolated(sorted, 100.0, tau)
    ensures tau == sorted[|sorted| - 1]
  {
    var i := |sorted| - 2;
    Places(|sorted|, i);
    assert OnSegment(sorted, i, 100.0, tau);
    var step, whole := sorted[i + 1] - sorted[i], 100.0 * (|sorted| - 1) as real - 100.0 * i as real;
    assert step * whole == step * 100.0;
  }

  /** Where 0 and 100 are among n values. */
  lemma Places(n: nat, i: nat)
    requires i + 1 < n
    ensures i == 0 ==> InSegment(n, i, 0.0) && 0.0 * (n - 1) as real - 100.0 * i as real == 0.0
    ensures i == n - 2 ==> InSegment(n, i, 100.0) && 100.0 * (n - 1) as real - 100.0 * i as real == 100.0
  {
  }

  // ----- The threshold

  /** The scores of the first n tokens. */
  function Scores(tokens: seq<Token>, n: nat): seq<real>
    requires n <= |tokens|
  {
    if n == 0 then []
    else Scores(tokens, n - 1) + if tokens[n - 1].entropy.Some? then [tokens[n - 1].entropy.value] else []
  }

  lemma {:induction false} ScoresValid(tokens: seq<Token>, n: nat)
    requires n <= |tokens| && EntropiesOk(tokens)
    ensures forall i :: 0 <= i < |Scores(tokens, n)| ==> Scores(tokens, n)[i] >= 0.0
  {
    if n > 0 {
      ScoresValid(tokens, n - 1);
    }
  }

  /** A percentile of scores lies among them: some score is at most it and some is at least it. */
  lemma PercentileAmong(values: seq<real>, percent: real, tau: real)
    requires values != [] && 0.0 <= percent <= 100.0 && IsPercentile(values, percent, tau)
    ensures exists i :: 0 <= i < |values| && values[i] <= tau
    ensures exists i :: 0 <= i < |values| && tau <= values[i]
  {
    PercentileAt(values, percent, tau);
    RankBounds(|values|, percent);
    ValuesSorted(values);
    var sorted, rank := SortValues(values), Rank(|values|, percent);
    AtBetween(sorted, rank);
    var low, high := sorted[rank.Floor], sorted[Ceiling(rank)];
    assert low in sorted && high in sorted;
    assert low in values && high in values;
  }

  /** A higher percentile is no smaller threshold. */
  lemma PercentileMonotone(values: seq<real>, p: real, q: real, a: real, b: real)
    requires values != [] && 0.0 <= p <= q <= 100.0 && IsPercentile(values, p, a) && IsPercentile(values, q, b)
    ensures a <= b
  {
    PercentileAt(values, p, a);
    PercentileAt(values, q, b);
    RankBounds(|values|, p);
    RankBounds(|values|, q);
    RankMonotone(|values|, p, q);
    ValuesSorted(values);
    AtMonotone(SortValues(values), Rank(|values|, p), Rank(|values|, q));
  }

  /** The threshold is the one given, or the percentile of the scores that is asked for. */
  ghost predicate IsThreshold(tokens: seq<Token>, rule: TauRule, tau: real) {
    match rule
    case Absolute(value) => tau == value
    case Percentile(percent) =>
      var values := Scores(tokens, |tokens|);
      if values == [] then tau == 0.0 else IsPercentile(values, percent, tau)
  }

  /** The threshold a rule gives: None instead of an error. Valid scores never give a negative one. */
  method Resolve(tokens: seq<Token>, rule: TauRule) returns (tau: Option<real>)
    requires EntropiesOk(tokens)
    ensures tau.Some? <==> RuleOk(rule)
    ensures tau.Some? ==> tau.value >= 0.0 && IsThreshold(tokens, rule, tau.value)
  {
    var values: seq<real> := [];
    for i := 0 to |tokens|
      invariant values == Scores(tokens, i)
    {
      if tokens[i].entropy.Some? {
        values := values + [tokens[i].entropy.value];
      }
    }
    match rule {
      case Absolute(value) =>
        return if value < 0.0 then None else Some(value);
      case Percentile(percent) =>
        if percent < 0.0 || percent > 100.0 {
          return None;
        }
        var found := PercentileOf(values, percent);
        if found.None? {
          return Some(0.0);
        }
        ScoresValid(tokens, |tokens|);
        PercentileAmong(values, percent, found.value);
        return found;
    }
  }
}
