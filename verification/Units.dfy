/** Cutting a token stream into semantic units: DetectSemanticUnits, src/core.cc:115-269. */
module Units {
  import opened Wrappers
  import opened Tokens
  import opened Sweep

  datatype Mode = Structural | Reference

  datatype SemanticUnit = SemanticUnit(start: nat, end: nat, depth: nat)

  // ----- First token of each line

  /** The line that holds the byte: the last one starting at or before it. */
  predicate IsLineOf(lineStarts: seq<nat>, line: nat, byte: nat) {
    && line < |lineStarts| && lineStarts[line] <= byte
    && (line + 1 < |lineStarts| ==> byte < lineStarts[line + 1])
  }

  /** f is the first token that starts on the line where token i starts; without lines, i itself. */
  ghost predicate OpensLine(tokens: seq<Token>, lineStarts: seq<nat>, i: nat, f: nat)
    requires i < |tokens|
  {
    f <= i && if lineStarts == [] then f == i else exists line: nat :: OpensThisLine(tokens, lineStarts, i, f, line)
  }

  predicate OpensThisLine(tokens: seq<Token>, lineStarts: seq<nat>, i: nat, f: nat, line: nat)
    requires f <= i < |tokens|
  {
    && IsLineOf(lineStarts, line, tokens[i].start)
    && lineStarts[line] <= tokens[f].start
    && forall j :: 0 <= j < f ==> tokens[j].start < lineStarts[line]
  }

  method FirstTokensOnLines(tokens: seq<Token>, lineStarts: seq<nat>) returns (first: seq<nat>)
    requires TokensOk(tokens) && LinesOk(lineStarts)
    ensures |first| == |tokens| && forall i :: 0 <= i < |tokens| ==> OpensLine(tokens, lineStarts, i, first[i])
  {
    first := [];
    if lineStarts == [] {
      for i := 0 to |tokens|
        invariant |first| == i && forall j :: 0 <= j < i ==> first[j] == j
      {
        first := first + [i];
      }
      return;
    }
    var line: nat, token: nat := 0, 0;
    for i := 0 to |tokens|
      invariant line < |lineStarts| && token <= i
      invariant |first| == i && forall j :: 0 <= j < i ==> OpensLine(tokens, lineStarts, j, first[j])
      invariant if i > 0 then lineStarts[line] <= tokens[i - 1].start else line == 0
      invariant forall j :: 0 <= j < token ==> tokens[j].start < lineStarts[line]
    {
      line, token := AdvanceLine(tokens, lineStarts, i, line, token);
      assert OpensThisLine(tokens, lineStarts, i, token, line);
      first := first + [token];
    }
  }

  /** Moves to the line of token i, and to the first token on it. */
  method AdvanceLine(tokens: seq<Token>, lineStarts: seq<nat>, i: nat, line0: nat, token0: nat)
    returns (line: nat, token: nat)
    requires LinesOk(lineStarts) && line0 < |lineStarts| && token0 <= i < |tokens|
    requires lineStarts[line0] <= tokens[i].start
    requires forall j :: 0 <= j < token0 ==> tokens[j].start < lineStarts[line0]
    ensures IsLineOf(lineStarts, line, tokens[i].start)
    ensures token <= i && lineStarts[line] <= tokens[token].start
    ensures forall j :: 0 <= j < token ==> tokens[j].start < lineStarts[line]
  {
    line, token := line0, token0;
    while line + 1 < |lineStarts| && lineStarts[line + 1] <= tokens[i].start
      invariant line0 <= line < |lineStarts| && lineStarts[line] <= tokens[i].start
      invariant lineStarts[line0] <= lineStarts[line]
    {
      line := line + 1;
    }
    while token < i && tokens[token].start < lineStarts[line]
      invariant token <= i
      invariant forall j :: 0 <= j < token ==> tokens[j].start < lineStarts[line]
    {
      token := token + 1;
    }
  }

  // ----- Boundaries

  /** The parameters of the cut that stay fixed while it runs. */
  datatype Cut = Cut(
    tokens: seq<Token>, events: seq<StructuralEvent>, first: seq<nat>, tau: real, mode: Mode,
    spanStartsSource: bool, sourceStart: nat, sourceEnd: nat)

  predicate CutOk(c: Cut) {
    && c.sourceStart <= c.sourceEnd <= |c.tokens| == |c.first|
    && forall i :: 0 <= i < |c.first| ==> c.first[i] <= i
  }

  function Max(a: nat, b: nat): nat {
    if a > b then a else b
  }

  /** Token i is a marker: scored, at or above tau, and not the opening code token of the source. */
  predicate IsMarker(c: Cut, i: nat)
    requires CutOk(c)
  {
    && c.sourceStart + (if c.spanStartsSource then 1 else 0) <= i < c.sourceEnd
    && c.tokens[i].entropy.Some? && c.tokens[i].entropy.value >= c.tau
  }

  /** A marker cuts before the first token of its line. */
  function Snapped(c: Cut, i: nat): nat
    requires CutOk(c) && i < |c.tokens|
  {
    Max(c.first[i], c.sourceStart)
  }

  predicate MarkedAt(c: Cut, b: nat)
    requires CutOk(c)
  {
    exists i :: 0 <= i < |c.tokens| && IsMarker(c, i) && Snapped(c, i) == b
  }

  predicate EventEndsAt(c: Cut, b: nat) {
    exists k :: 0 <= k < |c.events| && TokenIndexAt(c.tokens, c.events[k].byteOffset) == b
  }

  /** Where units may begin or end: the edges of the source, marked lines, and in structural mode the ends of events. */
  predicate IsBoundary(c: Cut, b: nat)
    requires CutOk(c)
  {
    || b == c.sourceStart || b == c.sourceEnd
    || (c.sourceStart < b < c.sourceEnd && (MarkedAt(c, b) || (c.mode.Structural? && EventEndsAt(c, b))))
  }

  method Boundaries(c: Cut) returns (boundaries: set<nat>, markerAtStart: bool)
    requires CutOk(c)
    ensures forall b :: b in boundaries <==> IsBoundary(c, b)
    ensures markerAtStart <==> MarkedAt(c, c.sourceStart)
  {
    boundaries, markerAtStart := MarkerBoundaries(c);
    if c.mode.Structural? {
      var k := 0;
      while k < |c.events|
        invariant k <= |c.events|
        invariant forall b :: b in boundaries ==> IsBoundary(c, b)
        invariant c.sourceStart in boundaries && c.sourceEnd in boundaries
        invariant forall b :: c.sourceStart < b < c.sourceEnd && MarkedAt(c, b) ==> b in boundaries
        invariant forall j :: 0 <= j < k ==>
          var b := TokenIndexAt(c.tokens, c.events[j].byteOffset);
          c.sourceStart < b < c.sourceEnd ==> b in boundaries
      {
        var boundary := TokenIndexAt(c.tokens, c.events[k].byteOffset);
        if c.sourceStart < boundary < c.sourceEnd {
          assert EventEndsAt(c, boundary);
          boundaries := boundaries + {boundary};
        }
        k := k + 1;
      }
    }
  }

  method MarkerBoundaries(c: Cut) returns (boundaries: set<nat>, markerAtStart: bool)
    requires CutOk(c)
    ensures forall b :: b in boundaries <==>
              b == c.sourceStart || b == c.sourceEnd || (c.sourceStart < b < c.sourceEnd && MarkedAt(c, b))
    ensures markerAtStart <==> MarkedAt(c, c.sourceStart)
  {
    boundaries, markerAtStart := {c.sourceStart, c.sourceEnd}, false;
    var i := c.sourceStart + if c.spanStartsSource then 1 else 0;
    while i < c.sourceEnd
      invariant forall b :: b in boundaries ==>
        b == c.sourceStart || b == c.sourceEnd || (c.sourceStart < b < c.sourceEnd && MarkedAt(c, b))
      invariant c.sourceStart in boundaries && c.sourceEnd in boundaries
      invariant markerAtStart ==> MarkedAt(c, c.sourceStart)
      invariant forall j :: 0 <= j < i && j < |c.tokens| && IsMarker(c, j) ==>
        if Snapped(c, j) == c.sourceStart then markerAtStart else Snapped(c, j) in boundaries
    {
      if c.tokens[i].entropy.Some? && c.tokens[i].entropy.value >= c.tau {
        var boundary := Max(c.first[i], c.sourceStart);
        assert IsMarker(c, i) && Snapped(c, i) == boundary;
        if boundary == c.sourceStart {
          markerAtStart := true;
        } else if c.sourceStart < boundary < c.sourceEnd {
          boundaries := boundaries + {boundary};
        }
      }
      i := i + 1;
    }
  }

  predicate Increasing(q: seq<nat>) {
    forall i, j :: 0 <= i < j < |q| ==> q[i] < q[j]
  }

  lemma {:induction false} LeastExists(s: set<nat>, x: nat)
    requires x in s
    ensures exists m :: m in s && forall y :: y in s ==> m <= y
    decreases x
  {
    if y :| y in s && y < x {
      LeastExists(s, y);
    }
  }

  /** The elements of s outside rest, in order, and below all of rest. */
  ghost predicate Listed(q: seq<nat>, s: set<nat>, rest: set<nat>) {
    && rest <= s && Increasing(q)
    && (forall x :: x in q <==> x in s && x !in rest)
    && (forall x, y :: x in q && y in rest ==> x < y)
  }

  lemma ListedStep(q: seq<nat>, s: set<nat>, rest: set<nat>, m: nat)
    requires Listed(q, s, rest) && m in rest && forall x :: x in rest ==> m <= x
    ensures Listed(q + [m], s, rest - {m})
  {
    forall i | 0 <= i < |q| ensures q[i] < m {
      assert q[i] in q;
    }
  }

  /** The set read in ascending order. */
  method InOrder(s: set<nat>) returns (q: seq<nat>)
    ensures Increasing(q) && forall x :: x in q <==> x in s
  {
    q := [];
    var rest := s;
    while rest != {}
      invariant Listed(q, s, rest)
      decreases |rest|
    {
      ghost var some :| some in rest;
      LeastExists(rest, some);
      var m :| m in rest && forall x :: x in rest ==> m <= x;
      ListedStep(q, s, rest, m);
      q := q + [m];
      rest := rest - {m};
    }
  }

  // ----- From boundaries to units

  /** The source layout the sweep reads. */
  datatype Layout = Layout(tokens: seq<Token>, ranges: seq<SourceRange>, end: nat)

  predicate LayoutOk(w: Layout) {
    && TokensOk(w.tokens) && w.tokens != [] && RangesOk(w.ranges, SourceEnd(w.tokens))
    && w.end == if w.ranges == [] then SourceEnd(w.tokens) else w.ranges[|w.ranges| - 1].end
  }

  /** The first meaningful range that ends after the byte. */
  function FirstRange(ranges: seq<SourceRange>, byte: nat, from: nat := 0): (r: nat)
    requires from <= |ranges|
    ensures from <= r <= |ranges|
    ensures forall j :: from <= j < r ==> ranges[j].end <= byte
    ensures r < |ranges| ==> byte < ranges[r].end
    decreases |ranges| - from
  {
    if from == |ranges| || byte < ranges[from].end then from else FirstRange(ranges, byte, from + 1)
  }

  /** The stretch of meaningful source in the tokens from a to b: it starts at the first meaningful byte, if any. */
  function Stretch(w: Layout, a: nat, b: nat): Option<SourceRange>
    requires a < b <= |w.tokens|
  {
    var start, end := w.tokens[a].start, w.tokens[b - 1].end;
    var clipped := if end < w.end then end else w.end;
    if w.ranges == [] then Some(SourceRange(start, clipped))
    else
      var r := FirstRange(w.ranges, start);
      if r == |w.ranges| || w.ranges[r].start >= end then None
      else Some(SourceRange(Max(start, w.ranges[r].start), clipped))
  }

  function UnitAt(w: Layout, events: seq<StructuralEvent>, a: nat, b: nat): Option<SemanticUnit>
    requires a < b <= |w.tokens|
  {
    match Stretch(w, a, b)
    case None => None
    case Some(s) => Some(SemanticUnit(s.start, s.end, DepthAt(events, s.start)))
  }

  predicate IndicesOk(w: Layout, indices: seq<nat>) {
    Increasing(indices) && forall i :: 0 <= i < |indices| ==> indices[i] <= |w.tokens|
  }

  /** The units of the intervals from first up to n. */
  function UnitsUpTo(w: Layout, events: seq<StructuralEvent>, indices: seq<nat>, first: nat, n: nat): seq<SemanticUnit>
    requires IndicesOk(w, indices) && (first < n ==> n < |indices|)
    decreases n
  {
    if n <= first then []
    else
      Extended(UnitsUpTo(w, events, indices, first, n - 1), UnitAt(w, events, indices[n - 1], indices[n]))
  }

  function Extended(units: seq<SemanticUnit>, unit: Option<SemanticUnit>): seq<SemanticUnit> {
    if unit.None? then units else units + [unit.value]
  }

  /** What the interval loop carries along: its place among events and ranges, and the two containers. */
  datatype Running = Running(eventIndex: nat, rangeIndex: nat, ending: seq<EndDepth>, active: seq<nat>)

  /** The loop has swept to some position no later than the next interval. */
  ghost predicate Reached(w: Layout, sorted: seq<StructuralEvent>, r: Running, at: nat, a: nat) {
    && Swept(sorted, r.eventIndex, r.ending, r.active, at)
    && (a < |w.tokens| ==> at <= w.tokens[a].start && r.rangeIndex <= FirstRange(w.ranges, w.tokens[a].start))
  }

  method SkipRanges(ranges: seq<SourceRange>, byte: nat, from: nat) returns (r: nat)
    requires from <= FirstRange(ranges, byte)
    ensures r == FirstRange(ranges, byte)
  {
    r := from;
    while r < |ranges| && ranges[r].end <= byte
      invariant r <= FirstRange(ranges, byte)
    {
      r := r + 1;
    }
  }

  /** One round of the interval loop; None when the interval holds no meaningful source. */
  method OneInterval(
    w: Layout, ghost events: seq<StructuralEvent>, sorted: seq<StructuralEvent>, a: nat, b: nat, r0: Running,
    ghost at0: nat)
    returns (unit: Option<SemanticUnit>, r: Running, ghost at: nat)
    requires LayoutOk(w) && a < b <= |w.tokens|
    requires StartsAscend(sorted) && forall e :: e in events <==> e in sorted
    requires Reached(w, sorted, r0, at0, a)
    ensures unit == UnitAt(w, events, a, b)
    ensures Reached(w, sorted, r, at, b)
  {
    var intervalStart, intervalEnd := w.tokens[a].start, w.tokens[b - 1].end;
    IntervalOrder(w, a, b);
    var rangeIndex := SkipRanges(w.ranges, intervalStart, r0.rangeIndex);
    r, at := r0.(rangeIndex := rangeIndex), at0;
    if w.ranges != [] && (rangeIndex >= |w.ranges| || w.ranges[rangeIndex].start >= intervalEnd) {
      if b < |w.tokens| {
        SweptLater(sorted, r.eventIndex, r.ending, r.active, at, at);
      }
      return None, r, at;
    }
    var startByte := if w.ranges == [] then intervalStart else Max(intervalStart, w.ranges[rangeIndex].start);
    var eventIndex, ending, active := Advance(sorted, r0.eventIndex, r0.ending, r0.active, at0, startByte);
    SweptDepth(sorted, eventIndex, ending, active, startByte);
    var depth := if active == [] then 0 else active[|active| - 1];
    DepthUnique(events, sorted, startByte, depth);
    r, at := Running(eventIndex, rangeIndex, ending, active), startByte;
    unit := Some(SemanticUnit(startByte, if intervalEnd < w.end then intervalEnd else w.end, depth));
  }

  /** An interval of tokens is not empty, and what follows it starts no earlier than it ends. */
  lemma IntervalOrder(w: Layout, a: nat, b: nat)
    requires TokensOk(w.tokens) && a < b <= |w.tokens|
    ensures w.tokens[a].start < w.tokens[b - 1].end
    ensures b < |w.tokens| ==> w.tokens[b - 1].end <= w.tokens[b].start
    ensures b < |w.tokens| ==> FirstRange(w.ranges, w.tokens[a].start) <= FirstRange(w.ranges, w.tokens[b].start)
  {
  }

  /** The interval loop: one unit for each interval with meaningful source, its depth read off the running sweep. */
  method SweepIntervals(w: Layout, events: seq<StructuralEvent>, indices: seq<nat>, first: nat)
    returns (units: seq<SemanticUnit>)
    requires LayoutOk(w) && IndicesOk(w, indices) && indices != []
    ensures units == UnitsUpTo(w, events, indices, first, |indices| - 1)
  {
    var sorted := SortByStart(events);
    SortByStartSorts(events);
    units := SweepSorted(w, events, sorted, indices, first);
  }

  method SweepSorted(
    w: Layout, ghost events: seq<StructuralEvent>, sorted: seq<StructuralEvent>, indices: seq<nat>, first: nat)
    returns (units: seq<SemanticUnit>)
    requires LayoutOk(w) && IndicesOk(w, indices) && indices != []
    requires StartsAscend(sorted) && forall e :: e in events <==> e in sorted
    ensures units == UnitsUpTo(w, events, indices, first, |indices| - 1)
  {
    if first + 1 >= |indices| {
      return [];
    }
    units := SweepFrom(w, events, sorted, indices, first);
  }

  /** The interval loop. */
  method SweepFrom(
    w: Layout, ghost events: seq<StructuralEvent>, sorted: seq<StructuralEvent>, indices: seq<nat>, first: nat)
    returns (units: seq<SemanticUnit>)
    requires LayoutOk(w) && IndicesOk(w, indices) && first + 1 < |indices|
    requires StartsAscend(sorted) && forall e :: e in events <==> e in sorted
    ensures units == UnitsUpTo(w, events, indices, first, |indices| - 1)
  {
    units := [];
    var r := Running(0, 0, [], []);
    ghost var at: nat := 0;
    SweepStart(w, events, sorted, indices, first);
    for i := first to |indices| - 1
      invariant Sweeping(w, events, sorted, indices, first, i, units, r, at)
    {
      units, r, at := NextInterval(w, events, sorted, indices, first, i, units, r, at);
    }
  }

  lemma SweepStart(
    w: Layout, events: seq<StructuralEvent>, sorted: seq<StructuralEvent>, indices: seq<nat>, first: nat)
    requires IndicesOk(w, indices) && first < |indices|
    ensures Sweeping(w, events, sorted, indices, first, first, [], Running(0, 0, [], []), 0)
  {
  }

  /** The intervals from first up to i have been swept. */
  ghost predicate Sweeping(
    w: Layout, events: seq<StructuralEvent>, sorted: seq<StructuralEvent>, indices: seq<nat>, first: nat, i: nat,
    units: seq<SemanticUnit>, r: Running, at: nat)
  {
    && IndicesOk(w, indices) && first <= i < |indices|
    && units == UnitsUpTo(w, events, indices, first, i)
    && Reached(w, sorted, r, at, indices[i])
  }

  /** The body of the interval loop: appends the unit of interval i, if it has one. */
  method NextInterval(
    w: Layout, ghost events: seq<StructuralEvent>, sorted: seq<StructuralEvent>, indices: seq<nat>,
    ghost first: nat, i: nat, units0: seq<SemanticUnit>, r0: Running, ghost at0: nat)
    returns (units: seq<SemanticUnit>, r: Running, ghost at: nat)
    requires LayoutOk(w) && i + 1 < |indices| && Sweeping(w, events, sorted, indices, first, i, units0, r0, at0)
    requires StartsAscend(sorted) && forall e :: e in events <==> e in sorted
    ensures Sweeping(w, events, sorted, indices, first, i + 1, units, r, at)
  {
    assert indices[i] < indices[i + 1] <= |w.tokens|;
    var unit;
    unit, r, at := OneInterval(w, events, sorted, indices[i], indices[i + 1], r0, at0);
    units := if unit.Some? then units0 + [unit.value] else units0;
  }

  // ----- What the units are

  /** Units are non-empty, ordered and disjoint. */
  predicate Partition(units: seq<SemanticUnit>) {
    && (forall k :: 0 <= k < |units| ==> units[k].start < units[k].end)
    && (forall j, k :: 0 <= j < k < |units| ==> units[j].end <= units[k].start)
  }

  predicate Holds(u: SemanticUnit, byte: nat) {
    u.start <= byte < u.end
  }

  /** The byte belongs to token t and, when the layout is known, to a meaningful range. */
  predicate MeaningfulIn(w: Layout, t: nat, byte: nat) {
    && t < |w.tokens| && w.tokens[t].start <= byte < w.tokens[t].end
    && (w.ranges == [] || Covers(w.ranges, byte))
  }

  /** Every interval but the last boundary begins before the end of the meaningful source. */
  predicate BeginEarly(w: Layout, indices: seq<nat>)
    requires IndicesOk(w, indices)
  {
    forall i :: 0 <= i && i + 1 < |indices| ==> indices[i] < |w.tokens| && w.tokens[indices[i]].start < w.end
  }

  predicate DepthsOk(units: seq<SemanticUnit>, events: seq<StructuralEvent>) {
    forall k :: 0 <= k < |units| ==> units[k].depth == DepthAt(events, units[k].start)
  }

  predicate EndBy(units: seq<SemanticUnit>, limit: nat) {
    units != [] ==> units[|units| - 1].end <= limit
  }

  lemma PartitionAppend(units: seq<SemanticUnit>, events: seq<StructuralEvent>, u: SemanticUnit)
    requires Partition(units) && DepthsOk(units, events) && EndBy(units, u.start)
    requires u.start < u.end && u.depth == DepthAt(events, u.start)
    ensures Partition(units + [u]) && DepthsOk(units + [u], events) && EndBy(units + [u], u.end)
  {
  }

  /** The units of earlier intervals end before later ones begin, and each has the depth of its start. */
  lemma {:induction false} UnitsPartition(
    w: Layout, events: seq<StructuralEvent>, indices: seq<nat>, first: nat, n: nat)
    requires LayoutOk(w) && IndicesOk(w, indices) && BeginEarly(w, indices) && (first < n ==> n < |indices|)
    ensures var units := UnitsUpTo(w, events, indices, first, n);
            && Partition(units) && DepthsOk(units, events)
            && (if first < n then EndBy(units, w.tokens[indices[n] - 1].end) else units == [])
    decreases n
  {
    if first < n {
      var a, b := indices[n - 1], indices[n];
      UnitsPartition(w, events, indices, first, n - 1);
      AppendInterval(w, events, UnitsUpTo(w, events, indices, first, n - 1), a, b);
    }
  }

  lemma AppendInterval(w: Layout, events: seq<StructuralEvent>, front: seq<SemanticUnit>, a: nat, b: nat)
    requires LayoutOk(w) && a < b <= |w.tokens| && w.tokens[a].start < w.end
    requires Partition(front) && DepthsOk(front, events)
    requires EndBy(front, if a == 0 then 0 else w.tokens[a - 1].end)
    ensures var units := Extended(front, UnitAt(w, events, a, b));
            Partition(units) && DepthsOk(units, events) && EndBy(units, w.tokens[b - 1].end)
  {
    StretchInside(w, a, b);
    var u := UnitAt(w, events, a, b);
    if u.Some? {
      PartitionAppend(front, events, u.value);
    }
  }

  lemma RangesEndBy(w: Layout, r: nat)
    requires LayoutOk(w) && r < |w.ranges|
    ensures w.ranges[r].start < w.ranges[r].end <= w.end
  {
  }

  lemma StretchInside(w: Layout, a: nat, b: nat)
    requires LayoutOk(w) && a < b <= |w.tokens| && w.tokens[a].start < w.end
    ensures Stretch(w, a, b).Some? ==>
              var s := Stretch(w, a, b).value;
              w.tokens[a].start <= s.start < s.end <= w.tokens[b - 1].end
    ensures a > 0 ==> w.tokens[a - 1].end <= w.tokens[a].start
    ensures w.tokens[a].start < w.tokens[b - 1].end
  {
    IntervalOrder(w, a, b);
    var r := FirstRange(w.ranges, w.tokens[a].start);
    if r < |w.ranges| {
      RangesEndBy(w, r);
    }
  }

  /** An interval's stretch reaches over each meaningful byte of its tokens. */
  lemma StretchCovers(w: Layout, a: nat, b: nat, t: nat, byte: nat)
    requires LayoutOk(w) && a <= t < b <= |w.tokens| && MeaningfulIn(w, t, byte)
    ensures Stretch(w, a, b).Some? && Stretch(w, a, b).value.start <= byte < Stretch(w, a, b).value.end
  {
    if w.ranges == [] {
    } else {
      var k :| 0 <= k < |w.ranges| && w.ranges[k].start <= byte < w.ranges[k].end;
      RangesEndBy(w, k);
      var r := FirstRange(w.ranges, w.tokens[a].start);
      assert r <= k;
      if r < k {
        RangesEndBy(w, r);
      }
    }
  }

  /** The interval a token lies in. */
  lemma {:induction false} FindInterval(indices: seq<nat>, t: nat, first: nat, n: nat) returns (i: nat)
    requires first <= n < |indices| && indices[first] <= t < indices[n]
    ensures first <= i < n && indices[i] <= t < indices[i + 1]
  {
    if indices[n - 1] <= t {
      i := n - 1;
    } else {
      i := FindInterval(indices, t, first, n - 1);
    }
  }

  /** The unit of an interval is among the units. */
  lemma {:induction false} UnitIncluded(
    w: Layout, events: seq<StructuralEvent>, indices: seq<nat>, first: nat, n: nat, i: nat) returns (k: nat)
    requires IndicesOk(w, indices) && first <= i < n < |indices|
    requires UnitAt(w, events, indices[i], indices[i + 1]).Some?
    ensures k < |UnitsUpTo(w, events, indices, first, n)|
    ensures UnitsUpTo(w, events, indices, first, n)[k] == UnitAt(w, events, indices[i], indices[i + 1]).value
    decreases n
  {
    if i == n - 1 {
      k := |UnitsUpTo(w, events, indices, first, n - 1)|;
    } else {
      k := UnitIncluded(w, events, indices, first, n - 1, i);
    }
  }

  ghost predicate InExactlyOne(units: seq<SemanticUnit>, byte: nat) {
    exists k :: 0 <= k < |units| && Holds(units[k], byte)
      && forall j :: 0 <= j < |units| && Holds(units[j], byte) ==> j == k
  }

  /** The unit that holds a meaningful byte. */
  lemma HeldBy(
    w: Layout, events: seq<StructuralEvent>, indices: seq<nat>, first: nat, t: nat, byte: nat) returns (k: nat)
    requires LayoutOk(w) && IndicesOk(w, indices) && first < |indices|
    requires MeaningfulIn(w, t, byte) && indices[first] <= t < indices[|indices| - 1]
    ensures k < |UnitsUpTo(w, events, indices, first, |indices| - 1)|
    ensures Holds(UnitsUpTo(w, events, indices, first, |indices| - 1)[k], byte)
  {
    var n := |indices| - 1;
    var i := FindInterval(indices, t, first, n);
    UnitHolds(w, events, indices[i], indices[i + 1], t, byte);
    k := UnitIncluded(w, events, indices, first, n, i);
  }

  lemma UnitHolds(w: Layout, events: seq<StructuralEvent>, a: nat, b: nat, t: nat, byte: nat)
    requires LayoutOk(w) && a <= t < b <= |w.tokens| && MeaningfulIn(w, t, byte)
    ensures UnitAt(w, events, a, b).Some? && Holds(UnitAt(w, events, a, b).value, byte)
  {
    StretchCovers(w, a, b, t, byte);
  }

  /** Each meaningful byte of the tokens from the first interval on lies in exactly one unit. */
  lemma Covered(
    w: Layout, events: seq<StructuralEvent>, indices: seq<nat>, first: nat, t: nat, byte: nat)
    requires LayoutOk(w) && IndicesOk(w, indices) && BeginEarly(w, indices) && first < |indices|
    requires MeaningfulIn(w, t, byte) && indices[first] <= t < indices[|indices| - 1]
    ensures InExactlyOne(UnitsUpTo(w, events, indices, first, |indices| - 1), byte)
  {
    var k := HeldBy(w, events, indices, first, t, byte);
    UnitsPartition(w, events, indices, first, |indices| - 1);
    OnlyHolder(UnitsUpTo(w, events, indices, first, |indices| - 1), k, byte);
  }

  lemma OnlyHolder(units: seq<SemanticUnit>, k: nat, byte: nat)
    requires Partition(units) && k < |units| && Holds(units[k], byte)
    ensures InExactlyOne(units, byte)
  {
    assert forall j :: 0 <= j < |units| && Holds(units[j], byte) ==> j == k;
  }

  // ----- The whole cut

  predicate EntropiesOk(tokens: seq<Token>) {
    forall i :: 0 <= i < |tokens| && tokens[i].entropy.Some? ==> tokens[i].entropy.value >= 0.0
  }

  /** The token in which the meaningful source starts. */
  function CodeStart(w: Layout): nat
    requires w.tokens != []
  {
    FirstOverlapping(w.tokens, if w.ranges == [] then w.tokens[0].start else w.ranges[0].start)
  }

  /** The fixed part of a cut of these inputs, given the first token of each line. */
  predicate IsCutOf(c: Cut, w: Layout)
    requires w.tokens != []
  {
    c.tokens == w.tokens && c.sourceStart == CodeStart(w) && c.sourceEnd == TokenIndexAt(w.tokens, w.end)
  }

  /** All boundaries of the cut in order. */
  ghost predicate AreBoundaries(c: Cut, indices: seq<nat>)
    requires CutOk(c)
  {
    Increasing(indices) && forall b :: b in indices <==> IsBoundary(c, b)
  }

  /** The reference tree leaves out what precedes the first marker. */
  function FirstInterval(c: Cut): nat
    requires CutOk(c)
  {
    if c.mode.Reference? && !MarkedAt(c, c.sourceStart) then 1 else 0
  }

  lemma AtMost(q: seq<nat>, i: nat, j: nat)
    requires Increasing(q) && i <= j < |q|
    ensures q[i] <= q[j]
  {
  }

  /** Boundaries in order run from the start of the meaningful source to its end. */
  lemma BoundariesSpan(c: Cut, w: Layout, indices: seq<nat>)
    requires LayoutOk(w) && CutOk(c) && IsCutOf(c, w) && AreBoundaries(c, indices)
    ensures indices != [] && indices[0] == c.sourceStart && indices[|indices| - 1] == c.sourceEnd
    ensures IndicesOk(w, indices) && BeginEarly(w, indices)
  {
    TokenIndexMeaning(w.tokens, w.end);
    assert c.sourceStart in indices && c.sourceEnd in indices;
    var n := |indices| - 1;
    forall i | 0 <= i <= n ensures c.sourceStart <= indices[i] <= c.sourceEnd {
      assert indices[i] in indices;
    }
    var first :| 0 <= first <= n && indices[first] == c.sourceStart;
    var last :| 0 <= last <= n && indices[last] == c.sourceEnd;
    AtMost(indices, 0, first);
    AtMost(indices, last, n);
  }

  /** A meaningful byte's token lies between the edges of the cut. */
  lemma InsideEdges(c: Cut, w: Layout, t: nat, byte: nat)
    requires LayoutOk(w) && IsCutOf(c, w) && MeaningfulIn(w, t, byte)
    ensures c.sourceStart <= t < c.sourceEnd
  {
    TokenIndexMeaning(w.tokens, w.end);
    if w.ranges == [] {
    } else {
      var r :| 0 <= r < |w.ranges| && w.ranges[r].start <= byte < w.ranges[r].end;
      RangesEndBy(w, r);
      if 0 < r {
        RangesEndBy(w, 0);
      }
    }
  }

  /** The units a cut with these boundaries produces. */
  function UnitsOf(c: Cut, w: Layout, indices: seq<nat>): seq<SemanticUnit>
    requires CutOk(c) && IndicesOk(w, indices) && indices != []
  {
    UnitsUpTo(w, c.events, indices, FirstInterval(c), |indices| - 1)
  }

  /**
   The units are non-empty, ordered, disjoint, and as deep as their first bytes. In structural mode every
   meaningful byte of a token lies in exactly one unit; in reference mode, every one from the first marked line on.
   */
  lemma UnitsOfCut(c: Cut, w: Layout, indices: seq<nat>)
    requires LayoutOk(w) && CutOk(c) && IsCutOf(c, w) && AreBoundaries(c, indices)
    ensures IndicesOk(w, indices) && indices != []
    ensures Partition(UnitsOf(c, w, indices)) && DepthsOk(UnitsOf(c, w, indices), c.events)
    ensures forall t, byte | MeaningfulIn(w, t, byte) && FirstInterval(c) < |indices| :: indices[FirstInterval(c)] <= t ==>
              InExactlyOne(UnitsOf(c, w, indices), byte)
    ensures c.mode.Structural? ==>
              forall t, byte :: MeaningfulIn(w, t, byte) ==> InExactlyOne(UnitsOf(c, w, indices), byte)
  {
    BoundariesSpan(c, w, indices);
    var first := FirstInterval(c);
    UnitsPartition(w, c.events, indices, first, |indices| - 1);
    forall t, byte | MeaningfulIn(w, t, byte) && first < |indices| && indices[first] <= t
      ensures InExactlyOne(UnitsOf(c, w, indices), byte)
    {
      InsideEdges(c, w, t, byte);
      Covered(w, c.events, indices, first, t, byte);
    }
    if c.mode.Structural? {
      forall t, byte | MeaningfulIn(w, t, byte) ensures InExactlyOne(UnitsOf(c, w, indices), byte) {
        InsideEdges(c, w, t, byte);
        Covered(w, c.events, indices, 0, t, byte);
      }
    }
  }

  /** The units of a cut end with the tokens. */
  lemma UnitsEnd(c: Cut, w: Layout, indices: seq<nat>)
    requires LayoutOk(w) && CutOk(c) && IsCutOf(c, w) && AreBoundaries(c, indices)
    ensures IndicesOk(w, indices) && indices != []
    ensures EndBy(UnitsOf(c, w, indices), SourceEnd(w.tokens))
  {
    BoundariesSpan(c, w, indices);
    var first, n := FirstInterval(c), |indices| - 1;
    UnitsPartition(w, c.events, indices, first, n);
    if first < n {
      assert w.tokens[indices[n] - 1].end <= SourceEnd(w.tokens);
    }
  }

  /**
   DetectSemanticUnits for a threshold that is already a number: None instead of an error. The ghost results name
   the cut and its boundaries; UnitsOfCut says what the units then are.
   */
  method DetectSemanticUnits(
    tokens: seq<Token>, events: seq<StructuralEvent>, lineStarts: seq<nat>, tau: real, ranges: seq<SourceRange>,
    mode: Mode, spanStartsSource: bool)
    returns (units: Option<seq<SemanticUnit>>, ghost c: Cut, ghost w: Layout, ghost indices: seq<nat>)
    ensures units.Some? <==> InputsOk(tokens, events, lineStarts, ranges) && EntropiesOk(tokens) && tau >= 0.0
    ensures units.Some? && tokens == [] ==> units.value == []
    ensures units.Some? && tokens != [] ==>
              && LayoutOk(w) && w.tokens == tokens && w.ranges == ranges
              && CutOk(c) && IsCutOf(c, w) && AreBoundaries(c, indices)
              && c.events == events && c.tau == tau && c.mode == mode && c.spanStartsSource == spanStartsSource
              && (forall i :: 0 <= i < |tokens| ==> OpensLine(tokens, lineStarts, i, c.first[i]))
              && IndicesOk(w, indices) && indices != []
              && units.value == UnitsOf(c, w, indices)
  {
    c, indices := Cut(tokens, events, [], tau, mode, spanStartsSource, 0, 0), [];
    w := Layout(tokens, ranges, 0);
    units := None;
    var valid := ValidateInputs(tokens, events, lineStarts, ranges);
    var scored := CheckEntropies(tokens);
    if !valid || !scored || tau < 0.0 {
      return;
    }
    if tokens == [] {
      units := Some([]);
      return;
    }
    var found;
    found, c, w, indices := CutTokens(tokens, events, lineStarts, tau, ranges, mode, spanStartsSource);
    units := Some(found);
  }

  /** The cut of valid inputs. */
  method CutTokens(
    tokens: seq<Token>, events: seq<StructuralEvent>, lineStarts: seq<nat>, tau: real, ranges: seq<SourceRange>,
    mode: Mode, spanStartsSource: bool)
    returns (units: seq<SemanticUnit>, ghost c: Cut, ghost w: Layout, ghost indices: seq<nat>)
    requires InputsOk(tokens, events, lineStarts, ranges) && tokens != []
    ensures LayoutOk(w) && w.tokens == tokens && w.ranges == ranges
    ensures CutOk(c) && IsCutOf(c, w) && AreBoundaries(c, indices)
    ensures c.events == events && c.tau == tau && c.mode == mode && c.spanStartsSource == spanStartsSource
    ensures forall i :: 0 <= i < |tokens| ==> OpensLine(tokens, lineStarts, i, c.first[i])
    ensures IndicesOk(w, indices) && indices != [] && units == UnitsOf(c, w, indices)
  {
    var meaningfulStart := if ranges == [] then tokens[0].start else ranges[0].start;
    var meaningfulEnd := if ranges == [] then tokens[|tokens| - 1].end else ranges[|ranges| - 1].end;
    var first := FirstTokensOnLines(tokens, lineStarts);
    var layout := Layout(tokens, ranges, meaningfulEnd);
    var sourceStart, sourceEnd := FirstOverlapping(tokens, meaningfulStart), TokenIndexAt(tokens, meaningfulEnd);
    EdgesInOrder(layout);
    var cut := Cut(tokens, events, first, tau, mode, spanStartsSource, sourceStart, sourceEnd);
    var inOrder;
    units, inOrder := UnitsOfBoundaries(cut, layout);
    c, w, indices := cut, layout, inOrder;
  }

  /** The boundaries in order, and the units between them. */
  method UnitsOfBoundaries(c: Cut, w: Layout) returns (units: seq<SemanticUnit>, indices: seq<nat>)
    requires LayoutOk(w) && CutOk(c) && IsCutOf(c, w)
    ensures AreBoundaries(c, indices) && IndicesOk(w, indices) && indices != []
    ensures units == UnitsOf(c, w, indices)
  {
    var boundaries, markerAtStart := Boundaries(c);
    indices := InOrder(boundaries);
    BoundariesSpan(c, w, indices);
    var firstInterval := if c.mode.Reference? && !markerAtStart then 1 else 0;
    units := SweepIntervals(w, c.events, indices, firstInterval);
  }

  lemma EdgesInOrder(w: Layout)
    requires LayoutOk(w)
    ensures CodeStart(w) <= TokenIndexAt(w.tokens, w.end)
  {
    TokenIndexMeaning(w.tokens, w.end);
    if w.ranges == [] {
      IntervalOrder(w, 0, |w.tokens|);
    } else {
      RangesEndBy(w, 0);
    }
    var start := if w.ranges == [] then w.tokens[0].start else w.ranges[0].start;
    var a := FirstOverlapping(w.tokens, start);
    assert forall j :: 0 <= j < a ==> w.tokens[j].start < w.tokens[j].end <= start < w.end;
  }

  method CheckEntropies(tokens: seq<Token>) returns (valid: bool)
    ensures valid <==> EntropiesOk(tokens)
  {
    for i := 0 to |tokens|
      invariant forall j :: 0 <= j < i && tokens[j].entropy.Some? ==> tokens[j].entropy.value >= 0.0
    {
      if tokens[i].entropy.Some? && tokens[i].entropy.value < 0.0 {
        return false;
      }
    }
    return true;
  }
}
