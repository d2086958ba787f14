/**
 Where the source is cut into semantic units, said of the inputs alone: src/core.cc:115-269. Two meaningful bytes lie in
 one unit exactly when there is no cut between their tokens.
 */
module Cuts {
  import opened Wrappers
  import opened Tokens
  import opened Units

  function LayoutOf(tokens: seq<Token>, ranges: seq<SourceRange>): Layout {
    Layout(tokens, ranges, if ranges == [] then SourceEnd(tokens) else ranges[|ranges| - 1].end)
  }

  /** How high a score must be to mark a token, how units become scores, and which of the two trees is built. */
  datatype Settings = Settings(tau: real, alpha: real, mode: Mode)

  /** What the cuts depend on, besides the tokens and ranges. */
  datatype Context = Context(
    events: seq<StructuralEvent>, lineStarts: seq<nat>, settings: Settings, startsSource: bool)

  // ----- Cuts

  /** Token m is scored at or above the threshold, in the source, and not its opening code token. */
  predicate Marks(w: Layout, x: Context, m: nat)
    requires m < |w.tokens|
  {
    && CodeStart(w) + (if x.startsSource then 1 else 0) <= m < TokenIndexAt(w.tokens, w.end)
    && w.tokens[m].entropy.Some? && w.tokens[m].entropy.value >= x.settings.tau
  }

  /** Token b is the first that starts at the byte or behind it. */
  predicate FirstBehind(tokens: seq<Token>, byte: nat, b: nat) {
    b < |tokens| && byte <= tokens[b].start && (b > 0 ==> tokens[b - 1].start < byte)
  }

  /** Token b is the first on the line of a marked token. */
  ghost predicate MarkedLine(w: Layout, x: Context, b: nat) {
    exists m :: 0 <= m < |w.tokens| && Marks(w, x, m) && OpensLine(w.tokens, x.lineStarts, m, b)
  }

  /**
   There is a cut before token b: it is the first on the line of a marked token or, in structural mode, the first behind
   the end of an event.
   */
  ghost predicate CutBefore(w: Layout, x: Context, b: nat) {
    || MarkedLine(w, x, b)
    || (x.settings.mode.Structural?
        && exists k :: 0 <= k < |x.events| && FirstBehind(w.tokens, x.events[k].byteOffset, b))
  }

  ghost predicate CutBetween(w: Layout, x: Context, t: nat, u: nat) {
    exists b :: t < b <= u && CutBefore(w, x, b)
  }

  /** The reference tree leaves out what precedes the first cut. */
  ghost predicate Kept(w: Layout, x: Context, t: nat) {
    x.settings.mode.Structural? || exists b :: 0 <= b <= t && CutBefore(w, x, b)
  }

  // ----- What the units are

  predicate SameUnit(units: seq<SemanticUnit>, a: nat, b: nat) {
    exists k :: 0 <= k < |units| && Holds(units[k], a) && Holds(units[k], b)
  }

  predicate InNone(units: seq<SemanticUnit>, byte: nat) {
    forall k :: 0 <= k < |units| ==> !Holds(units[k], byte)
  }

  /** A unit begins with a meaningful byte. It ends with a token before a cut, or where the meaningful source ends. */
  ghost predicate EdgesOk(w: Layout, x: Context, u: SemanticUnit) {
    && (w.ranges != [] ==> Covers(w.ranges, u.start))
    && exists t :: 0 <= t < |w.tokens| && EndsWith(w, u, t) && LastBeforeCut(w, x, t)
  }

  predicate EndsWith(w: Layout, u: SemanticUnit, t: nat)
    requires t < |w.tokens|
  {
    w.tokens[t].start < u.end && u.end == if w.tokens[t].end < w.end then w.tokens[t].end else w.end
  }

  ghost predicate LastBeforeCut(w: Layout, x: Context, t: nat)
    requires t < |w.tokens|
  {
    t + 1 == |w.tokens| || w.end <= w.tokens[t + 1].start || CutBefore(w, x, t + 1)
  }

  /** Each meaningful byte lies in exactly one unit, or in none if it is left out. */
  ghost predicate Covering(w: Layout, x: Context, units: seq<SemanticUnit>) {
    forall t, byte :: MeaningfulIn(w, t, byte) ==>
      if Kept(w, x, t) then InExactlyOne(units, byte) else InNone(units, byte)
  }

  /** Two of them lie in one unit exactly when there is no cut between their tokens. */
  ghost predicate CutExactly(w: Layout, x: Context, units: seq<SemanticUnit>) {
    forall t, u, a, b :: t <= u && MeaningfulIn(w, t, a) && MeaningfulIn(w, u, b) && Kept(w, x, t) ==>
      (SameUnit(units, a, b) <==> !CutBetween(w, x, t, u))
  }

  /** The units are non-empty, ordered, disjoint and as deep as their first bytes, and are cut where they should be. */
  ghost predicate UnitsOk(w: Layout, x: Context, units: seq<SemanticUnit>) {
    && Partition(units) && DepthsOk(units, x.events) && EndBy(units, SourceEnd(w.tokens))
    && Covering(w, x, units) && CutExactly(w, x, units)
    && forall k :: 0 <= k < |units| ==> EdgesOk(w, x, units[k])
  }

  // ----- Boundaries are cuts

  /** The cut was made of these inputs. */
  ghost predicate Made(c: Cut, w: Layout, x: Context) {
    && LayoutOk(w) && CutOk(c) && IsCutOf(c, w) && LinesOk(x.lineStarts)
    && c.events == x.events && c.tau == x.settings.tau && c.mode == x.settings.mode
    && c.spanStartsSource == x.startsSource
    && forall i :: 0 <= i < |w.tokens| ==> OpensLine(w.tokens, x.lineStarts, i, c.first[i])
  }

  /** A line has one first token. */
  lemma OpensUnique(tokens: seq<Token>, lineStarts: seq<nat>, i: nat, f: nat, g: nat)
    requires LinesOk(lineStarts) && i < |tokens|
    requires OpensLine(tokens, lineStarts, i, f) && OpensLine(tokens, lineStarts, i, g)
    ensures f == g
  {
    if lineStarts != [] {
      var a: nat :| OpensThisLine(tokens, lineStarts, i, f, a);
      var b: nat :| OpensThisLine(tokens, lineStarts, i, g, b);
      assert a == b;
    }
  }

  /** The token index of a byte is the first token behind it. */
  lemma IndexBehind(tokens: seq<Token>, byte: nat, b: nat)
    requires TokensOk(tokens) && b < |tokens|
    ensures TokenIndexAt(tokens, byte) == b <==> FirstBehind(tokens, byte, b)
  {
    TokenIndexMeaning(tokens, byte);
  }

  lemma MarkedIsCut(c: Cut, w: Layout, x: Context, b: nat)
    requires Made(c, w, x) && c.sourceStart < b
    ensures MarkedAt(c, b) <==> MarkedLine(w, x, b)
  {
    if MarkedAt(c, b) {
      var m :| 0 <= m < |c.tokens| && IsMarker(c, m) && Snapped(c, m) == b;
      assert Marks(w, x, m) && OpensLine(w.tokens, x.lineStarts, m, b);
    }
    if m :| 0 <= m < |w.tokens| && Marks(w, x, m) && OpensLine(w.tokens, x.lineStarts, m, b) {
      OpensUnique(w.tokens, x.lineStarts, m, b, c.first[m]);
      assert IsMarker(c, m) && Snapped(c, m) == b;
    }
  }

  lemma EventIsCut(c: Cut, w: Layout, x: Context, b: nat)
    requires Made(c, w, x) && b < |w.tokens|
    ensures EventEndsAt(c, b) <==> exists k :: 0 <= k < |x.events| && FirstBehind(w.tokens, x.events[k].byteOffset, b)
  {
    forall k | 0 <= k < |x.events|
      ensures TokenIndexAt(c.tokens, c.events[k].byteOffset) == b <==> FirstBehind(w.tokens, x.events[k].byteOffset, b)
    {
      IndexBehind(w.tokens, x.events[k].byteOffset, b);
    }
  }

  /** Inside the source the boundaries are the cuts. */
  lemma BoundaryIsCut(c: Cut, w: Layout, x: Context, b: nat)
    requires Made(c, w, x) && c.sourceStart < b < c.sourceEnd
    ensures IsBoundary(c, b) <==> CutBefore(w, x, b)
  {
    MarkedIsCut(c, w, x, b);
    EventIsCut(c, w, x, b);
  }

  /** A marker at the start of the source is one whose line opens there or before it. */
  lemma MarkedStart(c: Cut, w: Layout, x: Context) returns (b: nat)
    requires Made(c, w, x) && MarkedAt(c, c.sourceStart)
    ensures b <= c.sourceStart && MarkedLine(w, x, b)
  {
    var m :| 0 <= m < |c.tokens| && IsMarker(c, m) && Snapped(c, m) == c.sourceStart;
    assert Marks(w, x, m) && OpensLine(w.tokens, x.lineStarts, m, c.first[m]);
    b := c.first[m];
  }

  lemma LineMarksStart(c: Cut, w: Layout, x: Context, b: nat)
    requires Made(c, w, x) && b <= c.sourceStart && MarkedLine(w, x, b)
    ensures MarkedAt(c, c.sourceStart)
  {
    var m :| 0 <= m < |w.tokens| && Marks(w, x, m) && OpensLine(w.tokens, x.lineStarts, m, b);
    OpensUnique(w.tokens, x.lineStarts, m, b, c.first[m]);
    assert IsMarker(c, m) && Snapped(c, m) == c.sourceStart;
  }

  /** The first interval of the tree begins with what is kept. */
  lemma FirstKept(c: Cut, w: Layout, x: Context, indices: seq<nat>, t: nat)
    requires Made(c, w, x) && AreBoundaries(c, indices) && c.sourceStart <= t < c.sourceEnd
    ensures Kept(w, x, t) <==> FirstInterval(c) < |indices| && indices[FirstInterval(c)] <= t
  {
    BoundariesSpan(c, w, indices);
    if c.mode.Reference? {
      if MarkedAt(c, c.sourceStart) {
        var b := MarkedStart(c, w, x);
        assert CutBefore(w, x, b);
      } else {
        KeptFrom(c, w, x, indices, t);
      }
    }
  }

  lemma KeptFrom(c: Cut, w: Layout, x: Context, indices: seq<nat>, t: nat)
    requires Made(c, w, x) && AreBoundaries(c, indices) && c.sourceStart <= t < c.sourceEnd
    requires c.mode.Reference? && !MarkedAt(c, c.sourceStart)
    ensures Kept(w, x, t) <==> 1 < |indices| && indices[1] <= t
  {
    BoundariesSpan(c, w, indices);
    if b :| 0 <= b <= t && CutBefore(w, x, b) {
      if b <= c.sourceStart {
        LineMarksStart(c, w, x, b);
      }
      BoundaryIsCut(c, w, x, b);
      var k :| 0 <= k < |indices| && indices[k] == b;
      AtMost(indices, 1, k);
    }
    if 1 < |indices| && indices[1] <= t {
      assert indices[1] in indices;
      BoundaryIsCut(c, w, x, indices[1]);
    }
  }

  // ----- Units are what lies between cuts

  /** The interval that a unit was made of. */
  lemma {:induction false} UnitOrigin(
    w: Layout, events: seq<StructuralEvent>, indices: seq<nat>, first: nat, n: nat, k: nat) returns (i: nat)
    requires IndicesOk(w, indices) && (first < n ==> n < |indices|) && k < |UnitsUpTo(w, events, indices, first, n)|
    ensures first <= i < n < |indices| && indices[i] < indices[i + 1] <= |w.tokens|
    ensures UnitAt(w, events, indices[i], indices[i + 1]) == Some(UnitsUpTo(w, events, indices, first, n)[k])
    decreases n
  {
    if k < |UnitsUpTo(w, events, indices, first, n - 1)| {
      i := UnitOrigin(w, events, indices, first, n - 1, k);
    } else {
      i := n - 1;
    }
  }

  /** The edges of an interval's unit, when the interval ends at the source's end or at a cut. */
  lemma UnitEdges(w: Layout, x: Context, a: nat, b: nat)
    requires LayoutOk(w) && a < b <= TokenIndexAt(w.tokens, w.end) && UnitAt(w, x.events, a, b).Some?
    requires b < TokenIndexAt(w.tokens, w.end) ==> CutBefore(w, x, b)
    ensures EdgesOk(w, x, UnitAt(w, x.events, a, b).value)
  {
    var u := UnitAt(w, x.events, a, b).value;
    TokenIndexMeaning(w.tokens, w.end);
    assert w.tokens[b - 1].start < w.end;
    assert EndsWith(w, u, b - 1) && LastBeforeCut(w, x, b - 1);
    if w.ranges != [] {
      StartCovered(w, a, b);
    }
  }

  lemma StartCovered(w: Layout, a: nat, b: nat)
    requires LayoutOk(w) && w.ranges != [] && a < b <= |w.tokens| && Stretch(w, a, b).Some?
    ensures Covers(w.ranges, Stretch(w, a, b).value.start)
  {
    var r := FirstRange(w.ranges, w.tokens[a].start);
    RangesEndBy(w, r);
    assert w.ranges[r].start <= Stretch(w, a, b).value.start < w.ranges[r].end;
  }

  lemma UnitsEdges(c: Cut, w: Layout, x: Context, indices: seq<nat>)
    requires Made(c, w, x) && AreBoundaries(c, indices) && IndicesOk(w, indices) && indices != []
    ensures forall k :: 0 <= k < |UnitsOf(c, w, indices)| ==> EdgesOk(w, x, UnitsOf(c, w, indices)[k])
  {
    BoundariesSpan(c, w, indices);
    var n := |indices| - 1;
    forall k | 0 <= k < |UnitsOf(c, w, indices)| ensures EdgesOk(w, x, UnitsOf(c, w, indices)[k]) {
      var i := UnitOrigin(w, c.events, indices, FirstInterval(c), n, k);
      AtMost(indices, 0, i);
      AtMost(indices, i + 1, n);
      assert indices[i + 1] in indices;
      if indices[i + 1] < c.sourceEnd {
        BoundaryIsCut(c, w, x, indices[i + 1]);
      }
      UnitEdges(w, x, indices[i], indices[i + 1]);
    }
  }

  /** The unit of a kept byte: it is made of the interval of the byte's token. */
  lemma UnitOfByte(c: Cut, w: Layout, x: Context, indices: seq<nat>, t: nat, byte: nat) returns (i: nat, k: nat)
    requires Made(c, w, x) && AreBoundaries(c, indices) && IndicesOk(w, indices) && indices != []
    requires MeaningfulIn(w, t, byte) && Kept(w, x, t)
    ensures i + 1 < |indices| && indices[i] <= t < indices[i + 1] && k < |UnitsOf(c, w, indices)|
    ensures UnitAt(w, c.events, indices[i], indices[i + 1]) == Some(UnitsOf(c, w, indices)[k])
    ensures Holds(UnitsOf(c, w, indices)[k], byte)
  {
    var first, n := FirstInterval(c), |indices| - 1;
    BoundariesSpan(c, w, indices);
    InsideEdges(c, w, t, byte);
    FirstKept(c, w, x, indices, t);
    i := FindInterval(indices, t, first, n);
    UnitHolds(w, c.events, indices[i], indices[i + 1], t, byte);
    k := UnitIncluded(w, c.events, indices, first, n, i);
  }

  /** A byte behind the end of another's unit is not in that unit, nor in any other with it. */
  lemma Separated(units: seq<SemanticUnit>, k: nat, a: nat, b: nat)
    requires Partition(units) && k < |units| && Holds(units[k], a) && units[k].end <= b
    ensures !SameUnit(units, a, b)
  {
  }

  /** A cut is a boundary, so the interval of a token before it ends there or earlier. */
  lemma IntervalEnds(c: Cut, w: Layout, x: Context, indices: seq<nat>, i: nat, t: nat, u: nat)
    requires Made(c, w, x) && AreBoundaries(c, indices) && i + 1 < |indices| && indices[i] <= t
    requires c.sourceStart <= t <= u < c.sourceEnd && CutBetween(w, x, t, u)
    ensures indices[i + 1] <= u
  {
    var b :| t < b <= u && CutBefore(w, x, b);
    BoundaryIsCut(c, w, x, b);
    var j :| 0 <= j < |indices| && indices[j] == b;
    AtMost(indices, i + 1, j);
  }

  /** A cut between two tokens separates their units. */
  lemma CutSeparates(c: Cut, w: Layout, x: Context, indices: seq<nat>, t: nat, u: nat, a: nat, b: nat)
    requires Made(c, w, x) && AreBoundaries(c, indices) && IndicesOk(w, indices) && indices != []
    requires Partition(UnitsOf(c, w, indices))
    requires t <= u && MeaningfulIn(w, t, a) && MeaningfulIn(w, u, b) && Kept(w, x, t) && CutBetween(w, x, t, u)
    ensures !SameUnit(UnitsOf(c, w, indices), a, b)
  {
    var i, k := UnitOfByte(c, w, x, indices, t, a);
    InsideEdges(c, w, t, a);
    InsideEdges(c, w, u, b);
    IntervalEnds(c, w, x, indices, i, t, u);
    UnitEnd(w, c.events, indices[i], indices[i + 1], u);
    Separated(UnitsOf(c, w, indices), k, a, b);
  }

  /** An interval's unit ends before the tokens behind the interval. */
  lemma UnitEnd(w: Layout, events: seq<StructuralEvent>, a: nat, b: nat, t: nat)
    requires LayoutOk(w) && a < b <= t < |w.tokens| && UnitAt(w, events, a, b).Some?
    ensures UnitAt(w, events, a, b).value.end <= w.tokens[t].start
  {
    assert w.tokens[b - 1].end <= w.tokens[t].start;
  }

  /** Without a cut between them two tokens lie in one interval, and their bytes in its unit. */
  lemma NoCutJoins(c: Cut, w: Layout, x: Context, indices: seq<nat>, t: nat, u: nat, a: nat, b: nat)
    requires Made(c, w, x) && AreBoundaries(c, indices) && IndicesOk(w, indices) && indices != []
    requires t <= u && MeaningfulIn(w, t, a) && MeaningfulIn(w, u, b) && Kept(w, x, t) && !CutBetween(w, x, t, u)
    ensures SameUnit(UnitsOf(c, w, indices), a, b)
  {
    var i, k := UnitOfByte(c, w, x, indices, t, a);
    InsideEdges(c, w, t, a);
    InsideEdges(c, w, u, b);
    BoundariesSpan(c, w, indices);
    if indices[i + 1] <= u {
      assert indices[i + 1] in indices;
      BoundaryIsCut(c, w, x, indices[i + 1]);
      assert false;
    }
    UnitHolds(w, c.events, indices[i], indices[i + 1], u, b);
  }

  /** What is left out lies before every unit. */
  lemma LeftOut(c: Cut, w: Layout, x: Context, indices: seq<nat>, t: nat, byte: nat)
    requires Made(c, w, x) && AreBoundaries(c, indices) && IndicesOk(w, indices) && indices != []
    requires BeginEarly(w, indices) && MeaningfulIn(w, t, byte) && !Kept(w, x, t)
    ensures InNone(UnitsOf(c, w, indices), byte)
  {
    var first, n := FirstInterval(c), |indices| - 1;
    var units := UnitsOf(c, w, indices);
    InsideEdges(c, w, t, byte);
    FirstKept(c, w, x, indices, t);
    forall k | 0 <= k < |units| ensures !Holds(units[k], byte) {
      var i := UnitOrigin(w, c.events, indices, first, n, k);
      AtMost(indices, first, i);
      StretchInside(w, indices[i], indices[i + 1]);
      assert w.tokens[t].end <= w.tokens[indices[i]].start;
    }
  }

  /** The units of a cut are what the inputs say. */
  lemma CutUnitsOk(c: Cut, w: Layout, x: Context, indices: seq<nat>)
    requires Made(c, w, x) && AreBoundaries(c, indices)
    ensures IndicesOk(w, indices) && indices != []
    ensures UnitsOk(w, x, UnitsOf(c, w, indices))
  {
    BoundariesSpan(c, w, indices);
    UnitsOfCut(c, w, indices);
    UnitsEnd(c, w, indices);
    UnitsEdges(c, w, x, indices);
    CutCovers(c, w, x, indices);
    CutsExactly(c, w, x, indices);
  }

  lemma KeptOnce(c: Cut, w: Layout, x: Context, indices: seq<nat>, t: nat, byte: nat)
    requires Made(c, w, x) && AreBoundaries(c, indices) && IndicesOk(w, indices) && indices != []
    requires Partition(UnitsOf(c, w, indices)) && MeaningfulIn(w, t, byte) && Kept(w, x, t)
    ensures InExactlyOne(UnitsOf(c, w, indices), byte)
  {
    var i, k := UnitOfByte(c, w, x, indices, t, byte);
    OnlyHolder(UnitsOf(c, w, indices), k, byte);
  }

  lemma CutCovers(c: Cut, w: Layout, x: Context, indices: seq<nat>)
    requires Made(c, w, x) && AreBoundaries(c, indices) && IndicesOk(w, indices) && indices != []
    ensures Covering(w, x, UnitsOf(c, w, indices))
  {
    BoundariesSpan(c, w, indices);
    UnitsPartition(w, c.events, indices, FirstInterval(c), |indices| - 1);
    var units := UnitsOf(c, w, indices);
    forall t, byte | MeaningfulIn(w, t, byte)
      ensures if Kept(w, x, t) then InExactlyOne(units, byte) else InNone(units, byte)
    {
      if Kept(w, x, t) {
        KeptOnce(c, w, x, indices, t, byte);
      } else {
        LeftOut(c, w, x, indices, t, byte);
      }
    }
  }

  lemma CutsExactly(c: Cut, w: Layout, x: Context, indices: seq<nat>)
    requires Made(c, w, x) && AreBoundaries(c, indices) && IndicesOk(w, indices) && indices != []
    ensures CutExactly(w, x, UnitsOf(c, w, indices))
  {
    BoundariesSpan(c, w, indices);
    UnitsPartition(w, c.events, indices, FirstInterval(c), |indices| - 1);
    forall t, u, a, b | t <= u && MeaningfulIn(w, t, a) && MeaningfulIn(w, u, b) && Kept(w, x, t)
      ensures SameUnit(UnitsOf(c, w, indices), a, b) <==> !CutBetween(w, x, t, u)
    {
      if CutBetween(w, x, t, u) {
        CutSeparates(c, w, x, indices, t, u, a, b);
      } else {
        NoCutJoins(c, w, x, indices, t, u, a, b);
      }
    }
  }
}
