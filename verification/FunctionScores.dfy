/**
 The calls of the analysis: one for the file and one for each of its functions (src/analyze.cc:18-119 and 308-352).
 No input they are given is ever refused.
 */
module FunctionScores {
  import opened Wrappers
  import opened Utf8
  import opened Tokens
  import opened Prepare
  import opened Records
  import opened Units
  import opened Cuts
  import opened CoreAnalysis
  import opened Hierarchy
  import Cleaning

  /** The inputs of the analysis of a function, and the lines it is reported at. */
  datatype Call = Call(
    name: string, startLine: nat, endLine: nat, tokens: seq<Token>, events: seq<StructuralEvent>,
    lineStarts: seq<nat>, ranges: seq<SourceRange>, startsSource: bool)

  // ----- Events

  predicate Nested(e: StructuralEvent, f: FunctionSpan) {
    f.start <= e.scopeStart && e.byteOffset <= f.end
  }

  /** Of the first n events, those nested in the function. */
  function NestedUpTo(events: seq<StructuralEvent>, f: FunctionSpan, n: nat): (nested: seq<StructuralEvent>)
    requires n <= |events|
  {
    if n == 0 then [] else NestedUpTo(events, f, n - 1) + if Nested(events[n - 1], f) then [events[n - 1]] else []
  }

  /** lower_bound on the scope starts. */
  function FirstEvent(events: seq<StructuralEvent>, byte: nat, from: nat := 0): (r: nat)
    requires from <= |events|
    ensures from <= r <= |events|
    ensures forall j :: from <= j < r ==> events[j].scopeStart < byte
    ensures r < |events| ==> byte <= events[r].scopeStart
    decreases |events| - from
  {
    if from == |events| || byte <= events[from].scopeStart then from else FirstEvent(events, byte, from + 1)
  }

  lemma {:induction false} NoneNested(events: seq<StructuralEvent>, f: FunctionSpan, a: nat, b: nat)
    requires a <= b <= |events|
    requires forall j :: a <= j < b ==> !Nested(events[j], f)
    ensures NestedUpTo(events, f, b) == NestedUpTo(events, f, a)
    decreases b
  {
    if a < b {
      NoneNested(events, f, a, b - 1);
    }
  }

  /** FunctionEvents stops at the first scope that starts behind the function, and still finds every nested event. */
  method FunctionEvents(events: seq<StructuralEvent>, f: FunctionSpan) returns (result: seq<StructuralEvent>)
    requires StrictlyAscend(events) && forall i :: 0 <= i < |events| ==> events[i].scopeStart < events[i].byteOffset
    ensures result == NestedUpTo(events, f, |events|)
  {
    var first := FirstEvent(events, f.start);
    NoneNested(events, f, 0, first);
    result := [];
    var i := first;
    while i < |events| && events[i].scopeStart < f.end
      invariant first <= i <= |events|
      invariant result == NestedUpTo(events, f, i)
    {
      assert i > first ==> Less(events[first], events[i]);
      if events[i].byteOffset <= f.end {
        result := result + [events[i]];
      }
      i := i + 1;
    }
    forall j | i <= j < |events| ensures !Nested(events[j], f) {
      assert j > i ==> Less(events[i], events[j]);
    }
    NoneNested(events, f, i, |events|);
  }

  lemma {:induction false} NestedOk(events: seq<StructuralEvent>, f: FunctionSpan, n: nat, size: nat)
    requires n <= |events| && EventsOk(events, size)
    ensures EventsOk(NestedUpTo(events, f, n), f.end)
  {
    if n > 0 {
      NestedOk(events, f, n - 1, size);
      assert EventOk(events[n - 1], size);
    }
  }

  // ----- Ranges

  function Clip(r: SourceRange, f: FunctionSpan): SourceRange {
    SourceRange(if r.start < f.start then f.start else r.start, if r.end > f.end then f.end else r.end)
  }

  /** The ranges from a to b, clipped to the function, without those nothing is left of. */
  function ClippedUpTo(ranges: seq<SourceRange>, f: FunctionSpan, n: nat): seq<SourceRange>
    requires n <= |ranges|
  {
    if n == 0 then []
    else
      var r := Clip(ranges[n - 1], f);
      ClippedUpTo(ranges, f, n - 1) + if r.start < r.end then [r] else []
  }

  lemma {:induction false} NoneClipped(ranges: seq<SourceRange>, f: FunctionSpan, a: nat, b: nat)
    requires a <= b <= |ranges| && f.start < f.end
    requires forall j :: a <= j < b ==> ranges[j].end <= f.start || f.end <= ranges[j].start
    ensures ClippedUpTo(ranges, f, b) == ClippedUpTo(ranges, f, a)
    decreases b
  {
    if a < b {
      NoneClipped(ranges, f, a, b - 1);
    }
  }

  method FunctionRanges(ranges: seq<SourceRange>, f: FunctionSpan, ghost size: nat) returns (result: seq<SourceRange>)
    requires RangesOk(ranges, size) && f.start < f.end
    ensures result == ClippedUpTo(ranges, f, |ranges|)
  {
    var i := FirstRange(ranges, f.start);
    NoneClipped(ranges, f, 0, i);
    result := [];
    while i < |ranges| && ranges[i].start < f.end
      invariant i <= |ranges|
      invariant result == ClippedUpTo(ranges, f, i)
    {
      var start := if ranges[i].start < f.start then f.start else ranges[i].start;
      var end := if ranges[i].end > f.end then f.end else ranges[i].end;
      ClippedNext(ranges, f, i, start, end);
      if start < end {
        result := result + [SourceRange(start, end)];
      }
      i := i + 1;
    }
    NoneBehind(ranges, f, i, size);
  }

  lemma ClippedNext(ranges: seq<SourceRange>, f: FunctionSpan, i: nat, start: nat, end: nat)
    requires i < |ranges| && Clip(ranges[i], f) == SourceRange(start, end)
    ensures ClippedUpTo(ranges, f, i + 1)
         == if start < end then ClippedUpTo(ranges, f, i) + [SourceRange(start, end)] else ClippedUpTo(ranges, f, i)
  {
  }

  lemma NoneBehind(ranges: seq<SourceRange>, f: FunctionSpan, i: nat, size: nat)
    requires RangesOk(ranges, size) && f.start < f.end && i <= |ranges|
    requires i < |ranges| ==> f.end <= ranges[i].start
    ensures ClippedUpTo(ranges, f, |ranges|) == ClippedUpTo(ranges, f, i)
  {
    forall j | i <= j < |ranges| ensures f.end <= ranges[j].start {
      assert i < j ==> ranges[i].end <= ranges[j].start;
    }
    NoneClipped(ranges, f, i, |ranges|);
  }

  /** The clipped ranges end by the given byte. */
  predicate EndsBy(ranges: seq<SourceRange>, byte: nat) {
    ranges != [] ==> ranges[|ranges| - 1].end <= byte
  }

  lemma {:induction false} ClippedOk(ranges: seq<SourceRange>, f: FunctionSpan, n: nat, size: nat)
    requires n <= |ranges| && RangesOk(ranges, size)
    ensures RangesOk(ClippedUpTo(ranges, f, n), f.end)
    ensures EndsBy(ClippedUpTo(ranges, f, n), if n == 0 then 0 else ranges[n - 1].end)
  {
    if n > 0 {
      ClippedOk(ranges, f, n - 1, size);
      var last := ranges[n - 1];
      var before := if n == 1 then 0 else ranges[n - 2].end;
      assert before <= last.start < last.end;
      ClipOne(ClippedUpTo(ranges, f, n - 1), last, f, before);
    }
  }

  lemma ClipOne(clipped: seq<SourceRange>, last: SourceRange, f: FunctionSpan, before: nat)
    requires RangesOk(clipped, f.end) && EndsBy(clipped, before) && before <= last.start < last.end
    ensures var r := Clip(last, f);
            var next := clipped + if r.start < r.end then [r] else [];
            RangesOk(next, f.end) && EndsBy(next, last.end)
  {
    var r := Clip(last, f);
    if r.start < r.end {
      AppendRangeOk(clipped, r, f.end);
    } else {
      assert clipped + [] == clipped;
    }
  }

  lemma AppendRangeOk(ranges: seq<SourceRange>, r: SourceRange, size: nat)
    requires RangesOk(ranges, size) && EndsBy(ranges, r.start) && r.start < r.end <= size
    ensures RangesOk(ranges + [r], size)
  {
  }

  /** The clipped ranges hold exactly the function's meaningful bytes. */
  lemma {:induction false} ClippedCovers(ranges: seq<SourceRange>, f: FunctionSpan, n: nat, k: nat)
    requires n <= |ranges|
    ensures Covers(ClippedUpTo(ranges, f, n), k) <==> f.start <= k < f.end && Covers(ranges[..n], k)
  {
    if n > 0 {
      ClippedCovers(ranges, f, n - 1, k);
      var c, r := ClippedUpTo(ranges, f, n - 1), Clip(ranges[n - 1], f);
      CoversOneMore(ranges[..n - 1], ranges[n - 1], k);
      assert ranges[..n - 1] + [ranges[n - 1]] == ranges[..n];
      CoversOneMore(c, r, k);
      assert c + [] == c;
      assert r.start <= k < r.end <==> f.start <= k < f.end && ranges[n - 1].start <= k < ranges[n - 1].end;
    }
  }

  lemma CoversOneMore(ranges: seq<SourceRange>, r: SourceRange, k: nat)
    ensures Covers(ranges + [r], k) <==> Covers(ranges, k) || r.start <= k < r.end
  {
    if Covers(ranges, k) {
      var i :| 0 <= i < |ranges| && ranges[i].start <= k < ranges[i].end;
      assert (ranges + [r])[i] == ranges[i];
    }
    assert (ranges + [r])[|ranges|] == r;
  }

  // ----- Tokens and lines

  /** The tokens of a function that spans tokens first to last, the first of them clipped to it. */
  function ClippedTokens(tokens: seq<Token>, first: nat, end: nat, start: nat): (clipped: seq<Token>)
    requires first < end <= |tokens|
    ensures |clipped| == end - first
    ensures clipped[0] == tokens[first].(start := if tokens[first].start < start then start else tokens[first].start)
    ensures forall i :: 1 <= i < |clipped| ==> clipped[i] == tokens[first + i]
  {
    var front := tokens[first];
    [front.(start := if front.start < start then start else front.start)] + tokens[first + 1..end]
  }

  /**
   Tokens that tile the source leave no function without tokens: the first one, clipped, starts where the function
   does, and the last one reaches its end.
   */
  lemma FunctionTokens(tokens: seq<Token>, size: nat, f: FunctionSpan)
    requires Tiles(tokens, size) && TokensOk(tokens) && f.start < f.end <= size
    ensures var first, end := FirstOverlapping(tokens, f.start), TokenIndexAt(tokens, f.end);
            && first < end <= |tokens|
            && tokens[first].start <= f.start < tokens[first].end
            && tokens[end - 1].start < f.end <= tokens[end - 1].end
  {
    var first, end := FirstOverlapping(tokens, f.start), TokenIndexAt(tokens, f.end);
    TokenIndexMeaning(tokens, f.end);
    assert first == 0 || tokens[first - 1].end <= f.start;
    assert tokens != [];
    assert tokens[|tokens| - 1].end == size;
    assert first < |tokens|;
    assert tokens[first].start <= f.start;
    assert end < |tokens| ==> f.end <= tokens[end].start;
  }

  lemma ClippedTokensOk(tokens: seq<Token>, size: nat, f: FunctionSpan)
    requires Tiles(tokens, size) && TokensOk(tokens) && f.start < f.end <= size
    requires FirstOverlapping(tokens, f.start) < TokenIndexAt(tokens, f.end)
    ensures var clipped := ClippedTokens(tokens, FirstOverlapping(tokens, f.start), TokenIndexAt(tokens, f.end), f.start);
            TokensOk(clipped) && f.end <= SourceEnd(clipped) && clipped[0].start == f.start
  {
    FunctionTokens(tokens, size, f);
    SliceOk(tokens, FirstOverlapping(tokens, f.start), TokenIndexAt(tokens, f.end), f.start);
  }

  /** Consecutive tokens stay in order when the first is clipped inside it. */
  lemma SliceOk(tokens: seq<Token>, first: nat, end: nat, start: nat)
    requires TokensOk(tokens) && first < end <= |tokens| && tokens[first].start <= start < tokens[first].end
    ensures var clipped := ClippedTokens(tokens, first, end, start);
            TokensOk(clipped) && SourceEnd(clipped) == tokens[end - 1].end && clipped[0].start == start
  {
    var clipped := ClippedTokens(tokens, first, end, start);
    assert forall i :: 0 <= i < |clipped| ==> clipped[i].end == tokens[first + i].end;
  }

  /** Line starts of the part of a source between two of its bytes, which is itself taken to start a line. */
  function LinesBetween(lineStarts: seq<nat>, from: nat, last: nat): seq<nat>
    requires LineAt(lineStarts, from) <= LineAt(lineStarts, last)
  {
    [0] + lineStarts[LineAt(lineStarts, from)..LineAt(lineStarts, last)]
  }

  lemma {:induction false} LineAtMonotone(lineStarts: seq<nat>, a: nat, b: nat, from: nat := 0)
    requires a <= b && from <= |lineStarts|
    ensures LineAt(lineStarts, a, from) <= LineAt(lineStarts, b, from)
    decreases |lineStarts| - from
  {
    if from < |lineStarts| && lineStarts[from] <= a {
      LineAtMonotone(lineStarts, a, b, from + 1);
    }
  }

  lemma LinesBetweenOk(lineStarts: seq<nat>, from: nat, last: nat)
    requires LinesOk(lineStarts) && LineAt(lineStarts, from) <= LineAt(lineStarts, last)
    ensures LinesOk(LinesBetween(lineStarts, from, last))
  {
    var a, lines := LineAt(lineStarts, from), LinesBetween(lineStarts, from, last);
    forall i, j | 0 <= i < j < |lines| ensures lines[i] < lines[j] {
      assert lines[j] == lineStarts[a + j - 1] > 0;
      assert i > 0 ==> lines[i] == lineStarts[a + i - 1];
    }
  }

  /** They are zero and the line starts behind the first byte and up to the last. */
  lemma LinesBetweenMeaning(lineStarts: seq<nat>, from: nat, last: nat, x: nat)
    requires LinesOk(lineStarts) && LineAt(lineStarts, from) <= LineAt(lineStarts, last)
    ensures x in LinesBetween(lineStarts, from, last) <==> x == 0 || (x in lineStarts && from < x <= last)
  {
    var a, b := LineAt(lineStarts, from), LineAt(lineStarts, last);
    InSlice(lineStarts, a, b, x);
    if x in lineStarts && from < x <= last {
      var i :| 0 <= i < |lineStarts| && lineStarts[i] == x;
      assert a <= i < b;
    }
  }

  lemma InSlice(q: seq<nat>, a: nat, b: nat, x: nat)
    requires a <= b <= |q|
    ensures x in q[a..b] <==> exists i :: a <= i < b && q[i] == x
  {
    if i :| a <= i < b && q[i] == x {
      assert q[a..b][i - a] == x;
    }
  }

  // ----- The calls

  /** What the analysis of a function is given. */
  ghost predicate CallOf(p: Prepared, tokens: seq<Token>, f: FunctionSpan, call: Call) {
    var first, end := FirstOverlapping(tokens, f.start), TokenIndexAt(tokens, f.end);
    && first < end
    && call.name == f.name
    && call.tokens == ClippedTokens(tokens, first, end, f.start)
    && call.events == NestedUpTo(p.events, f, |p.events|)
    && call.ranges == ClippedUpTo(p.meaningful, f, |p.meaningful|)
    && call.lineStarts == LinesFor(p.lineStarts, call.tokens)
    && call.startsSource == (first <= SourceFirst(p, tokens))
  }

  ghost function LinesFor(lineStarts: seq<nat>, tokens: seq<Token>): seq<nat> {
    if tokens != [] && LineAt(lineStarts, tokens[0].start) <= LineAt(lineStarts, tokens[|tokens| - 1].start)
    then LinesBetween(lineStarts, tokens[0].start, tokens[|tokens| - 1].start)
    else []
  }

  /** The file's first code token. */
  function SourceFirst(p: Prepared, tokens: seq<Token>): nat {
    if p.meaningful == [] then 0 else FirstOverlapping(tokens, p.meaningful[0].start)
  }

  /** Reported lines count the newlines before a function's first and last byte. */
  predicate LinesReported(p: Prepared, f: FunctionSpan, call: Call)
    requires f.start < f.end <= |p.cleaned|
  {
    && call.startLine == Cleaning.CountNewlines(p.cleaned, f.start) + 1
    && call.endLine == Cleaning.CountNewlines(p.cleaned, f.end - 1) + 1
  }

  /** Every call for a function of a prepared source meets the demands of the analysis. */
  lemma CallFits(p: Prepared, tokens: seq<Token>, f: FunctionSpan, call: Call)
    requires PreparedOk(p) && Tiles(tokens, |p.cleaned|) && f.start < f.end <= |p.cleaned|
    requires CallOf(p, tokens, f, call)
    ensures InputsOk(call.tokens, call.events, call.lineStarts, call.ranges)
    ensures call.tokens[0].start == f.start && f.end <= SourceEnd(call.tokens)
  {
    TilesOk(tokens, |p.cleaned|);
    ClippedTokensOk(tokens, |p.cleaned|, f);
    NestedOk(p.events, f, |p.events|, |p.cleaned|);
    ClippedOk(p.meaningful, f, |p.meaningful|, |p.cleaned|);
    CallEnds(call, f);
    LinesBetweenOk(p.lineStarts, call.tokens[0].start, call.tokens[|call.tokens| - 1].start);
  }

  lemma CallEnds(call: Call, f: FunctionSpan)
    requires TokensOk(call.tokens) && f.end <= SourceEnd(call.tokens)
    requires EventsOk(call.events, f.end) && RangesOk(call.ranges, f.end)
    ensures EventsOk(call.events, SourceEnd(call.tokens)) && RangesOk(call.ranges, SourceEnd(call.tokens))
  {
    forall i | 0 <= i < |call.events| ensures EventOk(call.events[i], SourceEnd(call.tokens)) {
      assert EventOk(call.events[i], f.end);
    }
  }

  /** The call for a whole prepared source does too. */
  lemma FileFits(p: Prepared, tokens: seq<Token>)
    requires PreparedOk(p) && Tiles(tokens, |p.cleaned|)
    ensures InputsOk(tokens, p.events, p.lineStarts, p.meaningful)
  {
    TilesOk(tokens, |p.cleaned|);
  }

  /** Clipping the first token keeps its score. */
  lemma ClippedScores(tokens: seq<Token>, first: nat, end: nat, start: nat)
    requires first < end <= |tokens| && EntropiesOk(tokens)
    ensures EntropiesOk(ClippedTokens(tokens, first, end, start))
  {
    var clipped := ClippedTokens(tokens, first, end, start);
    assert forall i :: 0 <= i < |clipped| ==> clipped[i].entropy == tokens[first + i].entropy;
  }

  method ClipFirst(tokens: seq<Token>, first: nat, end: nat, start: nat) returns (clipped: seq<Token>)
    requires first < end <= |tokens|
    ensures clipped == ClippedTokens(tokens, first, end, start)
  {
    clipped := tokens[first..end];
    var front := clipped[0];
    clipped := clipped[0 := front.(start := if front.start < start then start else front.start)];
  }

  /** Line starts relative to the tokens: the first token starts a line of its own. */
  method FunctionLines(lineStarts: seq<nat>, tokens: seq<Token>) returns (lines: seq<nat>)
    requires LinesOk(lineStarts) && TokensOk(tokens) && tokens != []
    ensures lines == LinesFor(lineStarts, tokens)
  {
    var last := |tokens| - 1;
    LineAtMonotone(lineStarts, tokens[0].start, tokens[last].start);
    var firstLine, lastLine := LineAt(lineStarts, tokens[0].start), LineAt(lineStarts, tokens[last].start);
    lines := [0] + lineStarts[firstLine..lastLine];
  }

  /** ScoreFunction up to the analysis: its inputs. */
  method CallFor(p: Prepared, tokens: seq<Token>, f: FunctionSpan, first: nat, end: nat, startsSource: bool)
    returns (call: Call)
    requires PreparedOk(p) && Tiles(tokens, |p.cleaned|) && f.start < f.end <= |p.cleaned|
    requires first == FirstOverlapping(tokens, f.start) && end == TokenIndexAt(tokens, f.end) && first < end
    requires startsSource == (first <= SourceFirst(p, tokens))
    ensures CallOf(p, tokens, f, call) && LinesReported(p, f, call)
  {
    var clipped := ClipFirst(tokens, first, end, f.start);
    assert TokensOk(clipped) by {
      TilesOk(tokens, |p.cleaned|);
      ClippedTokensOk(tokens, |p.cleaned|, f);
    }
    var events := FunctionEvents(p.events, f);
    var lineStarts := FunctionLines(p.lineStarts, clipped);
    var ranges := FunctionRanges(p.meaningful, f, |p.cleaned|);
    var startLine := ReportedLine(p, f.start);
    var endLine := ReportedLine(p, if f.end == 0 then 0 else f.end - 1);
    call := Call(f.name, startLine, endLine, clipped, events, lineStarts, ranges, startsSource);
  }

  /** The number of the line that holds a byte. */
  method ReportedLine(p: Prepared, byte: nat) returns (line: nat)
    requires p.lineStarts == LineStarts(p.cleaned, |p.cleaned|) && byte <= |p.cleaned|
    ensures line == Cleaning.CountNewlines(p.cleaned, byte) + 1
  {
    line := LineAt(p.lineStarts, byte);
    LineNumber(p.cleaned, byte);
  }

  datatype FunctionScore = FunctionScore(call: Call, analysis: Analysis)

  /** Every meaningful byte from start to end lies in exactly one unit of the structural tree. */
  ghost predicate CoversSpan(p: Prepared, start: nat, end: nat, mode: Mode, units: seq<SemanticUnit>) {
    mode.Structural? ==> forall k :: start <= k < end && Covers(p.meaningful, k) ==> InExactlyOne(units, k)
  }

  function ContextOf(call: Call, s: Settings): Context {
    Context(call.events, call.lineStarts, s, call.startsSource)
  }

  /** What the units of a function's call say about the function, and the analysis about the units. */
  ghost predicate AnalyzedBy(
    p: Prepared, f: FunctionSpan, call: Call, s: Settings, analysis: Analysis, units: seq<SemanticUnit>)
  {
    && UnitsOk(LayoutOf(call.tokens, call.ranges), ContextOf(call, s), units)
    && CoversSpan(p, f.start, f.end, s.mode, units)
    && TotalsOk(analysis, units, s, true)
    && analysis.units == Represented(units, s.mode.Structural?)
  }

  /** The function's call has the inputs it should, and is analyzed. */
  ghost predicate ScoreOk(p: Prepared, tokens: seq<Token>, f: FunctionSpan, s: Settings, score: FunctionScore) {
    && f.start < f.end <= |p.cleaned|
    && CallOf(p, tokens, f, score.call) && LinesReported(p, f, score.call)
    && exists units :: AnalyzedBy(p, f, score.call, s, score.analysis, units)
  }

  /** The first functions have been scored, one after the other. */
  ghost predicate ScoresOk(p: Prepared, tokens: seq<Token>, s: Settings, scores: seq<FunctionScore>) {
    |scores| <= |p.functions| && forall k :: 0 <= k < |scores| ==> ScoreOk(p, tokens, p.functions[k], s, scores[k])
  }

  lemma AddScore(p: Prepared, tokens: seq<Token>, s: Settings, scores: seq<FunctionScore>, score: FunctionScore)
    requires ScoresOk(p, tokens, s, scores) && |scores| < |p.functions|
    requires ScoreOk(p, tokens, p.functions[|scores|], s, score)
    ensures ScoresOk(p, tokens, s, scores + [score])
  {
  }

  /** The token that holds a byte of a tiled source. */
  lemma TokenHolding(tokens: seq<Token>, size: nat, k: nat)
    requires Tiles(tokens, size) && k < size
    ensures var t := FirstOverlapping(tokens, k); t < |tokens| && tokens[t].start <= k < tokens[t].end
  {
    var t := FirstOverlapping(tokens, k);
    assert t == 0 || tokens[t - 1].end <= k;
  }

  /** Each byte of a function lies in one of the tokens of its call. */
  lemma CallHolds(tokens: seq<Token>, size: nat, f: FunctionSpan, k: nat) returns (t: nat)
    requires Tiles(tokens, size) && f.start <= k < f.end <= size
    requires FirstOverlapping(tokens, f.start) < TokenIndexAt(tokens, f.end)
    ensures var clipped := ClippedTokens(tokens, FirstOverlapping(tokens, f.start), TokenIndexAt(tokens, f.end), f.start);
            t < |clipped| && clipped[t].start <= k < clipped[t].end
  {
    TilesOk(tokens, size);
    TokenHolding(tokens, size, k);
    TokenIndexMeaning(tokens, f.end);
    var first, at := FirstOverlapping(tokens, f.start), FirstOverlapping(tokens, k);
    assert first <= at < TokenIndexAt(tokens, f.end);
    t := at - first;
  }

  /** The units of a function's call hold the function's meaningful bytes. */
  lemma FunctionCovered(
    p: Prepared, tokens: seq<Token>, f: FunctionSpan, call: Call, s: Settings, units: seq<SemanticUnit>)
    requires Tiles(tokens, |p.cleaned|) && f.start < f.end <= |p.cleaned| && CallOf(p, tokens, f, call)
    requires UnitsOk(LayoutOf(call.tokens, call.ranges), ContextOf(call, s), units)
    ensures CoversSpan(p, f.start, f.end, s.mode, units)
  {
    if s.mode.Structural? {
      var w := LayoutOf(call.tokens, call.ranges);
      forall k | f.start <= k < f.end && Covers(p.meaningful, k) ensures InExactlyOne(units, k) {
        var t := CallHolds(tokens, |p.cleaned|, f, k);
        assert p.meaningful[..|p.meaningful|] == p.meaningful;
        ClippedCovers(p.meaningful, f, |p.meaningful|, k);
        assert MeaningfulIn(w, t, k);
      }
    }
  }

  lemma NeverSkipped(p: Prepared, tokens: seq<Token>, i: nat)
    requires PreparedOk(p) && Tiles(tokens, |p.cleaned|) && i < |p.functions|
    ensures var f := p.functions[i];
            f.start < f.end <= |p.cleaned| && FirstOverlapping(tokens, f.start) < TokenIndexAt(tokens, f.end)
  {
    TilesOk(tokens, |p.cleaned|);
    FunctionTokens(tokens, |p.cleaned|, p.functions[i]);
  }

  /**
   ScoreFunctions: no function of a prepared source is skipped, and no call is refused, whatever the functions,
   events and tokens.
   */
  method ScoreFunctions(p: Prepared, tokens: seq<Token>, s: Settings) returns (scores: seq<FunctionScore>)
    requires PreparedOk(p) && Tiles(tokens, |p.cleaned|) && EntropiesOk(tokens) && SettingsOk(s)
    ensures |scores| == |p.functions| && ScoresOk(p, tokens, s, scores)
  {
    scores := [];
    var sourceFirst := if p.meaningful == [] then 0 else FirstOverlapping(tokens, p.meaningful[0].start);
    for i := 0 to |p.functions|
      invariant |scores| == i && ScoresOk(p, tokens, s, scores)
    {
      scores := ScoreNext(p, tokens, s, sourceFirst, scores, i);
    }
  }

  /** One round of ScoreFunctions. */
  method ScoreNext(
    p: Prepared, tokens: seq<Token>, s: Settings, sourceFirst: nat, before: seq<FunctionScore>, i: nat)
    returns (scores: seq<FunctionScore>)
    requires PreparedOk(p) && Tiles(tokens, |p.cleaned|) && EntropiesOk(tokens) && SettingsOk(s)
    requires sourceFirst == SourceFirst(p, tokens) && i == |before| < |p.functions| && ScoresOk(p, tokens, s, before)
    ensures |scores| == i + 1 && ScoresOk(p, tokens, s, scores)
  {
    var f := p.functions[i];
    var first := FirstOverlapping(tokens, f.start);
    var end := TokenIndexAt(tokens, f.end);
    NeverSkipped(p, tokens, i);
    scores := before;
    if first < end {
      var score := ScoreFunction(p, tokens, f, first, end, s, first <= sourceFirst);
      AddScore(p, tokens, s, before, score);
      scores := scores + [score];
    }
  }

  method ScoreFunction(
    p: Prepared, tokens: seq<Token>, f: FunctionSpan, first: nat, end: nat, s: Settings, startsSource: bool)
    returns (score: FunctionScore)
    requires PreparedOk(p) && Tiles(tokens, |p.cleaned|) && EntropiesOk(tokens) && SettingsOk(s)
    requires f.start < f.end <= |p.cleaned|
    requires first == FirstOverlapping(tokens, f.start) && end == TokenIndexAt(tokens, f.end) && first < end
    requires startsSource == (first <= SourceFirst(p, tokens))
    ensures ScoreOk(p, tokens, f, s, score)
  {
    var call := CallFor(p, tokens, f, first, end, startsSource);
    ghost var semantic;
    var analysis;
    analysis, semantic := AnalyzeCall(p, tokens, f, call, s);
    score := FunctionScore(call, analysis);
    assert AnalyzedBy(p, f, call, s, analysis, semantic);
  }

  /** The call of Analyze for a function; it is never refused. */
  method AnalyzeCall(p: Prepared, ghost tokens: seq<Token>, f: FunctionSpan, call: Call, s: Settings)
    returns (analysis: Analysis, ghost semantic: seq<SemanticUnit>)
    requires PreparedOk(p) && Tiles(tokens, |p.cleaned|) && EntropiesOk(tokens) && SettingsOk(s)
    requires f.start < f.end <= |p.cleaned| && CallOf(p, tokens, f, call)
    ensures AnalyzedBy(p, f, call, s, analysis, semantic)
  {
    CallFits(p, tokens, f, call);
    ClippedScores(tokens, FirstOverlapping(tokens, f.start), TokenIndexAt(tokens, f.end), f.start);
    var analyzed;
    analyzed, semantic := Analyze(call.tokens, call.events, call.lineStarts, call.ranges, call.startsSource, s);
    analysis := analyzed.value;
    FunctionCovered(p, tokens, f, call, s, semantic);
  }

  /** No token before the given one has any of the source's code. */
  ghost predicate NoCodeBefore(p: Prepared, tokens: seq<Token>, first: nat)
    requires first <= |tokens|
  {
    forall j, k :: 0 <= j < first && tokens[j].start <= k < tokens[j].end ==> !Covers(p.meaningful, k)
  }

  lemma NoCodeBeforeFirst(p: Prepared, tokens: seq<Token>, first: nat)
    requires RangesOk(p.meaningful, |p.cleaned|) && p.meaningful != []
    requires first <= |tokens| && forall j :: 0 <= j < first ==> tokens[j].end <= p.meaningful[0].start
    ensures NoCodeBefore(p, tokens, first)
  {
  }

  /** A function starts the source exactly when no token before its own has any of the source's code. */
  lemma StartsSource(p: Prepared, tokens: seq<Token>, first: nat)
    requires PreparedOk(p) && Tiles(tokens, |p.cleaned|) && p.meaningful != [] && first <= |tokens|
    ensures first <= SourceFirst(p, tokens) <==> NoCodeBefore(p, tokens, first)
  {
    var source, r := SourceFirst(p, tokens), p.meaningful[0];
    if first <= source {
      NoCodeBeforeFirst(p, tokens, first);
    } else {
      assert source == 0 || tokens[source - 1].end <= r.start;
      assert tokens[source].start <= r.start < tokens[source].end;
      assert p.meaningful[0].start <= r.start < p.meaningful[0].end;
      assert Covers(p.meaningful, r.start);
    }
  }
}
