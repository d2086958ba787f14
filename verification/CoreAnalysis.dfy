/** The analysis of one span of tokens: Analyze, src/core.cc:349-368. */
module CoreAnalysis {
  import opened Wrappers
  import opened Tokens
  import opened Units
  import opened Cuts
  import opened Hierarchy

  datatype Analysis = Analysis(lmcc: real, branches: nat, levels: nat, tau: real, units: seq<Unit>)

  function Weighed(alpha: real, branches: real, levels: real): real {
    alpha * branches + (1.0 - alpha) * levels
  }

  /** With weight 0 the score is the levels, with weight 1 the branches, and it moves evenly from one to the other. */
  lemma ScoreBetween(alpha: real, branches: real, levels: real)
    ensures Weighed(0.0, branches, levels) == levels
    ensures Weighed(1.0, branches, levels) == branches
    ensures Weighed(alpha, branches, levels) - levels == alpha * (branches - levels)
  {
  }

  predicate SettingsOk(s: Settings) {
    s.tau >= 0.0 && 0.0 <= s.alpha <= 1.0
  }

  /** The totals count each unit shown once, and the source itself as one level; the score weighs the two. */
  predicate TotalsOk(a: Analysis, semantic: seq<SemanticUnit>, s: Settings, hasSource: bool) {
    var shown := Shown(semantic, s.mode.Structural?);
    && a.tau == s.tau
    && a.branches == |shown|
    && a.levels == SumOfLevels(shown, |shown|) + (if hasSource then 1 else 0)
    && a.lmcc == Weighed(s.alpha, a.branches as real, a.levels as real)
  }

  /** Analyze, for a threshold that is already a number: None instead of an error. */
  method Analyze(
    tokens: seq<Token>, events: seq<StructuralEvent>, lineStarts: seq<nat>, ranges: seq<SourceRange>,
    spanStartsSource: bool, s: Settings)
    returns (analysis: Option<Analysis>, ghost semantic: seq<SemanticUnit>)
    ensures analysis.Some? <==> InputsOk(tokens, events, lineStarts, ranges) && EntropiesOk(tokens) && SettingsOk(s)
    ensures analysis.Some? ==>
              && UnitsOk(LayoutOf(tokens, ranges), Context(events, lineStarts, s, spanStartsSource), semantic)
              && TotalsOk(analysis.value, semantic, s, tokens != [])
              && analysis.value.units == Represented(semantic, s.mode.Structural?)
  {
    semantic := [];
    if s.alpha < 0.0 || s.alpha > 1.0 {
      return None, semantic;
    }
    var units := Detect(tokens, events, lineStarts, ranges, spanStartsSource, s);
    if units.None? {
      return None, semantic;
    }
    semantic := units.value;
    var weighed := Weigh(units.value, s, ranges != [] || tokens != []);
    analysis := Some(weighed);
  }

  /** What Analyze makes of the semantic units. */
  method Weigh(semantic: seq<SemanticUnit>, s: Settings, hasSource: bool) returns (a: Analysis)
    ensures hasSource || semantic == [] ==> TotalsOk(a, semantic, s, hasSource)
    ensures a.units == Represented(semantic, s.mode.Structural?)
  {
    var tree, branches, levels := AnalyzeTotals(semantic, s.mode.Structural?, hasSource);
    a := Analysis(Weighed(s.alpha, branches as real, levels as real), branches, levels, s.tau, tree);
  }

  /** DetectSemanticUnits, with what its units mean in place of the cut behind them. */
  method Detect(
    tokens: seq<Token>, events: seq<StructuralEvent>, lineStarts: seq<nat>, ranges: seq<SourceRange>,
    spanStartsSource: bool, s: Settings)
    returns (units: Option<seq<SemanticUnit>>)
    ensures units.Some? <==> InputsOk(tokens, events, lineStarts, ranges) && EntropiesOk(tokens) && s.tau >= 0.0
    ensures units.Some? ==>
              UnitsOk(LayoutOf(tokens, ranges), Context(events, lineStarts, s, spanStartsSource), units.value)
    ensures units.Some? && tokens == [] ==> units.value == [] && ranges == []
  {
    ghost var c, w, indices;
    units, c, w, indices := DetectSemanticUnits(tokens, events, lineStarts, s.tau, ranges, s.mode, spanStartsSource);
    if units.Some? && tokens != [] {
      assert w == LayoutOf(tokens, ranges);
      CutUnitsOk(c, w, Context(events, lineStarts, s, spanStartsSource), indices);
    }
  }
}
