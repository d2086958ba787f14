/**
 From a source and its entropy records to the reported tree (src/analyze.cc:308-352, src/jsonl.cc:51-71 and 210-214):
 no stage ever refuses what the stage before it hands over.
 */
module FileAnalysis {
  import opened Wrappers
  import opened Utf8
  import opened Tokens
  import opened Prepare
  import opened Records
  import opened Units
  import opened Cuts
  import opened Hierarchy
  import opened FunctionScores
  import opened CoreAnalysis
  import opened Threshold
  import Forest
  import M = OffsetMap

  // ----- Offsets of the tree

  predicate EntriesInside(entries: seq<Entry>, size: nat) {
    forall i :: 0 <= i < |entries| ==> entries[i].start < size && entries[i].end < size
  }

  lemma InsideConcat(a: seq<Entry>, b: seq<Entry>, size: nat)
    ensures EntriesInside(a + b, size) <==> EntriesInside(a, size) && EntriesInside(b, size)
  {
    if EntriesInside(a + b, size) {
      assert forall i :: 0 <= i < |a| ==> a[i] == (a + b)[i];
      assert forall i :: 0 <= i < |b| ==> b[i] == (a + b)[|a| + i];
    }
  }

  /** The same tree with each offset replaced by the one it comes from. */
  predicate Relocated(dense: seq<nat>, from: Unit, to: Unit)
    decreases from, 0
  {
    && from.start < |dense| && from.end < |dense| && to.start == dense[from.start] && to.end == dense[from.end]
    && to.level == from.level && to.branching == from.branching
    && RelocatedAll(dense, from.children, to.children)
  }

  predicate RelocatedAll(dense: seq<nat>, from: seq<Unit>, to: seq<Unit>)
    decreases from, 1
  {
    && |from| == |to|
    && (from == [] ||
        (RelocatedAll(dense, from[..|from| - 1], to[..|from| - 1])
         && Relocated(dense, from[|from| - 1], to[|from| - 1])))
  }

  /** MapUnit: None instead of the out-of-range error. */
  method MapUnit(map_: M.OffsetMap, u: Unit) returns (mapped: Option<Unit>)
    requires map_.Valid()
    ensures mapped.Some? <==> EntriesInside(Preorder(u), |map_.Contents()|)
    ensures mapped.Some? ==> Relocated(map_.Contents(), u, mapped.value)
    decreases u, 0
  {
    var start := map_.OriginalOffset(u.start);
    var end := map_.OriginalOffset(u.end);
    var entry := Entry(u.start, u.end, u.level, u.branching);
    InsideConcat([entry], PreorderAll(u.children), |map_.Contents()|);
    assert [entry][0] == entry;
    if start.None? || end.None? {
      return None;
    }
    var children := MapUnits(map_, u.children);
    if children.None? {
      return None;
    }
    return Some(Unit(start.value, end.value, u.level, u.branching, children.value));
  }

  method MapUnits(map_: M.OffsetMap, us: seq<Unit>) returns (mapped: Option<seq<Unit>>)
    requires map_.Valid()
    ensures mapped.Some? <==> EntriesInside(PreorderAll(us), |map_.Contents()|)
    ensures mapped.Some? ==> RelocatedAll(map_.Contents(), us, mapped.value)
    decreases us, 1
  {
    if us == [] {
      return Some([]);
    }
    var n := |us| - 1;
    InsideConcat(PreorderAll(us[..n]), Preorder(us[n]), |map_.Contents()|);
    var front := MapUnits(map_, us[..n]);
    if front.None? {
      return None;
    }
    var last := MapUnit(map_, us[n]);
    if last.None? {
      return None;
    }
    var all := front.value + [last.value];
    assert all[..n] == front.value;
    return Some(all);
  }

  // ----- Units lie inside the source

  lemma LastEndInside(units: seq<SemanticUnit>, a: nat, b: nat, end: nat)
    requires a < b <= |units| && forall i :: 0 <= i < |units| ==> units[i].end <= end
    ensures LastEnd(units, a, b) <= end
    decreases b - a
  {
    if a + 1 < b {
      LastEndInside(units, a + 1, b, end);
    }
  }

  /** A tree of ordered units that end by a certain byte has no offset behind it. */
  lemma ForestInside(units: seq<SemanticUnit>, end: nat, structural: bool)
    requires Partition(units) && EndBy(units, end)
    ensures EntriesInside(PreorderAll(Represented(units, structural)), end + 1)
  {
    var n := |units| - 1;
    forall i | 0 <= i < |units| ensures units[i].start < units[i].end <= end {
      assert i < n ==> units[i].end <= units[n].start < units[n].end;
    }
    ForestReadsBack(units);
    forall i | 0 <= i < |units| ensures Entries(units, 0, |units|)[i].end <= end {
      LastEndInside(units, i, Forest.SubtreeEnd(Depths(units), i), end);
    }
  }

  // ----- The file

  lemma {:induction false} TokenScores(records: seq<EntropyRecord>, pieces: seq<seq<byte>>, n: nat)
    requires n <= |pieces| == |records| && AllScored(records)
    ensures EntropiesOk(TokensUpTo(records, pieces, n))
  {
    if n > 0 {
      TokenScores(records, pieces, n - 1);
      assert Scored(records[n - 1], n - 1);
    }
  }

  datatype FileResult = FileResult(analysis: Analysis, functions: seq<FunctionScore>)

  /** The units are those of the whole file. */
  ghost predicate FileUnitsOk(p: Prepared, tokens: seq<Token>, s: Settings, units: seq<SemanticUnit>) {
    && UnitsOk(LayoutOf(tokens, p.meaningful), Context(p.events, p.lineStarts, s, true), units)
    && CoversSpan(p, 0, |p.cleaned|, s.mode, units)
  }

  /** What the result says about a prepared source with code in it, whose tokens have been cut into units. */
  ghost predicate ResultOk(
    p: Prepared, dense: seq<nat>, tokens: seq<Token>, s: Settings, units: seq<SemanticUnit>, result: FileResult)
  {
    && FileUnitsOk(p, tokens, s, units)
    && TotalsOk(result.analysis, units, s, true)
    && RelocatedAll(dense, Represented(units, s.mode.Structural?), result.analysis.units)
    && |result.functions| == |p.functions| && ScoresOk(p, tokens, s, result.functions)
  }

  /** The records spell the source, and no token's score is negative. */
  predicate Usable(source: seq<byte>, records: seq<EntropyRecord>) {
    Aligns(source, records) && EntropiesOk(Align(source, records).value)
  }

  /** The caller's options: how the threshold is found, and the rest of the settings. */
  datatype Options = Options(rule: TauRule, alpha: real, mode: Mode)

  predicate OptionsOk(options: Options) {
    RuleOk(options.rule) && 0.0 <= options.alpha <= 1.0
  }

  /** Records that the cache or a fresh run may hand over are never refused: with options in range there is a result. */
  lemma CompleteUsable(source: seq<byte>, records: seq<EntropyRecord>)
    requires Complete(source, records)
    ensures Usable(source, records)
  {
    CompleteAligns(source, records);
    TokenScores(records, PiecesOf(source, records), |records|);
  }

  /**
   AnalyzeFile; None instead of an error. Only unusable records and options out of range are refused, never what was
   prepared, whatever was removed and whatever events and functions there are.
   */
  method AnalyzePrepared(p: Prepared, map_: M.OffsetMap, records: seq<EntropyRecord>, options: Options)
    returns (result: Option<FileResult>, ghost tokens: seq<Token>, ghost semantic: seq<SemanticUnit>)
    requires PreparedOk(p) && map_.Valid() && |map_.Contents()| == |p.cleaned| + 1
    ensures result.Some? <==> OptionsOk(options) && (p.meaningful == [] || Usable(p.cleaned, records))
    ensures result.Some? ==>
              var s := Settings(result.value.analysis.tau, options.alpha, options.mode);
              && IsThreshold(tokens, options.rule, s.tau)
              && if p.meaningful == [] then
                   tokens == [] && TotalsOk(result.value.analysis, [], s, false)
                   && result.value.analysis.units == [] && result.value.functions == []
                 else
                   tokens == Align(p.cleaned, records).value
                   && ResultOk(p, map_.Contents(), tokens, s, semantic, result.value)
  {
    tokens, semantic := [], [];
    if options.alpha < 0.0 || options.alpha > 1.0 {
      return None, tokens, semantic;
    }
    if p.meaningful == [] {
      result := AnalyzeNothing(options);
      return result, tokens, semantic;
    }
    var aligned := AlignTokens(p.cleaned, records);
    if aligned.None? {
      return None, tokens, semantic;
    }
    tokens := aligned.value;
    var scored := CheckEntropies(aligned.value);
    if !scored {
      return None, tokens, semantic;
    }
    var tau := Resolve(aligned.value, options.rule);
    if tau.None? {
      return None, tokens, semantic;
    }
    var found;
    found, semantic := AnalyzeTokens(p, map_, aligned.value, Settings(tau.value, options.alpha, options.mode));
    result := Some(found);
  }

  /** The analysis of a source without code. */
  method AnalyzeNothing(options: Options) returns (result: Option<FileResult>)
    requires 0.0 <= options.alpha <= 1.0
    ensures result.Some? <==> RuleOk(options.rule)
    ensures result.Some? ==>
              var s := Settings(result.value.analysis.tau, options.alpha, options.mode);
              && IsThreshold([], options.rule, s.tau) && TotalsOk(result.value.analysis, [], s, false)
              && result.value.analysis.units == [] && result.value.functions == []
  {
    var tau := Resolve([], options.rule);
    if tau.None? {
      return None;
    }
    ghost var semantic;
    var analysis;
    analysis, semantic := Analyze([], [], [], [], true, Settings(tau.value, options.alpha, options.mode));
    result := Some(FileResult(analysis.value, []));
  }

  method AnalyzeTokens(p: Prepared, map_: M.OffsetMap, tokens: seq<Token>, s: Settings)
    returns (result: FileResult, ghost semantic: seq<SemanticUnit>)
    requires PreparedOk(p) && map_.Valid() && |map_.Contents()| == |p.cleaned| + 1 && Tiles(tokens, |p.cleaned|)
    requires EntropiesOk(tokens) && SettingsOk(s) && p.meaningful != []
    ensures result.analysis.tau == s.tau
    ensures ResultOk(p, map_.Contents(), tokens, s, semantic, result)
  {
    var analysis;
    analysis, semantic := AnalyzeWhole(p, tokens, s);
    var functions := ScoreFunctions(p, tokens, s);
    var mapped := MapAnalysis(map_, analysis, semantic, |p.cleaned|, s);
    result := FileResult(mapped, functions);
  }

  /** MapAnalysisOffsets: the tree with original offsets; every offset has one. */
  method MapAnalysis(
    map_: M.OffsetMap, analysis: Analysis, ghost units: seq<SemanticUnit>, ghost end: nat, ghost s: Settings)
    returns (mapped: Analysis)
    requires map_.Valid() && |map_.Contents()| == end + 1 && Partition(units) && EndBy(units, end)
    requires TotalsOk(analysis, units, s, true) && analysis.units == Represented(units, s.mode.Structural?)
    ensures TotalsOk(mapped, units, s, true)
    ensures RelocatedAll(map_.Contents(), Represented(units, s.mode.Structural?), mapped.units)
  {
    ForestInside(units, end, s.mode.Structural?);
    var found := MapUnits(map_, analysis.units);
    mapped := analysis.(units := found.value);
  }

  /** The call of Analyze for the whole file; it is never refused. */
  method AnalyzeWhole(p: Prepared, tokens: seq<Token>, s: Settings)
    returns (analysis: Analysis, ghost semantic: seq<SemanticUnit>)
    requires PreparedOk(p) && Tiles(tokens, |p.cleaned|) && EntropiesOk(tokens) && SettingsOk(s) && p.meaningful != []
    ensures FileUnitsOk(p, tokens, s, semantic) && Partition(semantic) && EndBy(semantic, |p.cleaned|)
    ensures TotalsOk(analysis, semantic, s, true)
    ensures analysis.units == Represented(semantic, s.mode.Structural?)
  {
    FileFits(p, tokens);
    var analyzed;
    analyzed, semantic := Analyze(tokens, p.events, p.lineStarts, p.meaningful, true, s);
    analysis := analyzed.value;
    FileCovered(p, tokens, s, semantic);
  }

  /** The units of the file's tokens hold its meaningful bytes, and there are tokens if there are such bytes. */
  lemma FileCovered(p: Prepared, tokens: seq<Token>, s: Settings, units: seq<SemanticUnit>)
    requires PreparedOk(p) && Tiles(tokens, |p.cleaned|) && p.meaningful != []
    requires UnitsOk(LayoutOf(tokens, p.meaningful), Context(p.events, p.lineStarts, s, true), units)
    ensures CoversSpan(p, 0, |p.cleaned|, s.mode, units)
    ensures tokens != [] && SourceEnd(tokens) == |p.cleaned|
  {
    TilesOk(tokens, |p.cleaned|);
    assert p.meaningful[0].start < p.meaningful[0].end <= |p.cleaned|;
    if s.mode.Structural? {
      forall k | 0 <= k < |p.cleaned| && Covers(p.meaningful, k) ensures InExactlyOne(units, k) {
        TokenHolding(tokens, |p.cleaned|, k);
        assert MeaningfulIn(LayoutOf(tokens, p.meaningful), FirstOverlapping(tokens, k), k);
      }
    }
  }
}
