/**
 Scoring an input window by window and batch by batch (src/score_cmd.cc:1222-1402), and reading the run's metadata back
 from its records (src/analyze.cc:186-209). The model's decoding is a parameter: the bytes of each token, whether its
 number is in the vocabulary, and the entropy it yields for each target. Any call of the model may fail.
 */
module Inference {
  import opened Wrappers
  import opened Utf8
  import opened Arithmetic
  import opened Records
  import opened Windows

  /** A decode call: count tokens from begin on, with or without scores for the tokens that follow them. */
  datatype Batch = Batch(begin: nat, count: nat, scored: bool)

  datatype Metadata = Metadata(sourceTokens: nat, contextTokens: nat, stride: nat, windowCount: nat)

  datatype Run = Run(records: seq<EntropyRecord>, metadata: Metadata, windows: seq<seq<Batch>>)

  // ----- The records of a run

  /**
   The tokens of an input, perhaps behind a synthetic first one, and the score of each. With a reliable model no call
   fails; otherwise each may.
   */
  datatype Input = Input(
    pieces: seq<seq<byte>>, known: seq<bool>, entropies: seq<real>, bos: bool, reliable: bool)

  predicate InputOk(input: Input) {
    && |input.known| == |input.entropies| == |input.pieces|
    && (input.bos ==> input.pieces != [])
  }

  /** The tokens from a up to b are in the vocabulary. */
  predicate Known(input: Input, a: nat, b: nat) {
    b <= |input.known| && forall t :: a <= t < b ==> input.known[t]
  }

  /** Positions count original tokens. */
  function Observed(input: Input): nat {
    if input.bos then 1 else 0
  }

  function RecordOf(input: Input, t: nat): EntropyRecord
    requires InputOk(input) && 1 <= t < |input.pieces|
  {
    EntropyRecord(t - Observed(input), input.pieces[t], Some(input.entropies[t]))
  }

  /** Records of the targets from a up to b. */
  function RecordsFor(input: Input, a: nat, b: nat): (records: seq<EntropyRecord>)
    requires InputOk(input) && 1 <= a <= b <= |input.pieces|
    ensures |records| == b - a
  {
    seq(b - a, k requires 0 <= k < b - a => RecordOf(input, a + k))
  }

  lemma RecordsJoin(input: Input, a: nat, b: nat, c: nat)
    requires InputOk(input) && 1 <= a <= b <= c <= |input.pieces|
    ensures RecordsFor(input, a, b) + RecordsFor(input, b, c) == RecordsFor(input, a, c)
  {
  }

  /** A first token of the source has no score. */
  function FirstRecord(input: Input): seq<EntropyRecord> {
    if input.bos || input.pieces == [] then [] else [EntropyRecord(0, input.pieces[0], None)]
  }

  function AllRecords(input: Input): seq<EntropyRecord>
    requires InputOk(input)
  {
    FirstRecord(input) + if input.pieces == [] then [] else RecordsFor(input, 1, |input.pieces|)
  }

  /**
   One record for each token of the source, in order, with its bytes and its own score; the first token has a score
   only behind a synthetic one.
   */
  predicate TellsAll(input: Input, records: seq<EntropyRecord>)
    requires InputOk(input)
  {
    var skipped := if input.bos then 1 else 0;
    && |records| + skipped == |input.pieces|
    && forall i :: 0 <= i < |records| ==>
         && records[i].position == i && records[i].bytes == input.pieces[i + skipped]
         && records[i].entropy == if i + skipped == 0 then None else Some(input.entropies[i + skipped])
  }

  lemma AllRecordsTell(input: Input)
    requires InputOk(input)
    ensures TellsAll(input, AllRecords(input))
  {
    var records, skipped := AllRecords(input), Observed(input);
    forall i | 0 <= i < |records| && i + skipped > 0
      ensures records[i] == EntropyRecord(i, input.pieces[i + skipped], Some(input.entropies[i + skipped]))
    {
      assert records[i] == RecordOf(input, i + skipped);
    }
  }

  // ----- Batches

  function BatchesEnd(begin: nat, batches: seq<Batch>): nat {
    if batches == [] then begin else batches[|batches| - 1].begin + batches[|batches| - 1].count
  }

  /** All of a batch's targets are emitted, or none is; and it is full unless the warm-up or the window ends with it. */
  predicate BatchOk(w: Window, b: Batch, limit: nat) {
    && 1 <= b.count <= limit
    && (if b.scored then w.scoredBegin <= b.begin + 1 else b.begin + b.count + 1 <= w.scoredBegin)
    && (b.count < limit ==> b.begin + b.count + 1 == if b.scored then w.end else w.scoredBegin)
  }

  /** The batches decode a window's tokens from its begin on, each once and in order. */
  predicate Decoded(w: Window, batches: seq<Batch>, limit: nat) {
    && (forall i :: 0 <= i < |batches| ==> BatchOk(w, batches[i], limit))
    && (forall i :: 0 <= i < |batches| ==> batches[i].begin == BatchesEnd(w.begin, batches[..i]))
  }

  /** A limit that no batch of the window can pass makes none of them less full. */
  lemma FullUpTo(w: Window, b: Batch, size: nat, limit: nat)
    requires BatchOk(w, b, size) && w.begin <= b.begin && b.begin + b.count < w.end && w.scoredBegin < w.end
    requires size == if limit < w.end - w.begin - 1 then limit else w.end - w.begin - 1
    ensures BatchOk(w, b, limit)
  {
  }

  lemma AddBatch(w: Window, batches: seq<Batch>, limit: nat, b: Batch)
    requires Decoded(w, batches, limit) && BatchOk(w, b, limit) && b.begin == BatchesEnd(w.begin, batches)
    ensures Decoded(w, batches + [b], limit)
  {
    var next := batches + [b];
    assert next[..|batches|] == batches;
    forall i | 0 <= i < |batches| ensures next[i].begin == BatchesEnd(w.begin, next[..i]) {
      assert next[..i] == batches[..i];
    }
  }

  /** The targets scored once the window is decoded up to a token. */
  function ScoredUpTo(w: Window, at: nat): nat {
    if at + 1 < w.scoredBegin then w.scoredBegin else at + 1
  }

  predicate WindowIn(w: Window, n: nat) {
    1 <= w.scoredBegin < w.end <= n && w.begin < w.scoredBegin
  }

  /** The records are those of the targets from a on, up to at most b. */
  predicate Emitted(input: Input, a: nat, b: nat, records: seq<EntropyRecord>)
    requires InputOk(input)
  {
    1 <= a <= b <= |input.pieces| && |records| <= b - a && records == RecordsFor(input, a, a + |records|)
  }

  /** All of them, and all of those targets are in the vocabulary. */
  predicate EmittedAll(input: Input, a: nat, b: nat, records: seq<EntropyRecord>)
    requires InputOk(input)
  {
    Emitted(input, a, b, records) && |records| == b - a && Known(input, a, b)
  }

  lemma EmittedOn(input: Input, a: nat, b: nat, c: nat, front: seq<EntropyRecord>, more: seq<EntropyRecord>)
    requires InputOk(input) && EmittedAll(input, a, b, front) && Emitted(input, b, c, more)
    ensures Emitted(input, a, c, front + more)
    ensures EmittedAll(input, b, c, more) ==> EmittedAll(input, a, c, front + more)
  {
    RecordsJoin(input, a, b, b + |more|);
  }

  /** The scores of one batch; the host scores a whole batch before any of it is written. */
  method Emit(input: Input, source: nat, count: nat) returns (records: seq<EntropyRecord>, ok: bool)
    requires InputOk(input) && source + count < |input.pieces|
    ensures Emitted(input, source + 1, source + count + 1, records)
    ensures ok ==> EmittedAll(input, source + 1, source + count + 1, records)
    ensures input.reliable && Known(input, source + 1, source + count + 1) ==> ok
  {
    records, ok := [], *;
    if !ok && !input.reliable {
      return;
    }
    for index := 0 to count
      invariant records == RecordsFor(input, source + 1, source + index + 1)
      invariant Known(input, source + 1, source + index + 1)
    {
      var target := source + index + 1;
      var scored: bool := *;
      if !input.known[target] || !(scored || input.reliable) {
        return records, false;
      }
      assert RecordsFor(input, source + 1, target + 1)
          == RecordsFor(input, source + 1, target) + [RecordOf(input, target)];
      var entropy := Some(input.entropies[target]);
      records := records + [EntropyRecord(target - Observed(input), input.pieces[target], entropy)];
    }
    ok := true;
  }

  /** The batch at an offset into the window, and the records it yields. */
  method DecodeBatch(input: Input, w: Window, batchSize: nat, firstScored: nat, local: nat)
    returns (batch: Batch, records: seq<EntropyRecord>, ok: bool)
    requires InputOk(input) && WindowIn(w, |input.pieces|) && batchSize > 0
    requires firstScored == w.scoredBegin - w.begin - 1 && w.begin + local + 1 < w.end
    requires batchSize <= w.end - w.begin - 1
    ensures batch.begin == w.begin + local && batch.begin + batch.count < w.end && BatchOk(w, batch, batchSize)
    ensures Emitted(input, ScoredUpTo(w, batch.begin), ScoredUpTo(w, batch.begin + batch.count), records)
    ensures ok ==> EmittedAll(input, ScoredUpTo(w, batch.begin), ScoredUpTo(w, batch.begin + batch.count), records)
    ensures input.reliable && Known(input, 1, |input.pieces|) ==> ok
  {
    var scoreBatch := local >= firstScored;
    var available := w.end - w.begin - 1 - local;
    var room := if scoreBatch || available < firstScored - local then available else firstScored - local;
    var count := if batchSize < room then batchSize else room;
    var source := w.begin + local;
    batch := Batch(source, count, scoreBatch);
    records, ok := [], *;
    ok := ok || input.reliable;
    if ok && scoreBatch {
      records, ok := Emit(input, source, count);
    }
  }

  /** One window: all its tokens but the last are decoded, and exactly its targets scored. */
  method DecodeWindow(input: Input, w: Window, batchLimit: nat)
    returns (batches: seq<Batch>, records: seq<EntropyRecord>, ok: bool)
    requires InputOk(input) && WindowIn(w, |input.pieces|) && batchLimit > 0
    ensures Decoded(w, batches, batchLimit) && Emitted(input, w.scoredBegin, w.end, records)
    ensures ok ==> BatchesEnd(w.begin, batches) == w.end - 1 && EmittedAll(input, w.scoredBegin, w.end, records)
    ensures input.reliable && Known(input, 1, |input.pieces|) ==> ok
  {
    var windowTokens := w.end - w.begin;
    var batchSize := if batchLimit < windowTokens - 1 then batchLimit else windowTokens - 1;
    var firstScored := w.scoredBegin - w.begin - 1;
    batches, records, ok := [], [], true;
    var local: nat := 0;
    while local + 1 < windowTokens
      invariant local < windowTokens && BatchesEnd(w.begin, batches) == w.begin + local
      invariant Decoded(w, batches, batchLimit) && ok
      invariant EmittedAll(input, w.scoredBegin, ScoredUpTo(w, w.begin + local), records)
    {
      var batch, scored;
      batch, scored, ok := DecodeBatch(input, w, batchSize, firstScored, local);
      FullUpTo(w, batch, batchSize, batchLimit);
      EmittedOn(input, w.scoredBegin, ScoredUpTo(w, batch.begin), ScoredUpTo(w, batch.begin + batch.count),
                records, scored);
      records := records + scored;
      if !ok {
        return;
      }
      AddBatch(w, batches, batchLimit, batch);
      batches := batches + [batch];
      local := local + batch.count;
    }
  }

  // ----- The run

  function MetadataOf(plan: Plan, bos: bool): Metadata
    requires bos ==> plan.tokenCount > 0
  {
    Metadata(plan.tokenCount - if bos then 1 else 0, plan.contextSize, plan.stride, plan.windowCount)
  }

  ghost predicate WindowsDecoded(plan: Plan, windows: seq<seq<Batch>>, batchSize: nat) {
    && IsPlan(plan) && |windows| <= plan.windowCount
    && forall i :: 0 <= i < |windows| ==>
         && Decoded(WindowAt(plan, i), windows[i], batchSize)
         && BatchesEnd(WindowAt(plan, i).begin, windows[i]) == WindowAt(plan, i).end - 1
  }

  lemma WindowInside(plan: Plan, i: nat)
    requires IsPlan(plan) && i < plan.windowCount
    ensures WindowIn(WindowAt(plan, i), plan.tokenCount)
    ensures WindowAt(plan, i).end - WindowAt(plan, i).begin <= plan.contextSize
  {
    WindowsFit(plan, i);
    WindowsFit(plan, 0);
    WindowsChain(plan, 0);
    if i > 0 {
      WindowsAscend(plan, 0, i);
    }
  }

  /** The windows before i are decoded, and what they scored is recorded. */
  ghost predicate Progress(
    input: Input, plan: Plan, batchSize: nat, i: nat, windows: seq<seq<Batch>>, records: seq<EntropyRecord>)
  {
    && InputOk(input) && plan.tokenCount == |input.pieces|
    && |windows| == i && WindowsDecoded(plan, windows, batchSize)
    && EmittedAll(input, 1, Next(plan, i), records)
  }

  /** The first target that window i has to score. */
  function Next(plan: Plan, i: nat): nat
    requires IsPlan(plan) && i <= plan.windowCount
  {
    if i == 0 then 1 else WindowAt(plan, i - 1).end
  }

  lemma AddWindow(plan: Plan, batchSize: nat, windows: seq<seq<Batch>>, batches: seq<Batch>)
    requires WindowsDecoded(plan, windows, batchSize) && |windows| < plan.windowCount
    requires var w := WindowAt(plan, |windows|);
             Decoded(w, batches, batchSize) && BatchesEnd(w.begin, batches) == w.end - 1
    ensures WindowsDecoded(plan, windows + [batches], batchSize)
  {
    var more := windows + [batches];
    assert forall i :: 0 <= i < |windows| ==> more[i] == windows[i];
  }

  /** The targets of a window follow on those of the windows before it. */
  lemma NextWindow(plan: Plan, i: nat)
    requires IsPlan(plan) && i < plan.windowCount
    ensures Next(plan, i) == WindowAt(plan, i).scoredBegin && Next(plan, i + 1) == WindowAt(plan, i).end
  {
    WindowsChain(plan, if i == 0 then 0 else i - 1);
  }

  /** All windows of a plan: the targets come out once each and in order. */
  method DecodeWindows(input: Input, plan: Plan, batchSize: nat)
    returns (windows: seq<seq<Batch>>, records: seq<EntropyRecord>, ok: bool)
    requires InputOk(input) && IsPlan(plan) && plan.tokenCount == |input.pieces| >= 2 && batchSize > 0
    ensures WindowsDecoded(plan, windows, batchSize) && Emitted(input, 1, |input.pieces|, records)
    ensures ok ==> |windows| == plan.windowCount && EmittedAll(input, 1, |input.pieces|, records)
    ensures input.reliable && Known(input, 1, |input.pieces|) ==> ok
  {
    windows, records, ok := [], [], true;
    for i := 0 to plan.windowCount
      invariant Progress(input, plan, batchSize, i, windows, records)
    {
      var w := ScoreWindowAt(plan, i).value;
      WindowInside(plan, i);
      NextWindow(plan, i);
      var batches, scored;
      batches, scored, ok := DecodeWindow(input, w, batchSize);
      EmittedOn(input, 1, w.scoredBegin, w.end, records, scored);
      records := records + scored;
      if !ok {
        return;
      }
      AddWindow(plan, batchSize, windows, batches);
      windows := windows + [batches];
    }
    WindowsChain(plan, plan.windowCount - 1);
  }

  /** How a run ends: with inputs out of range, with a failure of the model, or with all records. */
  datatype Ending = Rejected | Interrupted | Completed

  /**
   ScoreInput. Whatever fails, what has been written until then is the beginning of what a completed run writes; and
   only with every target in the vocabulary is a run completed.
   */
  method ScoreInput(input: Input, contextSize: nat, batchSize: nat) returns (ending: Ending, run: Run)
    requires InputOk(input)
    ensures ending.Rejected? <==> batchSize == 0 || contextSize == 0 || (|input.pieces| >= 2 && contextSize < 2)
    ensures run.records <= AllRecords(input)
    ensures !ending.Rejected? ==>
              var plan := PlanScoreWindows(|input.pieces|, contextSize).value;
              run.metadata == MetadataOf(plan, input.bos) && WindowsDecoded(plan, run.windows, batchSize)
    ensures ending.Completed? ==>
              && run.records == AllRecords(input) && TellsAll(input, run.records) && Known(input, 1, |input.pieces|)
              && |run.windows| == PlanScoreWindows(|input.pieces|, contextSize).value.windowCount
    ensures input.reliable && Known(input, 1, |input.pieces|) ==> !ending.Interrupted?
  {
    AllRecordsTell(input);
    run := Run([], Metadata(0, 0, 0, 0), []);
    var planned := PlanScoreWindows(|input.pieces|, contextSize);
    if batchSize == 0 || planned.None? {
      return Rejected, run;
    }
    var plan := planned.value;
    run := run.(metadata := MetadataOf(plan, input.bos));
    if input.pieces == [] {
      return Completed, run;
    }
    var records := [];
    if !input.bos {
      records := [EntropyRecord(0, input.pieces[0], None)];
    }
    if |input.pieces| == 1 {
      assert RecordsFor(input, 1, 1) == [];
      return Completed, run.(records := records);
    }
    var windows, scored, ok := DecodeWindows(input, plan, batchSize);
    RecordsJoin(input, 1, 1 + |scored|, |input.pieces|);
    return if ok then Completed else Interrupted, run.(records := records + scored, windows := windows);
  }

  // ----- Metadata from records

  function MetadataFromRecords(records: seq<EntropyRecord>, contextTokens: nat): Metadata {
    var inferred := |records| + if records != [] && records[0].entropy.Some? then 1 else 0;
    if contextTokens < 2 then Metadata(|records|, contextTokens, 0, 0)
    else
      var stride := contextTokens / 2;
      if inferred < 2 then Metadata(|records|, contextTokens, stride, 0)
      else if inferred <= contextTokens then Metadata(|records|, contextTokens, stride, 1)
      else Metadata(|records|, contextTokens, stride, 1 + (inferred - contextTokens + stride - 1) / stride)
  }

  lemma OneMoreStride(a: nat, s: nat)
    requires s > 0
    ensures (a + s) / s == a / s + 1
  {
    var q := a / s;
    assert a == s * q + a % s;
    assert s * (q + 1) == s * q + s;
    DivisionUnique(a + s, s, q + 1, a % s);
  }

  /** The two formulas for the number of windows beyond the first agree. */
  lemma WindowCountsAgree(tokenCount: nat, contextSize: nat)
    requires tokenCount > contextSize >= 2
    ensures var s := contextSize / 2;
            1 + (tokenCount - contextSize + s - 1) / s == 2 + (tokenCount - contextSize - 1) / s
  {
    OneMoreStride(tokenCount - contextSize - 1, contextSize / 2);
  }

  /** The records of a run tell its metadata, with or without a synthetic first token. */
  lemma MetadataAgrees(input: Input, contextSize: nat)
    requires InputOk(input) && PlanScoreWindows(|input.pieces|, contextSize).Some?
    ensures MetadataFromRecords(AllRecords(input), contextSize)
            == MetadataOf(PlanScoreWindows(|input.pieces|, contextSize).value, input.bos)
  {
    RecordCounts(input);
    if |input.pieces| > contextSize >= 2 {
      WindowCountsAgree(|input.pieces|, contextSize);
    }
  }

  lemma RecordCounts(input: Input)
    requires InputOk(input)
    ensures var records := AllRecords(input);
            && |records| == |input.pieces| - Observed(input)
            && (records != [] ==> (records[0].entropy.Some? <==> input.bos))
  {
    var records := AllRecords(input);
    if input.bos && records != [] {
      assert records[0] == RecordOf(input, 1);
    } else if !input.bos && input.pieces != [] {
      assert records[0] == FirstRecord(input)[0];
    }
  }

  // ----- A cache hit

  /** Every token has bytes, and every score is valid. */
  predicate Scorable(input: Input) {
    && InputOk(input)
    && (forall t :: Observed(input) <= t < |input.pieces| ==> input.pieces[t] != [])
    && (forall t :: 0 <= t < |input.entropies| ==> input.entropies[t] >= 0.0)
  }

  lemma RunScored(input: Input)
    requires Scorable(input)
    ensures AllScored(AllRecords(input))
  {
    var records := AllRecords(input);
    forall i | 0 <= i < |records| ensures Scored(records[i], i) {
      if i > 0 || input.bos {
        assert records[i] == RecordOf(input, i + Observed(input));
      }
    }
  }

  /**
   What a run publishes is complete unless its first piece is nothing but the dummy prefix, and reading it back gives
   the tokens and the metadata of the run.
   */
  lemma CacheHitReproducesRun(source: seq<byte>, input: Input, contextSize: nat)
    requires Scorable(input) && PlanScoreWindows(|input.pieces|, contextSize).Some?
    requires Aligns(source, AllRecords(input))
    ensures var records := AllRecords(input);
            var published := Normalized(source, records);
            && Align(source, published) == Align(source, records)
            && MetadataFromRecords(published, contextSize)
               == MetadataOf(PlanScoreWindows(|input.pieces|, contextSize).value, input.bos)
            && (Complete(source, published)
                <==> !(records != [] && records[0].bytes == [SPACE] && HasDummyPrefix(source, [SPACE])))
  {
    var records := AllRecords(input);
    assert AllScored(records) by {
      RunScored(input);
    }
    AlignNormalized(source, records);
    NormalizedComplete(source, records);
    SameMetadata(source, records, contextSize);
    MetadataAgrees(input, contextSize);
  }

  /** Normalizing keeps the number of records and whether the first has a score. */
  lemma SameMetadata(source: seq<byte>, records: seq<EntropyRecord>, contextSize: nat)
    ensures MetadataFromRecords(Normalized(source, records), contextSize) == MetadataFromRecords(records, contextSize)
  {
  }
}
