/** Preparing a source for analysis: src/lang.cc:911-913, 955-966 and 1002-1062. */
module Prepare {
  import opened Wrappers
  import opened Sequences
  import opened Utf8
  import opened Tokens
  import opened Sorting
  import opened Cleaning
  import M = OffsetMap

  datatype FunctionSpan = FunctionSpan(name: string, start: nat, end: nat)

  datatype Prepared = Prepared(
    cleaned: seq<byte>, lineStarts: seq<nat>, events: seq<StructuralEvent>, functions: seq<FunctionSpan>,
    meaningful: seq<SourceRange>)

  // ----- Offsets

  /** Where an original offset goes: the first boundary whose own offset reaches it. */
  function Place(dense: seq<nat>, original: nat, from: nat := 0): (r: nat)
    requires from <= |dense|
    ensures from <= r <= |dense|
    ensures forall j :: from <= j < r ==> dense[j] < original
    ensures r < |dense| ==> original <= dense[r]
    decreases |dense| - from
  {
    if from == |dense| || original <= dense[from] then from else Place(dense, original, from + 1)
  }

  lemma PlaceUnique(dense: seq<nat>, original: nat, r: nat)
    requires M.IsLowerBound(dense, original, r)
    ensures r == Place(dense, original)
  {
    var p := Place(dense, original);
    var m := if r < p then r else p;
    assert m < |dense| ==> (dense[m] < original <==> m < r) && (dense[m] < original <==> m < p);
  }

  /** A remapped stretch holds exactly the boundaries that come from the original stretch. */
  lemma PlaceKeepsBytes(dense: seq<nat>, start: nat, end: nat, k: nat)
    requires Ascending(dense) && k < |dense|
    ensures Place(dense, start) <= k < Place(dense, end) <==> start <= dense[k] < end
  {
  }

  /** The dense list of a cleaned source: the offset of each byte, then the end. */
  function DenseOf(source: seq<byte>, removals: seq<Range>): seq<nat> {
    Offsets(Cleaned(source, removals)) + [|source|]
  }

  lemma PlaceInside(source: seq<byte>, removals: seq<Range>, original: nat)
    requires original <= |source|
    ensures Place(DenseOf(source, removals), original) <= |Cleaned(source, removals)|
  {
    var dense := DenseOf(source, removals);
    assert dense[|dense| - 1] == |source|;
  }

  // ----- Events

  function Remapped(dense: seq<nat>, e: StructuralEvent): StructuralEvent {
    StructuralEvent(Place(dense, e.scopeStart), Place(dense, e.byteOffset), e.depth)
  }

  /** The first n events, remapped, without those nothing is left of. */
  function RemappedUpTo(dense: seq<nat>, events: seq<StructuralEvent>, n: nat): seq<StructuralEvent>
    requires n <= |events|
  {
    if n == 0 then []
    else
      var e := Remapped(dense, events[n - 1]);
      RemappedUpTo(dense, events, n - 1) + if e.scopeStart < e.byteOffset then [e] else []
  }

  predicate Less(a: StructuralEvent, b: StructuralEvent) {
    || a.scopeStart < b.scopeStart
    || (a.scopeStart == b.scopeStart
        && (a.byteOffset < b.byteOffset || (a.byteOffset == b.byteOffset && a.depth < b.depth)))
  }

  predicate NotAfter(a: StructuralEvent, b: StructuralEvent) {
    !Less(b, a)
  }

  function SortEvents(events: seq<StructuralEvent>): seq<StructuralEvent> {
    Sort(events, NotAfter)
  }

  /** Of neighbours that are equal, the first. */
  function Distinct(events: seq<StructuralEvent>): seq<StructuralEvent> {
    if |events| < 2 then events
    else if events[0] == events[1] then Distinct(events[1..])
    else [events[0]] + Distinct(events[1..])
  }

  predicate EventsAscend(events: seq<StructuralEvent>) {
    forall i, j :: 0 <= i < j < |events| ==> !Less(events[j], events[i])
  }

  predicate StrictlyAscend(events: seq<StructuralEvent>) {
    forall i, j :: 0 <= i < j < |events| ==> Less(events[i], events[j])
  }

  lemma SortEventsSorts(events: seq<StructuralEvent>)
    ensures EventsAscend(SortEvents(events))
    ensures forall x :: x in SortEvents(events) <==> x in events
  {
    SortSorts(events, NotAfter);
    var sorted := SortEvents(events);
    forall i, j | 0 <= i < j < |sorted| ensures !Less(sorted[j], sorted[i]) {
      assert NotAfter(sorted[i], sorted[j]);
    }
  }

  lemma {:induction false} DistinctAscends(events: seq<StructuralEvent>)
    requires EventsAscend(events)
    ensures StrictlyAscend(Distinct(events))
    ensures forall x :: x in Distinct(events) <==> x in events
  {
    if |events| >= 2 {
      DistinctAscends(events[1..]);
      var rest := Distinct(events[1..]);
      assert forall x :: x in events <==> x == events[0] || x in events[1..];
      if events[0] != events[1] {
        forall i | 0 <= i < |rest| ensures Less(events[0], rest[i]) {
          assert rest[i] in events[1..];
          var j :| 0 <= j < |events[1..]| && events[1..][j] == rest[i];
          assert !Less(events[j + 1], events[1]) || j == 0;
        }
      }
    }
  }

  /** Some original event becomes x, and x is not empty. */
  predicate IsImage(dense: seq<nat>, events: seq<StructuralEvent>, n: nat, x: StructuralEvent)
    requires n <= |events|
  {
    x.scopeStart < x.byteOffset && exists i :: 0 <= i < n && Remapped(dense, events[i]) == x
  }

  /** A remapped event keeps its depth, and covers exactly the boundaries that come from its scope. */
  lemma RemappedMeaning(dense: seq<nat>, e: StructuralEvent, k: nat)
    requires Ascending(dense) && k < |dense|
    ensures Remapped(dense, e).depth == e.depth
    ensures Remapped(dense, e).scopeStart <= k < Remapped(dense, e).byteOffset <==>
              e.scopeStart <= dense[k] < e.byteOffset
  {
    PlaceKeepsBytes(dense, e.scopeStart, e.byteOffset, k);
  }

  lemma {:induction false} RemappedImages(dense: seq<nat>, events: seq<StructuralEvent>, n: nat, x: StructuralEvent)
    requires n <= |events|
    ensures x in RemappedUpTo(dense, events, n) <==> IsImage(dense, events, n, x)
  {
    if n > 0 {
      RemappedImages(dense, events, n - 1, x);
      var last := Remapped(dense, events[n - 1]);
      var added := if last.scopeStart < last.byteOffset then [last] else [];
      assert x in RemappedUpTo(dense, events, n) <==> x in RemappedUpTo(dense, events, n - 1) || x in added;
      MoreImages(dense, events, n, x);
    }
  }

  lemma MoreImages(dense: seq<nat>, events: seq<StructuralEvent>, n: nat, x: StructuralEvent)
    requires 0 < n <= |events|
    ensures IsImage(dense, events, n, x)
       <==> IsImage(dense, events, n - 1, x)
            || (x.scopeStart < x.byteOffset && x == Remapped(dense, events[n - 1]))
  {
  }

  /** Exactly the images of the original events, each once, in order. */
  ghost predicate EventsPrepared(dense: seq<nat>, original: seq<StructuralEvent>, events: seq<StructuralEvent>) {
    StrictlyAscend(events) && forall x :: x in events <==> IsImage(dense, original, |original|, x)
  }

  method RemapEvents(map_: M.OffsetMap, original: seq<StructuralEvent>) returns (events: seq<StructuralEvent>)
    requires map_.Valid()
    ensures EventsPrepared(map_.Contents(), original, events)
  {
    ghost var dense := map_.Contents();
    events := [];
    for i := 0 to |original|
      invariant events == RemappedUpTo(dense, original, i)
    {
      var start := map_.CleanedOffset(original[i].scopeStart);
      var end := map_.CleanedOffset(original[i].byteOffset);
      PlaceUnique(dense, original[i].scopeStart, start);
      PlaceUnique(dense, original[i].byteOffset, end);
      if start < end {
        events := events + [StructuralEvent(start, end, original[i].depth)];
      }
    }
    forall x ensures x in events <==> IsImage(dense, original, |original|, x) {
      RemappedImages(dense, original, |original|, x);
    }
    SortEventsSorts(events);
    DistinctAscends(SortEvents(events));
    events := Distinct(SortEvents(events));
  }

  // ----- Functions

  function FunctionsUpTo(dense: seq<nat>, functions: seq<FunctionSpan>, n: nat): seq<FunctionSpan>
    requires n <= |functions|
  {
    if n == 0 then []
    else
      var f := ImageOf(dense, functions[n - 1]);
      FunctionsUpTo(dense, functions, n - 1) + if f.start < f.end then [f] else []
  }

  lemma {:induction false} FunctionsInside(
    source: seq<byte>, removals: seq<Range>, functions: seq<FunctionSpan>, n: nat)
    requires n <= |functions| && forall i :: 0 <= i < |functions| ==> functions[i].end <= |source|
    ensures FunctionsOk(FunctionsUpTo(DenseOf(source, removals), functions, n), |Cleaned(source, removals)|)
  {
    if n > 0 {
      FunctionsInside(source, removals, functions, n - 1);
      PlaceInside(source, removals, functions[n - 1].end);
    }
  }

  /** Something of the original stretch is left. */
  predicate HasCode(dense: seq<nat>, f: FunctionSpan) {
    exists k :: 0 <= k < |dense| && f.start <= dense[k] < f.end
  }

  /** The same function: its name, and exactly the boundaries that come from the original stretch. */
  predicate SameFunction(dense: seq<nat>, original: FunctionSpan, f: FunctionSpan) {
    && f.name == original.name && f.start < f.end
    && forall k :: 0 <= k < |dense| ==> (f.start <= k < f.end <==> original.start <= dense[k] < original.end)
  }

  lemma PlaceHasCode(dense: seq<nat>, f: FunctionSpan)
    requires Ascending(dense)
    ensures Place(dense, f.start) < Place(dense, f.end) <==> HasCode(dense, f)
  {
    forall k | 0 <= k < |dense|
      ensures Place(dense, f.start) <= k < Place(dense, f.end) <==> f.start <= dense[k] < f.end
    {
      PlaceKeepsBytes(dense, f.start, f.end, k);
    }
    if Place(dense, f.start) < Place(dense, f.end) {
      assert f.start <= dense[Place(dense, f.start)] < f.end;
    }
  }

  lemma ImageIsSame(dense: seq<nat>, f: FunctionSpan)
    requires Ascending(dense) && HasCode(dense, f)
    ensures SameFunction(dense, f, ImageOf(dense, f))
  {
    PlaceHasCode(dense, f);
    forall k | 0 <= k < |dense|
      ensures Place(dense, f.start) <= k < Place(dense, f.end) <==> f.start <= dense[k] < f.end
    {
      PlaceKeepsBytes(dense, f.start, f.end, k);
    }
  }

  /** The listed functions are the images of those named by their indices, which are the ones with code left. */
  ghost predicate Listing(
    dense: seq<nat>, functions: seq<FunctionSpan>, n: nat, listed: seq<FunctionSpan>, from: seq<nat>)
    requires n <= |functions|
  {
    && |from| == |listed|
    && (forall j, k :: 0 <= j < k < |from| ==> from[j] < from[k])
    && (forall j :: 0 <= j < |from| ==> from[j] < n && SameFunction(dense, functions[from[j]], listed[j]))
    && (forall i :: 0 <= i < n ==> (i in from <==> HasCode(dense, functions[i])))
  }

  lemma ListOne(
    dense: seq<nat>, functions: seq<FunctionSpan>, n: nat, listed: seq<FunctionSpan>, from: seq<nat>, f: FunctionSpan,
    next: seq<FunctionSpan>)
    requires 0 < n <= |functions| && Listing(dense, functions, n - 1, listed, from) && next == listed + [f]
    requires HasCode(dense, functions[n - 1]) && SameFunction(dense, functions[n - 1], f)
    ensures Listing(dense, functions, n, next, from + [n - 1])
  {
    var more := from + [n - 1];
    forall i | 0 <= i < n ensures i in more <==> HasCode(dense, functions[i]) {
      assert i in more <==> i in from || i == n - 1;
    }
  }

  lemma ListNone(
    dense: seq<nat>, functions: seq<FunctionSpan>, n: nat, listed: seq<FunctionSpan>, from: seq<nat>,
    next: seq<FunctionSpan>)
    requires 0 < n <= |functions| && Listing(dense, functions, n - 1, listed, from) && next == listed
    requires !HasCode(dense, functions[n - 1])
    ensures Listing(dense, functions, n, next, from)
  {
  }

  lemma ListNext(dense: seq<nat>, functions: seq<FunctionSpan>, n: nat, from: seq<nat>) returns (more: seq<nat>)
    requires Ascending(dense) && 0 < n <= |functions|
    requires Listing(dense, functions, n - 1, FunctionsUpTo(dense, functions, n - 1), from)
    ensures Listing(dense, functions, n, FunctionsUpTo(dense, functions, n), more)
  {
    var f, before, next := functions[n - 1], FunctionsUpTo(dense, functions, n - 1), FunctionsUpTo(dense, functions, n);
    NextFunction(dense, functions, n);
    if HasCode(dense, f) {
      ImageIsSame(dense, f);
      ListOne(dense, functions, n, before, from, ImageOf(dense, f), next);
      more := from + [n - 1];
    } else {
      ListNone(dense, functions, n, before, from, next);
      more := from;
    }
  }

  /** Each function with code left is listed once, in its place and under its name, and no other is. */
  lemma {:induction false} FunctionsListed(dense: seq<nat>, functions: seq<FunctionSpan>, n: nat) returns (from: seq<nat>)
    requires Ascending(dense) && n <= |functions|
    ensures Listing(dense, functions, n, FunctionsUpTo(dense, functions, n), from)
  {
    if n == 0 {
      from := [];
    } else {
      var front := FunctionsListed(dense, functions, n - 1);
      from := ListNext(dense, functions, n, front);
    }
  }

  function ImageOf(dense: seq<nat>, f: FunctionSpan): FunctionSpan {
    FunctionSpan(f.name, Place(dense, f.start), Place(dense, f.end))
  }

  lemma NextFunction(dense: seq<nat>, functions: seq<FunctionSpan>, n: nat)
    requires Ascending(dense) && 0 < n <= |functions|
    ensures var before, f := FunctionsUpTo(dense, functions, n - 1), functions[n - 1];
            FunctionsUpTo(dense, functions, n) == if HasCode(dense, f) then before + [ImageOf(dense, f)] else before
  {
    PlaceHasCode(dense, functions[n - 1]);
  }

  method RemapFunctions(map_: M.OffsetMap, original: seq<FunctionSpan>) returns (functions: seq<FunctionSpan>)
    requires map_.Valid()
    ensures functions == FunctionsUpTo(map_.Contents(), original, |original|)
  {
    ghost var dense := map_.Contents();
    functions := [];
    for i := 0 to |original|
      invariant functions == FunctionsUpTo(dense, original, i)
    {
      var start := map_.CleanedOffset(original[i].start);
      var end := map_.CleanedOffset(original[i].end);
      PlaceUnique(dense, original[i].start, start);
      PlaceUnique(dense, original[i].end, end);
      if start < end {
        functions := functions + [FunctionSpan(original[i].name, start, end)];
      }
    }
  }

  // ----- Lines

  /** Zero, and what follows each of the newlines among the first n bytes. */
  function LineStarts(source: seq<byte>, n: nat): seq<nat>
    requires n <= |source|
  {
    if n == 0 then [0] else LineStarts(source, n - 1) + if source[n - 1] == NEWLINE then [n] else []
  }

  method CollectLineStarts(source: seq<byte>) returns (starts: seq<nat>)
    ensures starts == LineStarts(source, |source|)
  {
    starts := [0];
    for i := 0 to |source|
      invariant starts == LineStarts(source, i)
    {
      if source[i] == NEWLINE {
        starts := starts + [i + 1];
      }
    }
  }

  lemma {:induction false} LineStartsOk(source: seq<byte>, n: nat)
    requires n <= |source|
    ensures LineStarts(source, n) != [] && LinesOk(LineStarts(source, n))
    ensures forall i :: 0 <= i < |LineStarts(source, n)| ==> LineStarts(source, n)[i] <= n
    ensures |LineStarts(source, n)| == CountNewlines(source, n) + 1
  {
    if n > 0 {
      LineStartsOk(source, n - 1);
    }
  }

  lemma {:induction false} LineStartsGrow(source: seq<byte>, k: nat, n: nat)
    requires k <= n <= |source|
    ensures LineStarts(source, k) <= LineStarts(source, n)
    ensures forall i :: |LineStarts(source, k)| <= i < |LineStarts(source, n)| ==> k < LineStarts(source, n)[i]
    decreases n
  {
    if k < n {
      LineStartsGrow(source, k, n - 1);
    }
  }

  /** upper_bound: how many lines start at the byte or before. */
  function LineAt(lineStarts: seq<nat>, byte: nat, from: nat := 0): (r: nat)
    requires from <= |lineStarts|
    ensures from <= r <= |lineStarts|
    ensures forall j :: from <= j < r ==> lineStarts[j] <= byte
    ensures r < |lineStarts| ==> byte < lineStarts[r]
    decreases |lineStarts| - from
  {
    if from == |lineStarts| || byte < lineStarts[from] then from else LineAt(lineStarts, byte, from + 1)
  }

  /** The line looked up for a byte is one more than the newlines before it. */
  lemma LineNumber(source: seq<byte>, byte: nat)
    requires byte <= |source|
    ensures LineAt(LineStarts(source, |source|), byte) == CountNewlines(source, byte) + 1
  {
    var starts, r := LineStarts(source, |source|), LineAt(LineStarts(source, |source|), byte);
    LineStartsOk(source, byte);
    LineStartsGrow(source, byte, |source|);
    var n := |LineStarts(source, byte)|;
    var m := if r < n then r else n;
    assert m < |starts| ==> (starts[m] <= byte <==> m < r) && (starts[m] <= byte <==> m < n);
  }

  /** So it is also the line the byte has in the original source. */
  lemma OriginalLine(source: seq<byte>, removals: seq<Range>, k: nat)
    requires k < |Cleaned(source, removals)|
    ensures var text := Cleaned(source, removals);
            && text[k].at <= |source|
            && LineAt(LineStarts(Bytes(text), |text|), k) == CountNewlines(source, text[k].at) + 1
  {
    CleanedFaithful(source, removals);
    LineNumber(Bytes(Cleaned(source, removals)), k);
  }

  // ----- Meaningful ranges

  /** Text of one line, without the space around it. */
  predicate Trimmed(text: seq<byte>, r: SourceRange) {
    && r.start < r.end <= |text|
    && !IsSpace(text[r.start]) && !IsSpace(text[r.end - 1])
    && forall k :: r.start <= k < r.end ==> text[k] != NEWLINE
  }

  predicate NewlineBetween(text: seq<byte>, a: nat, b: nat)
    requires b <= |text|
  {
    exists k :: a <= k < b && text[k] == NEWLINE
  }

  /** Trimmed ranges in order, no two of them on one line. */
  ghost predicate OnePerLine(text: seq<byte>, ranges: seq<SourceRange>) {
    && (forall i :: 0 <= i < |ranges| ==> Trimmed(text, ranges[i]))
    && (forall i, j :: 0 <= i < j < |ranges| ==> Apart(text, ranges[i], ranges[j]))
  }

  predicate Apart(text: seq<byte>, a: SourceRange, b: SourceRange) {
    a.end <= b.start <= |text| && NewlineBetween(text, a.end, b.start)
  }

  predicate AllCovered(text: seq<byte>, ranges: seq<SourceRange>, cursor: nat)
    requires cursor <= |text|
  {
    forall k :: 0 <= k < cursor && !IsSpace(text[k]) ==> Covers(ranges, k)
  }

  /** One trimmed range for each line that has any text, as far as the line that starts at the cursor. */
  ghost predicate MeaningfulUpTo(text: seq<byte>, ranges: seq<SourceRange>, cursor: nat) {
    && cursor <= |text|
    && OnePerLine(text, ranges)
    && (ranges != [] ==> ranges[|ranges| - 1].end <= cursor)
    && AllCovered(text, ranges, cursor)
  }

  ghost predicate Meaningful(text: seq<byte>, ranges: seq<SourceRange>) {
    MeaningfulUpTo(text, ranges, |text|)
  }

  lemma MeaningfulOk(text: seq<byte>, ranges: seq<SourceRange>)
    requires Meaningful(text, ranges)
    ensures RangesOk(ranges, |text|)
  {
    forall i | 0 <= i < |ranges| ensures ranges[i].start < ranges[i].end <= |text| {
      assert Trimmed(text, ranges[i]);
    }
    forall i | 0 < i < |ranges| ensures ranges[i - 1].end <= ranges[i].start {
      assert Apart(text, ranges[i - 1], ranges[i]);
    }
  }

  /** The next newline, or the end of the text. */
  method FindNewline(text: seq<byte>, from: nat) returns (at: nat)
    requires from <= |text|
    ensures from <= at <= |text| && (at < |text| ==> text[at] == NEWLINE)
    ensures forall k :: from <= k < at ==> text[k] != NEWLINE
  {
    at := from;
    while at < |text| && text[at] != NEWLINE
      invariant from <= at <= |text|
      invariant forall k :: from <= k < at ==> text[k] != NEWLINE
    {
      at := at + 1;
    }
  }

  method Trim(text: seq<byte>, start: nat, lineEnd: nat) returns (first: nat, end: nat)
    requires start <= lineEnd <= |text|
    ensures start <= first <= end <= lineEnd
    ensures forall k :: start <= k < first || end <= k < lineEnd ==> IsSpace(text[k])
    ensures first < end ==> !IsSpace(text[first]) && !IsSpace(text[end - 1])
  {
    first := start;
    while first < lineEnd && IsSpace(text[first])
      invariant start <= first <= lineEnd
      invariant forall k :: start <= k < first ==> IsSpace(text[k])
    {
      first := first + 1;
    }
    end := lineEnd;
    while end > first && IsSpace(text[end - 1])
      invariant first <= end <= lineEnd
      invariant forall k :: end <= k < lineEnd ==> IsSpace(text[k])
    {
      end := end - 1;
    }
  }

  /** The line from the start up to its end, whose text is the range from first to end, if any. */
  ghost predicate LineText(text: seq<byte>, start: nat, lineEnd: nat, first: nat, end: nat) {
    && start <= first <= end <= lineEnd <= |text|
    && (start > 0 ==> text[start - 1] == NEWLINE)
    && (forall k :: start <= k < lineEnd ==> text[k] != NEWLINE)
    && (forall k :: start <= k < first || end <= k < lineEnd ==> IsSpace(text[k]))
    && (first < end ==> !IsSpace(text[first]) && !IsSpace(text[end - 1]))
  }

  lemma AddRange(text: seq<byte>, ranges: seq<SourceRange>, start: nat, lineEnd: nat, first: nat, end: nat)
    requires OnePerLine(text, ranges) && (ranges != [] ==> ranges[|ranges| - 1].end <= start)
    requires LineText(text, start, lineEnd, first, end) && first < end
    ensures OnePerLine(text, ranges + [SourceRange(first, end)])
  {
    var r := SourceRange(first, end);
    assert Trimmed(text, r);
    forall i | 0 <= i < |ranges| ensures Apart(text, ranges[i], r) {
      var last := ranges[|ranges| - 1];
      assert Trimmed(text, last);
      assert i < |ranges| - 1 ==> Apart(text, ranges[i], last);
      assert ranges[i].end <= start - 1 < first && text[start - 1] == NEWLINE;
    }
  }

  lemma CoverLine(
    text: seq<byte>, ranges: seq<SourceRange>, start: nat, lineEnd: nat, first: nat, end: nat, next: seq<SourceRange>)
    requires LineText(text, start, lineEnd, first, end) && AllCovered(text, ranges, start)
    requires next == if first < end then ranges + [SourceRange(first, end)] else ranges
    ensures AllCovered(text, next, lineEnd)
  {
    forall k | 0 <= k < lineEnd && !IsSpace(text[k]) ensures Covers(next, k) {
      if k < start {
        assert Covers(ranges, k);
        var i :| 0 <= i < |ranges| && ranges[i].start <= k < ranges[i].end;
        assert next[i] == ranges[i];
      } else {
        assert next[|ranges|] == SourceRange(first, end);
      }
    }
  }

  /** A line without text adds no range. */
  lemma BlankLineDone(text: seq<byte>, ranges: seq<SourceRange>, start: nat, lineEnd: nat, first: nat)
    requires MeaningfulUpTo(text, ranges, start) && LineText(text, start, lineEnd, first, first)
    ensures MeaningfulUpTo(text, ranges, lineEnd)
  {
    CoverLine(text, ranges, start, lineEnd, first, first, ranges);
  }

  /** A line with text adds one. */
  lemma TextLineDone(text: seq<byte>, ranges: seq<SourceRange>, start: nat, lineEnd: nat, first: nat, end: nat)
    requires MeaningfulUpTo(text, ranges, start) && LineText(text, start, lineEnd, first, end) && first < end
    ensures MeaningfulUpTo(text, ranges + [SourceRange(first, end)], lineEnd)
  {
    var next := ranges + [SourceRange(first, end)];
    assert AllCovered(text, next, lineEnd) by {
      CoverLine(text, ranges, start, lineEnd, first, end, next);
    }
    assert OnePerLine(text, next) by {
      AddRange(text, ranges, start, lineEnd, first, end);
    }
  }

  lemma PastNewline(text: seq<byte>, ranges: seq<SourceRange>, at: nat)
    requires MeaningfulUpTo(text, ranges, at) && at < |text| && text[at] == NEWLINE
    ensures MeaningfulUpTo(text, ranges, at + 1)
  {
    assert IsSpace(text[at]);
  }

  /** The line at the start: its range, if it has text, and where it ends. */
  method OneLine(text: seq<byte>, ranges: seq<SourceRange>, start: nat)
    returns (next: seq<SourceRange>, lineEnd: nat)
    requires MeaningfulUpTo(text, ranges, start) && (start > 0 ==> text[start - 1] == NEWLINE)
    ensures start <= lineEnd <= |text| && (lineEnd < |text| ==> text[lineEnd] == NEWLINE)
    ensures MeaningfulUpTo(text, next, lineEnd)
  {
    lineEnd := FindNewline(text, start);
    var first, end := Trim(text, start, lineEnd);
    next := ranges;
    if first < end {
      next := next + [SourceRange(first, end)];
      TextLineDone(text, ranges, start, lineEnd, first, end);
    } else {
      BlankLineDone(text, ranges, start, lineEnd, first);
    }
  }

  method MeaningfulRanges(text: seq<byte>) returns (ranges: seq<SourceRange>)
    ensures Meaningful(text, ranges)
  {
    ranges := [];
    var start: nat := 0;
    while start < |text|
      invariant MeaningfulUpTo(text, ranges, start)
      invariant start > 0 ==> text[start - 1] == NEWLINE
      decreases |text| - start
    {
      var lineEnd;
      ranges, lineEnd := OneLine(text, ranges, start);
      if lineEnd == |text| {
        break;
      }
      PastNewline(text, ranges, lineEnd);
      start := lineEnd + 1;
    }
  }

  // ----- The prepared source

  predicate FunctionsOk(functions: seq<FunctionSpan>, size: nat) {
    forall i :: 0 <= i < |functions| ==> functions[i].start < functions[i].end <= size
  }

  /** What the analysis of a prepared source relies on. */
  ghost predicate PreparedOk(p: Prepared) {
    && p.lineStarts == LineStarts(p.cleaned, |p.cleaned|) && LinesOk(p.lineStarts)
    && EventsOk(p.events, |p.cleaned|) && StrictlyAscend(p.events)
    && FunctionsOk(p.functions, |p.cleaned|)
    && Meaningful(p.cleaned, p.meaningful) && RangesOk(p.meaningful, |p.cleaned|)
  }

  /** The nodes of a syntax tree lie inside the source. */
  predicate InSource(source: seq<byte>, events: seq<StructuralEvent>, functions: seq<FunctionSpan>) {
    && (forall i :: 0 <= i < |events| ==> events[i].byteOffset <= |source|)
    && (forall i :: 0 <= i < |functions| ==> functions[i].end <= |source|)
  }

  ghost predicate IsPrepared(
    source: seq<byte>, removals: seq<Range>, events: seq<StructuralEvent>, functions: seq<FunctionSpan>, p: Prepared)
  {
    var dense := DenseOf(source, removals);
    && p.cleaned == Bytes(Cleaned(source, removals))
    && p.lineStarts == LineStarts(p.cleaned, |p.cleaned|)
    && EventsPrepared(dense, events, p.events)
    && p.functions == FunctionsUpTo(dense, functions, |functions|)
    && Meaningful(p.cleaned, p.meaningful)
  }

  lemma DenseAscends(source: seq<byte>, removals: seq<Range>)
    ensures Ascending(DenseOf(source, removals))
  {
    var text := Cleaned(source, removals);
    CleanedFaithful(source, removals);
    forall j | 0 <= j < |text| ensures text[j].at <= |source| {
      assert FromSource(source, RemovedRanges(source, removals), text[j]);
    }
  }

  /** The prepared functions are exactly the original ones with code left, in order and under their names. */
  lemma PreparedFunctions(
    source: seq<byte>, removals: seq<Range>, events: seq<StructuralEvent>, functions: seq<FunctionSpan>, p: Prepared)
    returns (from: seq<nat>)
    requires IsPrepared(source, removals, events, functions, p)
    ensures Listing(DenseOf(source, removals), functions, |functions|, p.functions, from)
  {
    DenseAscends(source, removals);
    from := FunctionsListed(DenseOf(source, removals), functions, |functions|);
  }

  /** Whatever was removed, the prepared source is fit for analysis. */
  lemma PreparedFit(
    source: seq<byte>, removals: seq<Range>, events: seq<StructuralEvent>, functions: seq<FunctionSpan>, p: Prepared)
    requires InSource(source, events, functions) && IsPrepared(source, removals, events, functions, p)
    ensures PreparedOk(p)
  {
    var dense := DenseOf(source, removals);
    LineStartsOk(p.cleaned, |p.cleaned|);
    FunctionsInside(source, removals, functions, |functions|);
    MeaningfulOk(p.cleaned, p.meaningful);
    forall k | 0 <= k < |p.events| ensures EventOk(p.events[k], |p.cleaned|) {
      assert p.events[k] in p.events;
      assert IsImage(dense, events, |events|, p.events[k]);
      var i :| 0 <= i < |events| && Remapped(dense, events[i]) == p.events[k];
      PlaceInside(source, removals, events[i].byteOffset);
    }
  }

  /** PrepareSource, from the ranges, events and functions its syntax tree gave; None instead of an error. */
  method PrepareSource(
    source: seq<byte>, removals: seq<Range>, originalEvents: seq<StructuralEvent>,
    originalFunctions: seq<FunctionSpan>)
    returns (prepared: Option<Prepared>, map_: M.OffsetMap)
    requires InSource(source, originalEvents, originalFunctions)
    ensures fresh(map_) && map_.Valid()
    ensures prepared.Some? ==>
              && IsPrepared(source, removals, originalEvents, originalFunctions, prepared.value)
              && PreparedOk(prepared.value)
              && map_.Contents() == DenseOf(source, removals)
    ensures |source| <= MAX_SOURCE ==> prepared.Some?
  {
    var cleaned, ok;
    cleaned, map_, ok := RemoveRanges(source, removals);
    if !ok {
      return None, map_;
    }
    var lineStarts := CollectLineStarts(cleaned);
    var events := RemapEvents(map_, originalEvents);
    var functions := RemapFunctions(map_, originalFunctions);
    var meaningful := MeaningfulRanges(cleaned);
    var p := Prepared(cleaned, lineStarts, events, functions, meaningful);
    PreparedFit(source, removals, originalEvents, originalFunctions, p);
    return Some(p), map_;
  }
}
