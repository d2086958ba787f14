/** The inputs of the analysis, their validity, and lookups among tokens: src/core.cc:36-113. */
module Tokens {
  import opened Wrappers

  datatype Token = Token(start: nat, end: nat, entropy: Option<real>)

  datatype StructuralEvent = StructuralEvent(scopeStart: nat, byteOffset: nat, depth: nat)

  datatype SourceRange = SourceRange(start: nat, end: nat)

  // ----- What ValidateInputs demands

  predicate TokensOk(tokens: seq<Token>) {
    && (forall i :: 0 <= i < |tokens| ==> tokens[i].start < tokens[i].end)
    && (forall i, j :: 0 <= i < j < |tokens| ==> tokens[i].end <= tokens[j].start)
  }

  function SourceEnd(tokens: seq<Token>): nat {
    if tokens == [] then 0 else tokens[|tokens| - 1].end
  }

  predicate EventOk(e: StructuralEvent, end: nat) {
    e.scopeStart < e.byteOffset <= end
  }

  predicate EventsOk(events: seq<StructuralEvent>, end: nat) {
    forall i :: 0 <= i < |events| ==> EventOk(events[i], end)
  }

  predicate LinesOk(lineStarts: seq<nat>) {
    lineStarts != [] ==> lineStarts[0] == 0 && forall i, j :: 0 <= i < j < |lineStarts| ==> lineStarts[i] < lineStarts[j]
  }

  predicate RangesOk(ranges: seq<SourceRange>, end: nat) {
    && (forall i :: 0 <= i < |ranges| ==> ranges[i].start < ranges[i].end <= end)
    && (forall i, j :: 0 <= i < j < |ranges| ==> ranges[i].end <= ranges[j].start)
  }

  /** The byte lies in one of the ranges. */
  predicate Covers(ranges: seq<SourceRange>, byte: nat) {
    exists i :: 0 <= i < |ranges| && ranges[i].start <= byte < ranges[i].end
  }

  predicate InputsOk(
    tokens: seq<Token>, events: seq<StructuralEvent>, lineStarts: seq<nat>, ranges: seq<SourceRange>) {
    && TokensOk(tokens)
    && EventsOk(events, SourceEnd(tokens))
    && LinesOk(lineStarts)
    && RangesOk(ranges, SourceEnd(tokens))
  }

  /** ValidateInputs: false instead of the error. */
  method ValidateInputs(
    tokens: seq<Token>, events: seq<StructuralEvent>, lineStarts: seq<nat>, ranges: seq<SourceRange>)
    returns (valid: bool)
    ensures valid <==> InputsOk(tokens, events, lineStarts, ranges)
  {
    var previousEnd := 0;
    for i := 0 to |tokens|
      invariant TokensOk(tokens[..i])
      invariant i > 0 ==> previousEnd == tokens[i - 1].end
    {
      var token := tokens[i];
      if token.start >= token.end || (i > 0 && token.start < previousEnd) {
        return false;
      }
      previousEnd := token.end;
    }
    assert tokens[..|tokens|] == tokens;
    var sourceEnd := if tokens == [] then 0 else tokens[|tokens| - 1].end;
    for i := 0 to |events|
      invariant forall j :: 0 <= j < i ==> EventOk(events[j], sourceEnd)
    {
      if events[i].scopeStart >= events[i].byteOffset || events[i].byteOffset > sourceEnd {
        return false;
      }
    }
    if lineStarts != [] {
      if lineStarts[0] != 0 {
        return false;
      }
      for i := 1 to |lineStarts|
        invariant forall j, k :: 0 <= j < k < i ==> lineStarts[j] < lineStarts[k]
      {
        if lineStarts[i - 1] >= lineStarts[i] {
          return false;
        }
      }
    }
    valid := ValidateRanges(ranges, sourceEnd);
  }

  method ValidateRanges(ranges: seq<SourceRange>, sourceEnd: nat) returns (valid: bool)
    ensures valid <==> RangesOk(ranges, sourceEnd)
  {
    var previousRangeEnd := 0;
    for i := 0 to |ranges|
      invariant RangesOk(ranges[..i], sourceEnd)
      invariant previousRangeEnd == if i > 0 then ranges[i - 1].end else 0
    {
      var range := ranges[i];
      if range.start >= range.end || range.end > sourceEnd || range.start < previousRangeEnd {
        return false;
      }
      previousRangeEnd := range.end;
    }
    assert ranges[..|ranges|] == ranges;
    return true;
  }

  // ----- Lookups

  /** FirstOverlappingToken: the first token that ends after the byte. */
  function FirstOverlapping(tokens: seq<Token>, byte: nat, from: nat := 0): (i: nat)
    requires from <= |tokens|
    ensures from <= i <= |tokens|
    ensures forall j :: from <= j < i ==> tokens[j].end <= byte
    ensures i < |tokens| ==> byte < tokens[i].end
    decreases |tokens| - from
  {
    if from == |tokens| || byte < tokens[from].end then from else FirstOverlapping(tokens, byte, from + 1)
  }

  function FirstReaching(tokens: seq<Token>, byte: nat, from: nat := 0): (i: nat)
    requires from <= |tokens|
    ensures from <= i <= |tokens|
    ensures forall j :: from <= j < i ==> tokens[j].end < byte
    ensures i < |tokens| ==> byte <= tokens[i].end
    decreases |tokens| - from
  {
    if from == |tokens| || byte <= tokens[from].end then from else FirstReaching(tokens, byte, from + 1)
  }

  function TokenIndexAt(tokens: seq<Token>, byte: nat): (i: nat)
    ensures i <= |tokens|
  {
    var index := FirstReaching(tokens, byte);
    if index < |tokens| && tokens[index].start < byte then index + 1 else index
  }

  /** The index of a byte is the first token that starts at it or later. */
  lemma TokenIndexMeaning(tokens: seq<Token>, byte: nat)
    requires TokensOk(tokens)
    ensures forall j :: 0 <= j < TokenIndexAt(tokens, byte) ==> tokens[j].start < byte
    ensures forall j :: TokenIndexAt(tokens, byte) <= j < |tokens| ==> byte <= tokens[j].start
  {
    var index := FirstReaching(tokens, byte);
  }

  /** From the first overlapping token on, all tokens end after the byte. */
  lemma FirstOverlappingMeaning(tokens: seq<Token>, byte: nat)
    requires TokensOk(tokens)
    ensures forall j :: FirstOverlapping(tokens, byte) <= j < |tokens| ==> byte < tokens[j].end
  {
    var index := FirstOverlapping(tokens, byte);
  }
}
