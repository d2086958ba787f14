/**
 The run-length compressed map from boundaries of the cleaned source to boundaries of the original
 (src/offset_map.h), against the dense list it stands for.
 */
module OffsetMap {
  import opened Wrappers
  import opened Sequences
  import opened Arithmetic

  const U32_MAX: nat := 0xFFFF_FFFF

  type pos = n: nat | n > 0 witness 1

  /** A run of boundaries, never empty: original offsets from originalStart in steps of stride. */
  datatype Span = Span(cleanedStart: nat, originalStart: nat, length: pos, stride: nat)

  function At(span: Span, k: nat): nat {
    span.originalStart + k * span.stride
  }

  function Last(span: Span): nat {
    span.originalStart + (span.length - 1) * span.stride
  }

  function Expand(span: Span): seq<nat> {
    seq(span.length, k requires 0 <= k => At(span, k))
  }

  /** The dense list: one original offset for each cleaned boundary. */
  function Dense(spans: seq<Span>): seq<nat> {
    if spans == [] then [] else Dense(spans[..|spans| - 1]) + Expand(spans[|spans| - 1])
  }

  /** Every stored field fits 32 bits, and so does every offset the span stands for. */
  predicate Fits(span: Span) {
    && span.length <= U32_MAX && span.stride <= U32_MAX
    && span.cleanedStart <= U32_MAX && Last(span) <= U32_MAX
  }

  predicate SpanOk(spans: seq<Span>, i: nat)
    requires i < |spans|
  {
    && Fits(spans[i])
    && (i == 0 ==> spans[i].cleanedStart == 0)
    && (i > 0 ==> spans[i].cleanedStart == spans[i - 1].cleanedStart + spans[i - 1].length
                  && Last(spans[i - 1]) <= spans[i].originalStart)
  }

  predicate SpansOk(spans: seq<Span>) {
    forall i :: 0 <= i < |spans| ==> SpanOk(spans, i)
  }

  function End(spans: seq<Span>): nat {
    if spans == [] then 0 else spans[|spans| - 1].cleanedStart + spans[|spans| - 1].length
  }

  // ----- What the spans stand for

  lemma SpansOkPrefix(spans: seq<Span>, n: nat)
    requires SpansOk(spans) && n <= |spans|
    ensures SpansOk(spans[..n])
  {
    forall i | 0 <= i < n ensures SpanOk(spans[..n], i) {
      assert SpanOk(spans, i);
    }
  }

  lemma AtMonotone(span: Span, j: nat, k: nat)
    requires j <= k
    ensures At(span, j) <= At(span, k)
  {
    AtMostTimes(j, k, span.stride);
  }

  lemma AscendingBehind(front: seq<nat>, span: Span)
    requires Ascending(front) && (front != [] ==> front[|front| - 1] <= span.originalStart)
    ensures Ascending(front + Expand(span))
  {
    var all := front + Expand(span);
    forall i, j | 0 <= i < j < |all| ensures all[i] <= all[j] {
      if |front| <= j {
        AtMonotone(span, 0, j - |front|);
        if |front| <= i {
          AtMonotone(span, i - |front|, j - |front|);
        }
      }
    }
  }

  /** The dense list has one entry for each cleaned boundary, never decreases, and ends at the last span's last offset. */
  lemma {:induction false} DenseShape(spans: seq<Span>)
    requires SpansOk(spans)
    ensures |Dense(spans)| == End(spans) && Ascending(Dense(spans))
    ensures spans != [] ==> Dense(spans) != [] && Dense(spans)[|Dense(spans)| - 1] == Last(spans[|spans| - 1])
    decreases |spans|
  {
    if spans != [] {
      var n := |spans| - 1;
      var front, span := Dense(spans[..n]), spans[n];
      SpansOkPrefix(spans, n);
      DenseShape(spans[..n]);
      assert SpanOk(spans, n);
      assert n > 0 ==> SpanOk(spans, n - 1);
      AscendingBehind(front, span);
    }
  }

  lemma DenseEnd(spans: seq<Span>)
    requires SpansOk(spans)
    ensures |Dense(spans)| == End(spans)
    ensures spans == [] <==> Dense(spans) == []
    ensures spans != [] ==> Dense(spans)[|Dense(spans)| - 1] == Last(spans[|spans| - 1])
    ensures spans != [] ==> SpanOk(spans, |spans| - 1)
  {
    DenseShape(spans);
  }

  /** Each boundary's offset is computed from the span that holds it. */
  lemma {:induction false} DenseAt(spans: seq<Span>, i: nat, k: nat)
    requires SpansOk(spans) && i < |spans| && k < spans[i].length
    ensures spans[i].cleanedStart + k < |Dense(spans)|
    ensures Dense(spans)[spans[i].cleanedStart + k] == At(spans[i], k)
    decreases |spans|
  {
    var n := |spans| - 1;
    SpansOkPrefix(spans, n);
    DenseShape(spans[..n]);
    assert SpanOk(spans, n);
    if i < n {
      DenseAt(spans[..n], i, k);
    }
  }

  // ----- Lookups

  /** The first boundary whose original offset reaches the given one: lower_bound on the dense list. */
  ghost predicate IsLowerBound(dense: seq<nat>, original: nat, r: nat) {
    && r <= |dense|
    && (forall j :: 0 <= j < r ==> dense[j] < original)
    && (forall j :: r <= j < |dense| ==> original <= dense[j])
  }

  /** Rounding a positive distance up to whole strides. */
  lemma RoundUp(d: nat, s: nat)
    requires d > 0 && s > 0
    ensures var q := (d + s - 1) / s; q > 0 && (q - 1) * s < d <= q * s
  {
    var q := (d + s - 1) / s;
    assert q * s + (d + s - 1) % s == d + s - 1;
    assert (q - 1) * s == q * s - s;
    assert q == 0 ==> q * s == 0;
  }

  lemma MulCancel(a: nat, b: nat, s: nat)
    requires a * s <= b * s && s > 0
    ensures a <= b
  {
    assert (b + 1) * s == b * s + s;
    if b < a {
      AtMostTimes(b + 1, a, s);
    }
  }

  /** The place inside a span that the division finds is where the span first reaches the offset. */
  lemma PlaceInSpan(span: Span, original: nat) returns (k: nat)
    requires Fits(span) && span.originalStart < original <= Last(span)
    ensures span.stride > 0
    ensures k == (original - span.originalStart + span.stride - 1) / span.stride
    ensures 0 < k < span.length && At(span, k - 1) < original <= At(span, k)
  {
    var d := original - span.originalStart;
    assert span.stride == 0 ==> (span.length - 1) * span.stride == 0;
    RoundUp(d, span.stride);
    k := (d + span.stride - 1) / span.stride;
    MulCancel(k, span.length, span.stride) by {
      assert (k - 1) * span.stride <= (span.length - 1) * span.stride;
      assert k * span.stride == (k - 1) * span.stride + span.stride;
      assert span.length * span.stride == (span.length - 1) * span.stride + span.stride;
    }
    assert k == span.length ==> (k - 1) * span.stride == (span.length - 1) * span.stride;
  }

  /** A span that begins at or after the offset, behind one that ends before it. */
  lemma LowerBoundAtStart(spans: seq<Span>, original: nat, i: nat)
    requires SpansOk(spans) && i < |spans| && original <= spans[i].originalStart
    requires i > 0 ==> Last(spans[i - 1]) < original
    ensures IsLowerBound(Dense(spans), original, spans[i].cleanedStart)
  {
    assert SpanOk(spans, i);
    DenseShape(spans);
    DenseAt(spans, i, 0);
    if i > 0 {
      DenseAt(spans, i - 1, spans[i - 1].length - 1);
    }
    AscendingBound(Dense(spans), original, spans[i].cleanedStart);
  }

  /** A place inside a span where the offset is first reached. */
  lemma LowerBoundInside(spans: seq<Span>, original: nat, i: nat, k: nat)
    requires SpansOk(spans) && i < |spans| && 0 < k < spans[i].length
    requires At(spans[i], k - 1) < original <= At(spans[i], k)
    ensures IsLowerBound(Dense(spans), original, spans[i].cleanedStart + k)
  {
    var dense, r := Dense(spans), spans[i].cleanedStart + k;
    assert r < |dense| && original <= dense[r] by {
      DenseAt(spans, i, k);
    }
    assert dense[r - 1] < original by {
      DenseAt(spans, i, k - 1);
    }
    assert Ascending(dense) by {
      DenseShape(spans);
    }
    AscendingBound(dense, original, r);
  }

  lemma AscendingBound(dense: seq<nat>, original: nat, r: nat)
    requires Ascending(dense) && r < |dense| && original <= dense[r]
    requires r > 0 ==> dense[r - 1] < original
    ensures IsLowerBound(dense, original, r)
  {
  }

  /** One more offset is accepted when it fits 32 bits and does not go back. */
  predicate CanAppend(dense: seq<nat>, original: nat) {
    && |dense| <= U32_MAX && original <= U32_MAX
    && (dense != [] ==> dense[|dense| - 1] <= original)
  }

  predicate CanAppendRun(dense: seq<nat>, original: nat, length: nat) {
    && |dense| + length <= U32_MAX && original + length <= U32_MAX + 1
    && (dense != [] ==> dense[|dense| - 1] <= original)
  }

  class OffsetMap {
    var spans: seq<Span>
    var size: nat

    ghost predicate Valid()
      reads this
    {
      SpansOk(spans) && size == End(spans)
    }

    ghost function Contents(): seq<nat>
      reads this
    {
      Dense(spans)
    }

    constructor ()
      ensures Valid() && Contents() == []
    {
      spans, size := [], 0;
    }

    /** OriginalOffset: None instead of the out-of-range error. */
    method OriginalOffset(cleaned: nat) returns (original: Option<nat>)
      requires Valid()
      ensures original == if cleaned < |Contents()| then Some(Contents()[cleaned]) else None
    {
      DenseShape(spans);
      var after := UpperBound(cleaned);
      assert spans != [] ==> SpanOk(spans, 0);
      if after == 0 {
        return None;
      }
      var span := spans[after - 1];
      var relative := cleaned - span.cleanedStart;
      if relative >= span.length {
        assert after < |spans| ==> SpanOk(spans, after);
        return None;
      }
      DenseAt(spans, after - 1, relative);
      return Some(span.originalStart + relative * span.stride);
    }

    /** upper_bound on the first boundary of each span. */
    method UpperBound(cleaned: nat) returns (n: nat)
      requires Valid()
      ensures n <= |spans|
      ensures n > 0 ==> spans[n - 1].cleanedStart <= cleaned
      ensures n < |spans| ==> cleaned < spans[n].cleanedStart
    {
      var low, high := 0, |spans|;
      while low < high
        invariant low <= high <= |spans|
        invariant low > 0 ==> spans[low - 1].cleanedStart <= cleaned
        invariant high < |spans| ==> cleaned < spans[high].cleanedStart
      {
        var mid := (low + high) / 2;
        if cleaned < spans[mid].cleanedStart {
          high := mid;
        } else {
          low := mid + 1;
        }
      }
      n := low;
    }

    /** lower_bound on the last offset of each span. */
    method LowerBound(original: nat) returns (n: nat)
      requires Valid()
      ensures n <= |spans|
      ensures n > 0 ==> SpanOk(spans, n - 1) && Last(spans[n - 1]) < original
      ensures n < |spans| ==> SpanOk(spans, n) && original <= Last(spans[n])
    {
      var low, high := 0, |spans|;
      while low < high
        invariant low <= high <= |spans|
        invariant low > 0 ==> SpanOk(spans, low - 1) && Last(spans[low - 1]) < original
        invariant high < |spans| ==> SpanOk(spans, high) && original <= Last(spans[high])
      {
        var mid := (low + high) / 2;
        assert SpanOk(spans, mid);
        if original <= Last(spans[mid]) {
          high := mid;
        } else {
          low := mid + 1;
        }
      }
      n := low;
    }

    /** CleanedOffset is lower_bound on the dense list. */
    method CleanedOffset(original: nat) returns (cleaned: nat)
      requires Valid()
      ensures IsLowerBound(Contents(), original, cleaned)
    {
      DenseShape(spans);
      var n := LowerBound(original);
      if n == |spans| {
        assert spans != [] ==> Contents()[|Contents()| - 1] < original;
        return size;
      }
      var span := spans[n];
      if original <= span.originalStart {
        LowerBoundAtStart(spans, original, n);
        return span.cleanedStart;
      }
      ghost var k := PlaceInSpan(span, original);
      LowerBoundInside(spans, original, n, k);
      if span.stride == 0 {
        return span.cleanedStart;
      }
      var distance := original - span.originalStart;
      return span.cleanedStart + (distance + span.stride - 1) / span.stride;
    }

    /** Adds a span behind the others. */
    method PushSpan(span: Span, ghost added: seq<nat>)
      requires Valid() && Fits(span) && span.cleanedStart == size
      requires spans != [] ==> Last(spans[|spans| - 1]) <= span.originalStart
      requires |added| == span.length && forall k :: 0 <= k < |added| ==> added[k] == At(span, k)
      modifies this
      ensures Valid() && Contents() == old(Contents()) + added
    {
      AddSpan(spans, span, added);
      spans := spans + [span];
      size := size + span.length;
    }

    /** Makes the last span longer, possibly with the stride its single element had left open. */
    method ReplaceLast(span: Span, ghost added: seq<nat>)
      requires Valid() && spans != [] && Grows(spans[|spans| - 1], span, added)
      modifies this
      ensures Valid() && Contents() == old(Contents()) + added
    {
      var n := |spans| - 1;
      GrowLast(spans, span, added);
      size := size + span.length - spans[n].length;
      spans := spans[n := span];
    }

    /** Append: false instead of an error, which leaves the map alone. */
    method Append(original: nat) returns (ok: bool)
      requires Valid()
      modifies this
      ensures Valid()
      ensures ok <==> CanAppend(old(Contents()), original)
      ensures Contents() == if ok then old(Contents()) + [original] else old(Contents())
    {
      DenseEnd(spans);
      if size > U32_MAX || original > U32_MAX {
        return false;
      }
      if spans != [] {
        var n := |spans| - 1;
        var last := spans[n];
        var lastOriginal := Last(last);
        if original < lastOriginal {
          return false;
        }
        var stride := original - lastOriginal;
        if && last.cleanedStart + last.length == size
           && last.length < U32_MAX
           && ((last.length == 1 && stride <= U32_MAX) || stride == last.stride)
        {
          var longer := Span(last.cleanedStart, last.originalStart, last.length + 1, stride);
          GrowByOne(spans, original);
          ReplaceLast(longer, [original]);
          return true;
        }
      }
      PushSpan(Span(size, original, 1, 1), [original]);
      return true;
    }

    /** AppendRun: a whole run of consecutive offsets, or nothing. */
    method AppendRun(original: nat, length: nat) returns (ok: bool)
      requires Valid()
      modifies this
      ensures Valid()
      ensures ok <==> length == 0 || CanAppendRun(old(Contents()), original, length)
      ensures Contents() == if ok then old(Contents()) + Run(original, length) else old(Contents())
    {
      if length == 0 {
        assert Contents() + Run(original, length) == Contents();
        return true;
      }
      DenseEnd(spans);
      if || size > U32_MAX || original > U32_MAX || length > U32_MAX || size + length > U32_MAX
         || original + length > U32_MAX + 1
      {
        return false;
      }
      if spans != [] {
        var n := |spans| - 1;
        var last := spans[n];
        if && last.stride == 1
           && last.cleanedStart + last.length == size
           && last.originalStart + last.length == original
           && last.length + length <= U32_MAX
        {
          ReplaceLast(last.(length := last.length + length), Run(original, length));
          return true;
        }
        var previous := last.originalStart + (last.length - 1) * last.stride;
        if original < previous {
          return false;
        }
      }
      PushSpan(Span(size, original, length, 1), Run(original, length));
      return true;
    }
  }

  function Run(original: nat, length: nat): seq<nat> {
    seq(length, k requires 0 <= k => original + k)
  }

  /** A new span behind the others. */
  lemma AddSpan(spans: seq<Span>, span: Span, added: seq<nat>)
    requires SpansOk(spans) && Fits(span) && span.cleanedStart == End(spans)
    requires spans != [] ==> SpanOk(spans, |spans| - 1) && Last(spans[|spans| - 1]) <= span.originalStart
    requires |added| == span.length && forall k :: 0 <= k < |added| ==> added[k] == At(span, k)
    ensures SpansOk(spans + [span]) && End(spans + [span]) == End(spans) + span.length
    ensures Dense(spans + [span]) == Dense(spans) + added
  {
    var all := spans + [span];
    forall i | 0 <= i < |all| ensures SpanOk(all, i) {
      if i < |spans| {
        assert SpanOk(spans, i);
      }
    }
    assert all[..|spans|] == spans;
    assert Expand(span) == added;
  }

  /** The span continues the last one by the added offsets. */
  predicate Grows(last: Span, span: Span, added: seq<nat>) {
    && Fits(span)
    && span.cleanedStart == last.cleanedStart && span.originalStart == last.originalStart
    && span.length == last.length + |added|
    && (last.length == 1 || span.stride == last.stride)
    && forall k :: 0 <= k < |added| ==> added[k] == At(span, last.length + k)
  }

  lemma GrowLast(spans: seq<Span>, span: Span, added: seq<nat>)
    requires SpansOk(spans) && spans != [] && Grows(spans[|spans| - 1], span, added)
    ensures SpansOk(spans[|spans| - 1 := span]) && End(spans[|spans| - 1 := span]) == End(spans) + |added|
    ensures Dense(spans[|spans| - 1 := span]) == Dense(spans) + added
  {
    var n := |spans| - 1;
    var last, all := spans[n], spans[n := span];
    forall i | 0 <= i < |all| ensures SpanOk(all, i) {
      assert SpanOk(spans, i);
    }
    assert all[..n] == spans[..n];
    forall k | 0 <= k < |Expand(span)| ensures Expand(span)[k] == (Expand(last) + added)[k] {
      if k < last.length {
        assert last.length == 1 ==> k == 0;
        assert At(span, k) == At(last, k);
      }
    }
    assert Expand(span) == Expand(last) + added;
  }

  /** One more offset on the last span, whose single element may still take any stride. */
  lemma GrowByOne(spans: seq<Span>, original: nat)
    requires SpansOk(spans) && spans != []
    requires var last := spans[|spans| - 1];
             && Last(last) <= original <= U32_MAX && last.length < U32_MAX
             && (last.length == 1 || original - Last(last) == last.stride)
    ensures var last := spans[|spans| - 1];
            Grows(last, Span(last.cleanedStart, last.originalStart, last.length + 1, original - Last(last)), [original])
  {
    var last := spans[|spans| - 1];
    var stride := original - Last(last);
    assert last.length * stride == (last.length - 1) * stride + stride;
    assert SpanOk(spans, |spans| - 1);
  }
}
