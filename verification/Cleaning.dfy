/** Removing comments while keeping lines and offsets: src/lang.cc:905-966. */
module Cleaning {
  import opened Sequences
  import opened Utf8
  import opened Sorting
  import M = OffsetMap

  const NEWLINE: byte := '\n' as int
  /** The longest source the program reads. */
  const MAX_SOURCE: nat := 0x4000_0000

  datatype Range = Range(start: nat, end: nat)

  /** std::isspace in the C locale. */
  predicate IsSpace(b: byte) {
    b == SPACE || 9 <= b <= 13
  }

  // ----- The order of removal

  predicate Before(a: Range, b: Range) {
    a.start < b.start || (a.start == b.start && a.end <= b.end)
  }

  function SortRanges(ranges: seq<Range>): seq<Range> {
    Sort(ranges, Before)
  }

  predicate Sorted(ranges: seq<Range>) {
    forall i, j :: 0 <= i < j < |ranges| ==> Before(ranges[i], ranges[j])
  }

  lemma RangesSorted(ranges: seq<Range>)
    ensures Sorted(SortRanges(ranges)) && multiset(SortRanges(ranges)) == multiset(ranges)
  {
    SortSorts(ranges, Before);
  }

  predicate Acceptable(r: Range, cursor: nat, size: nat) {
    cursor <= r.start <= r.end <= size
  }

  /** The ranges that are removed: each one in order, unless it is out of bounds or overlaps one removed before. */
  function Accepted(ranges: seq<Range>, cursor: nat, size: nat): seq<Range> {
    if ranges == [] then []
    else if Acceptable(ranges[0], cursor, size) then [ranges[0]] + Accepted(ranges[1..], ranges[0].end, size)
    else Accepted(ranges[1..], cursor, size)
  }

  predicate Disjoint(a: Range, b: Range) {
    a.end <= b.start || b.end <= a.start
  }

  predicate AllDisjoint(ranges: seq<Range>) {
    forall i, j :: 0 <= i < j < |ranges| ==> Disjoint(ranges[i], ranges[j])
  }

  lemma {:induction false} SortedAllAccepted(ranges: seq<Range>, cursor: nat, size: nat)
    requires Sorted(ranges) && AllDisjoint(ranges)
    requires forall i :: 0 <= i < |ranges| ==> Acceptable(ranges[i], cursor, size)
    ensures Accepted(ranges, cursor, size) == ranges
  {
    if ranges != [] {
      forall i | 1 <= i < |ranges| ensures ranges[0].end <= ranges[i].start {
        assert Before(ranges[0], ranges[i]) && Disjoint(ranges[0], ranges[i]);
      }
      SortedAllAccepted(ranges[1..], ranges[0].end, size);
    }
  }

  /** Two places of one list: its elements there are two places of every permutation. */
  lemma TwoPlaces(a: seq<Range>, b: seq<Range>, i: nat, j: nat) returns (p: nat, q: nat)
    requires multiset(a) == multiset(b) && i < j < |b|
    ensures p < |a| && q < |a| && p != q && a[p] == b[i] && a[q] == b[j]
  {
    assert b[i] in multiset(a);
    p :| p < |a| && a[p] == b[i];
    SameWithout(a, p, b, i);
    var rest := Without(a, p);
    assert Without(b, i)[j - 1] == b[j];
    assert b[j] in multiset(rest);
    var r :| 0 <= r < |rest| && rest[r] == b[j];
    q := if r < p then r else r + 1;
  }

  lemma SortedDisjoint(ranges: seq<Range>)
    requires AllDisjoint(ranges)
    ensures AllDisjoint(SortRanges(ranges))
  {
    RangesSorted(ranges);
    var sorted := SortRanges(ranges);
    forall i, j | 0 <= i < j < |sorted| ensures Disjoint(sorted[i], sorted[j]) {
      var p, q := TwoPlaces(ranges, sorted, i, j);
    }
  }

  /** Ranges that are in bounds and do not overlap are all removed, in whatever order they are given. */
  lemma DisjointAllAccepted(source: seq<byte>, ranges: seq<Range>)
    requires AllDisjoint(ranges)
    requires forall i :: 0 <= i < |ranges| ==> ranges[i].start <= ranges[i].end <= |source|
    ensures RemovedRanges(source, ranges) == SortRanges(ranges)
  {
    RangesSorted(ranges);
    SortedDisjoint(ranges);
    var sorted := SortRanges(ranges);
    forall i | 0 <= i < |sorted| ensures Acceptable(sorted[i], 0, |source|) {
      assert sorted[i] in multiset(ranges);
    }
    SortedAllAccepted(sorted, 0, |source|);
  }

  // ----- The cleaned text, each byte with where it comes from

  /** A byte of the cleaned text and its original offset; added bytes stand for a removal. */
  datatype Mapped = Mapped(b: byte, at: nat, added: bool)

  function Bytes(text: seq<Mapped>): (bytes: seq<byte>)
    ensures |bytes| == |text|
  {
    seq(|text|, i requires 0 <= i < |text| => text[i].b)
  }

  function Offsets(text: seq<Mapped>): (offsets: seq<nat>)
    ensures |offsets| == |text|
  {
    seq(|text|, i requires 0 <= i < |text| => text[i].at)
  }

  /** The text followed by a run of the source. */
  function Copy(source: seq<byte>, text: seq<Mapped>, from: nat, stop: nat): seq<Mapped>
    requires from <= stop <= |source|
    decreases stop - from
  {
    if from == stop then text else Copy(source, text + [Mapped(source[from], from, false)], from + 1, stop)
  }

  /** The text after a byte of a removed range: longer if the byte is a newline. */
  function AfterRemoved(source: seq<byte>, text: seq<Mapped>, i: nat): seq<Mapped>
    requires i < |source|
  {
    if source[i] == NEWLINE then text + [Mapped(NEWLINE, i, false)] else text
  }

  /** The text followed by the newlines of a removed range, which stay. */
  function CopyNewlines(source: seq<byte>, text: seq<Mapped>, from: nat, stop: nat): seq<Mapped>
    requires from <= stop <= |source|
    decreases stop - from
  {
    if from == stop then text
    else CopyNewlines(source, AfterRemoved(source, text, from), from + 1, stop)
  }

  /** A removal that keeps no newline and would join two words leaves a space. */
  predicate NeedsSpace(source: seq<byte>, text: seq<Mapped>, end: nat)
    requires end <= |source|
  {
    text != [] && !IsSpace(text[|text| - 1].b) && end < |source| && !IsSpace(source[end])
  }

  /** The text after one more accepted range. */
  function RemoveOne(source: seq<byte>, text: seq<Mapped>, cursor: nat, r: Range): seq<Mapped>
    requires Acceptable(r, cursor, |source|)
  {
    var before := Copy(source, text, cursor, r.start);
    var after := CopyNewlines(source, before, r.start, r.end);
    if |after| == |before| && NeedsSpace(source, after, r.end) then after + [Mapped(SPACE, r.start, true)] else after
  }

  function RemoveAll(source: seq<byte>, text: seq<Mapped>, cursor: nat, ranges: seq<Range>): seq<Mapped>
    requires cursor <= |source|
    decreases |ranges|
  {
    if ranges == [] then Copy(source, text, cursor, |source|)
    else if Acceptable(ranges[0], cursor, |source|) then
      RemoveAll(source, RemoveOne(source, text, cursor, ranges[0]), ranges[0].end, ranges[1..])
    else RemoveAll(source, text, cursor, ranges[1..])
  }

  /** The cleaned text of a source. */
  function Cleaned(source: seq<byte>, ranges: seq<Range>): seq<Mapped> {
    RemoveAll(source, [], 0, SortRanges(ranges))
  }

  // ----- What cleaning keeps

  predicate Inside(r: Range, i: nat) {
    r.start <= i < r.end
  }

  predicate Removed(ranges: seq<Range>, i: nat) {
    exists k :: 0 <= k < |ranges| && Inside(ranges[k], i)
  }

  predicate Keeps(source: seq<byte>, removed: seq<Range>, i: nat)
    requires i < |source|
  {
    source[i] == NEWLINE || !Removed(removed, i)
  }

  /** The positions below n that stay, in order. */
  function Kept(source: seq<byte>, removed: seq<Range>, n: nat): seq<nat>
    requires n <= |source|
  {
    if n == 0 then []
    else
      var front := Kept(source, removed, n - 1);
      if Keeps(source, removed, n - 1) then front + [n - 1] else front
  }

  /** The original offsets of the bytes that were not added. */
  function Copied(text: seq<Mapped>): seq<nat> {
    if text == [] then []
    else
      var last := text[|text| - 1];
      if last.added then Copied(text[..|text| - 1]) else Copied(text[..|text| - 1]) + [last.at]
  }

  function CountNewlines(bytes: seq<byte>, n: nat): nat
    requires n <= |bytes|
  {
    if n == 0 then 0 else CountNewlines(bytes, n - 1) + if bytes[n - 1] == NEWLINE then 1 else 0
  }

  predicate FromSource(source: seq<byte>, removed: seq<Range>, m: Mapped) {
    && m.at <= |source|
    && (if m.added then m.b == SPACE && exists k :: 0 <= k < |removed| && removed[k].start == m.at
        else m.at < |source| && m.b == source[m.at])
  }

  /** Each byte of the text stands on the line its original offset is on. */
  predicate SameLines(source: seq<byte>, text: seq<Mapped>) {
    forall j {:trigger CountNewlines(Bytes(text), j)} :: 0 <= j < |text| ==>
      text[j].at <= |source| && CountNewlines(Bytes(text), j) == CountNewlines(source, text[j].at)
  }

  predicate OffsetsAscend(text: seq<Mapped>) {
    forall i, j :: 0 <= i < j < |text| ==> text[i].at <= text[j].at
  }

  function Added(text: seq<Mapped>): int {
    |text| - |Copied(text)|
  }

  /** The text so far accounts for exactly the source up to the cursor. */
  ghost predicate Faithful(source: seq<byte>, removed: seq<Range>, text: seq<Mapped>, cursor: nat) {
    && cursor <= |source|
    && Copied(text) == Kept(source, removed, cursor)
    && (forall j :: 0 <= j < |text| ==> FromSource(source, removed, text[j]) && text[j].at <= cursor)
    && OffsetsAscend(text)
    && SameLines(source, text) && CountNewlines(Bytes(text), |text|) == CountNewlines(source, cursor)
    && Added(text) + (if text != [] && !text[|text| - 1].added then 1 else 0) <= |Copied(text)|
  }

  lemma {:induction false} CountPrefix(a: seq<byte>, b: seq<byte>, n: nat)
    requires n <= |a| && n <= |b| && a[..n] == b[..n]
    ensures CountNewlines(a, n) == CountNewlines(b, n)
  {
    if n > 0 {
      assert a[..n][n - 1] == b[..n][n - 1];
      assert a[..n - 1] == a[..n][..n - 1] && b[..n - 1] == b[..n][..n - 1];
      CountPrefix(a, b, n - 1);
    }
  }

  /** A longer text has the same lines where it had them. */
  lemma SameLinesAppend(source: seq<byte>, text: seq<Mapped>, m: Mapped)
    requires SameLines(source, text) && m.at <= |source|
    requires CountNewlines(Bytes(text), |text|) == CountNewlines(source, m.at)
    ensures SameLines(source, text + [m])
    ensures CountNewlines(Bytes(text + [m]), |text| + 1) ==
            CountNewlines(source, m.at) + if m.b == NEWLINE then 1 else 0
  {
    var longer := text + [m];
    forall j | 0 <= j < |longer|
      ensures longer[j].at <= |source| && CountNewlines(Bytes(longer), j) == CountNewlines(source, longer[j].at)
    {
      CountAppend(text, m, j);
    }
    CountAppend(text, m, |text|);
  }

  lemma CountAppend(text: seq<Mapped>, m: Mapped, j: nat)
    requires j <= |text|
    ensures CountNewlines(Bytes(text + [m]), j) == CountNewlines(Bytes(text), j)
  {
    assert Bytes(text + [m])[..j] == Bytes(text)[..j];
    CountPrefix(Bytes(text + [m]), Bytes(text), j);
  }

  lemma CopiedAppend(text: seq<Mapped>, m: Mapped)
    ensures Copied(text + [m]) == if m.added then Copied(text) else Copied(text) + [m.at]
  {
    assert (text + [m])[..|text|] == text;
  }

  lemma KeepOne(source: seq<byte>, removed: seq<Range>, text: seq<Mapped>, i: nat)
    requires Faithful(source, removed, text, i) && i < |source| && Keeps(source, removed, i)
    ensures Faithful(source, removed, text + [Mapped(source[i], i, false)], i + 1)
  {
    var m := Mapped(source[i], i, false);
    CopiedAppend(text, m);
    SameLinesAppend(source, text, m);
  }

  lemma DropOne(source: seq<byte>, removed: seq<Range>, text: seq<Mapped>, i: nat)
    requires Faithful(source, removed, text, i) && i < |source| && !Keeps(source, removed, i)
    ensures Faithful(source, removed, text, i + 1)
  {
  }

  lemma {:induction false} CopyFaithful(
    source: seq<byte>, removed: seq<Range>, text: seq<Mapped>, from: nat, stop: nat)
    requires Faithful(source, removed, text, from) && from <= stop <= |source|
    requires forall i :: from <= i < stop ==> !Removed(removed, i)
    ensures Faithful(source, removed, Copy(source, text, from, stop), stop)
    decreases stop - from
  {
    if from < stop {
      KeepOne(source, removed, text, from);
      CopyFaithful(source, removed, text + [Mapped(source[from], from, false)], from + 1, stop);
    }
  }

  lemma {:induction false} CopyNewlinesFaithful(
    source: seq<byte>, removed: seq<Range>, text: seq<Mapped>, from: nat, stop: nat)
    requires Faithful(source, removed, text, from) && from <= stop <= |source|
    requires forall i :: from <= i < stop ==> Removed(removed, i)
    ensures var after := CopyNewlines(source, text, from, stop);
            && Faithful(source, removed, after, stop)
            && |after| >= |text|
            && (|after| == |text| ==> after == text && CountNewlines(source, from) == CountNewlines(source, stop))
    decreases stop - from
  {
    if from < stop {
      assert Removed(removed, from);
      if source[from] == NEWLINE {
        KeepOne(source, removed, text, from);
        CopyNewlinesFaithful(source, removed, text + [Mapped(NEWLINE, from, false)], from + 1, stop);
      } else {
        DropOne(source, removed, text, from);
        CopyNewlinesFaithful(source, removed, text, from + 1, stop);
      }
    }
  }

  lemma SpaceFaithful(source: seq<byte>, removed: seq<Range>, text: seq<Mapped>, r: Range, k: nat)
    requires r.start <= r.end <= |source| && k < |removed| && removed[k] == r
    requires Faithful(source, removed, text, r.end) && NeedsSpace(source, text, r.end)
    requires forall j :: 0 <= j < |text| ==> text[j].at <= r.start
    requires CountNewlines(source, r.start) == CountNewlines(source, r.end)
    ensures Faithful(source, removed, text + [Mapped(SPACE, r.start, true)], r.end)
  {
    var m := Mapped(SPACE, r.start, true);
    assert FromSource(source, removed, text[|text| - 1]);
    CopiedAppend(text, m);
    SameLinesAppend(source, text, m);
  }

  /** The ranges accepted from a cursor lie behind it, one after the other. */
  lemma {:induction false} AcceptedBehind(ranges: seq<Range>, cursor: nat, size: nat)
    ensures forall k :: 0 <= k < |Accepted(ranges, cursor, size)| ==>
              Acceptable(Accepted(ranges, cursor, size)[k], cursor, size)
  {
    if ranges != [] {
      if Acceptable(ranges[0], cursor, size) {
        AcceptedBehind(ranges[1..], ranges[0].end, size);
      } else {
        AcceptedBehind(ranges[1..], cursor, size);
      }
    }
  }

  /** Ranges removed earlier end before the cursor; the others are those still to be accepted. */
  ghost predicate Split(removed: seq<Range>, done: nat, rest: seq<Range>, cursor: nat, size: nat) {
    && done <= |removed| && removed[done..] == Accepted(rest, cursor, size)
    && forall k :: 0 <= k < done ==> removed[k].end <= cursor
  }

  lemma NotRemovedUpTo(removed: seq<Range>, done: nat, cursor: nat, stop: nat)
    requires done <= |removed|
    requires forall k :: 0 <= k < done ==> removed[k].end <= cursor
    requires forall k :: done <= k < |removed| ==> stop <= removed[k].start
    ensures forall i :: cursor <= i < stop ==> !Removed(removed, i)
  {
  }

  /** Accepting the next range. */
  lemma SplitStep(removed: seq<Range>, done: nat, rest: seq<Range>, cursor: nat, size: nat)
    requires rest != [] && Acceptable(rest[0], cursor, size) && Split(removed, done, rest, cursor, size)
    ensures done < |removed| && removed[done] == rest[0]
    ensures Split(removed, done + 1, rest[1..], rest[0].end, size)
    ensures forall k :: done <= k < |removed| ==> rest[0].start <= removed[k].start
  {
    var r := rest[0];
    assert removed[done..][0] == r;
    assert removed[done + 1..] == removed[done..][1..];
    AcceptedBehind(rest[1..], r.end, size);
    forall k | done < k < |removed| ensures r.start <= removed[k].start {
      var later := Accepted(rest[1..], r.end, size)[k - done - 1];
      assert removed[k] == removed[done + 1..][k - done - 1] == later;
      assert Acceptable(later, r.end, size);
    }
  }

  lemma RemoveOneFaithful(
    source: seq<byte>, removed: seq<Range>, text: seq<Mapped>, cursor: nat, done: nat, rest: seq<Range>)
    requires Faithful(source, removed, text, cursor)
    requires rest != [] && Acceptable(rest[0], cursor, |source|) && Split(removed, done, rest, cursor, |source|)
    ensures Split(removed, done + 1, rest[1..], rest[0].end, |source|)
    ensures Faithful(source, removed, RemoveOne(source, text, cursor, rest[0]), rest[0].end)
  {
    var r := rest[0];
    SplitStep(removed, done, rest, cursor, |source|);
    NotRemovedUpTo(removed, done, cursor, r.start);
    CopyFaithful(source, removed, text, cursor, r.start);
    var before := Copy(source, text, cursor, r.start);
    assert forall i :: r.start <= i < r.end ==> Inside(removed[done], i);
    CopyNewlinesFaithful(source, removed, before, r.start, r.end);
    var after := CopyNewlines(source, before, r.start, r.end);
    if |after| == |before| && NeedsSpace(source, after, r.end) {
      SpaceFaithful(source, removed, after, r, done);
    }
  }

  lemma {:induction false} RemoveAllFaithful(
    source: seq<byte>, removed: seq<Range>, text: seq<Mapped>, cursor: nat, done: nat, rest: seq<Range>)
    requires Faithful(source, removed, text, cursor) && Split(removed, done, rest, cursor, |source|)
    ensures Faithful(source, removed, RemoveAll(source, text, cursor, rest), |source|)
    decreases |rest|
  {
    if rest == [] {
      NotRemovedUpTo(removed, done, cursor, |source|);
      CopyFaithful(source, removed, text, cursor, |source|);
    } else if Acceptable(rest[0], cursor, |source|) {
      RemoveOneFaithful(source, removed, text, cursor, done, rest);
      RemoveAllFaithful(source, removed, RemoveOne(source, text, cursor, rest[0]), rest[0].end, done + 1, rest[1..]);
    } else {
      RemoveAllFaithful(source, removed, text, cursor, done, rest[1..]);
    }
  }

  /** The ranges removed from a source. */
  function RemovedRanges(source: seq<byte>, ranges: seq<Range>): seq<Range> {
    Accepted(SortRanges(ranges), 0, |source|)
  }

  /**
   Cleaning keeps exactly the newlines and the bytes outside the removed ranges, once each and in order. What it
   adds are spaces at removal starts. Every byte stays on its line, and offsets never go back.
   */
  lemma CleanedFaithful(source: seq<byte>, ranges: seq<Range>)
    ensures var text, removed := Cleaned(source, ranges), RemovedRanges(source, ranges);
            && Copied(text) == Kept(source, removed, |source|)
            && (forall j :: 0 <= j < |text| ==> FromSource(source, removed, text[j]))
            && SameLines(source, text) && OffsetsAscend(text)
            && CountNewlines(Bytes(text), |text|) == CountNewlines(source, |source|)
            && |text| <= 2 * |source|
  {
    var removed := RemovedRanges(source, ranges);
    assert removed[0..] == removed;
    RemoveAllFaithful(source, removed, [], 0, 0, SortRanges(ranges));
    KeptLength(source, removed, |source|);
  }

  lemma {:induction false} KeptLength(source: seq<byte>, removed: seq<Range>, n: nat)
    requires n <= |source|
    ensures |Kept(source, removed, n)| <= n
  {
    if n > 0 {
      KeptLength(source, removed, n - 1);
    }
  }

  /** Kept lists each kept position once, in order, so the text loses nothing it should keep. */
  lemma {:induction false} KeptExactly(source: seq<byte>, removed: seq<Range>, n: nat)
    requires n <= |source|
    ensures var kept := Kept(source, removed, n);
            && (forall i :: 0 <= i < n ==> (i in kept <==> Keeps(source, removed, i)))
            && (forall k :: 0 <= k < |kept| ==> kept[k] < n)
            && (forall k, l :: 0 <= k < l < |kept| ==> kept[k] < kept[l])
  {
    if n > 0 {
      KeptExactly(source, removed, n - 1);
    }
  }

  // ----- Where spaces are left

  /** The space stands for a removed range without newlines, between what is no space before it and behind it. */
  ghost predicate SpaceNeeded(source: seq<byte>, removed: seq<Range>, text: seq<Mapped>, j: nat)
    requires j < |text|
  {
    j > 0 && !IsSpace(text[j - 1].b) && exists k :: 0 <= k < |removed| && JoinsWords(source, removed[k], text[j].at)
  }

  predicate JoinsWords(source: seq<byte>, r: Range, at: nat) {
    && r.start == at && r.start <= r.end < |source| && !IsSpace(source[r.end])
    && forall i :: r.start <= i < r.end ==> source[i] != NEWLINE
  }

  /** Bytes that touch in the text, none of them a space, touch in the source; and spaces are left for nothing else. */
  ghost predicate WordsApart(source: seq<byte>, removed: seq<Range>, text: seq<Mapped>) {
    && (forall j :: 0 < j < |text| && !IsSpace(text[j - 1].b) && !IsSpace(text[j].b) ==> text[j].at == text[j - 1].at + 1)
    && (forall j :: 0 <= j < |text| && text[j].added ==> SpaceNeeded(source, removed, text, j))
  }

  /** The next byte of the source may follow. */
  predicate MayFollow(source: seq<byte>, text: seq<Mapped>, cursor: nat) {
    text != [] && !IsSpace(text[|text| - 1].b) && cursor < |source| && !IsSpace(source[cursor]) ==>
      text[|text| - 1].at + 1 == cursor
  }

  lemma ApartAppend(source: seq<byte>, removed: seq<Range>, text: seq<Mapped>, m: Mapped)
    requires WordsApart(source, removed, text)
    requires text != [] && !IsSpace(text[|text| - 1].b) && !IsSpace(m.b) ==> m.at == text[|text| - 1].at + 1
    requires m.added ==> SpaceNeeded(source, removed, text + [m], |text|)
    ensures WordsApart(source, removed, text + [m])
  {
    var longer := text + [m];
    forall j | 0 <= j < |longer| && longer[j].added ensures SpaceNeeded(source, removed, longer, j) {
      assert j < |text| ==> SpaceNeeded(source, removed, text, j);
    }
  }

  lemma {:induction false} CopyApart(source: seq<byte>, removed: seq<Range>, text: seq<Mapped>, from: nat, stop: nat)
    requires from <= stop <= |source| && WordsApart(source, removed, text) && MayFollow(source, text, from)
    ensures WordsApart(source, removed, Copy(source, text, from, stop))
    ensures MayFollow(source, Copy(source, text, from, stop), stop)
    decreases stop - from
  {
    if from < stop {
      var m := Mapped(source[from], from, false);
      ApartAppend(source, removed, text, m);
      CopyApart(source, removed, text + [m], from + 1, stop);
    }
  }

  lemma {:induction false} NewlinesApart(source: seq<byte>, removed: seq<Range>, text: seq<Mapped>, from: nat, stop: nat)
    requires from <= stop <= |source| && WordsApart(source, removed, text)
    ensures var after := CopyNewlines(source, text, from, stop);
            && WordsApart(source, removed, after) && |after| >= |text|
            && if |after| == |text| then after == text && forall i :: from <= i < stop ==> source[i] != NEWLINE
               else after[|after| - 1].b == NEWLINE
    decreases stop - from
  {
    if from < stop {
      NewlineApart(source, removed, text, from);
      NewlinesApart(source, removed, AfterRemoved(source, text, from), from + 1, stop);
    }
  }

  lemma NewlineApart(source: seq<byte>, removed: seq<Range>, text: seq<Mapped>, i: nat)
    requires i < |source| && WordsApart(source, removed, text)
    ensures var after := AfterRemoved(source, text, i);
            && WordsApart(source, removed, after)
            && if source[i] == NEWLINE then |after| == |text| + 1 && after[|text|].b == NEWLINE else after == text
  {
    if source[i] == NEWLINE {
      ApartAppend(source, removed, text, Mapped(NEWLINE, i, false));
    }
  }

  lemma RemoveOneApart(source: seq<byte>, removed: seq<Range>, text: seq<Mapped>, cursor: nat, r: Range)
    requires Acceptable(r, cursor, |source|) && r in removed
    requires WordsApart(source, removed, text) && MayFollow(source, text, cursor)
    ensures WordsApart(source, removed, RemoveOne(source, text, cursor, r))
    ensures MayFollow(source, RemoveOne(source, text, cursor, r), r.end)
  {
    CopyApart(source, removed, text, cursor, r.start);
    var before := Copy(source, text, cursor, r.start);
    NewlinesApart(source, removed, before, r.start, r.end);
    var after := CopyNewlines(source, before, r.start, r.end);
    if |after| == |before| && NeedsSpace(source, after, r.end) {
      var k :| 0 <= k < |removed| && removed[k] == r;
      assert JoinsWords(source, removed[k], r.start);
      ApartAppend(source, removed, after, Mapped(SPACE, r.start, true));
    }
  }

  lemma {:induction false} RemoveAllApart(
    source: seq<byte>, removed: seq<Range>, text: seq<Mapped>, cursor: nat, rest: seq<Range>)
    requires cursor <= |source| && WordsApart(source, removed, text) && MayFollow(source, text, cursor)
    requires forall r :: r in Accepted(rest, cursor, |source|) ==> r in removed
    ensures WordsApart(source, removed, RemoveAll(source, text, cursor, rest))
    decreases |rest|
  {
    if rest == [] {
      CopyApart(source, removed, text, cursor, |source|);
    } else if Acceptable(rest[0], cursor, |source|) {
      assert rest[0] in Accepted(rest, cursor, |source|);
      RemoveOneApart(source, removed, text, cursor, rest[0]);
      RemoveAllApart(source, removed, RemoveOne(source, text, cursor, rest[0]), rest[0].end, rest[1..]);
    } else {
      RemoveAllApart(source, removed, text, cursor, rest[1..]);
    }
  }

  /** A space is left exactly where a removal would join two words: no two bytes are joined, and no space is idle. */
  lemma SpacesLeft(source: seq<byte>, ranges: seq<Range>)
    ensures WordsApart(source, RemovedRanges(source, ranges), Cleaned(source, ranges))
  {
    RemoveAllApart(source, RemovedRanges(source, ranges), [], 0, SortRanges(ranges));
  }

  // ----- The program's loops

  lemma BytesAppend(text: seq<Mapped>, m: Mapped)
    ensures Bytes(text + [m]) == Bytes(text) + [m.b]
    ensures Offsets(text + [m]) == Offsets(text) + [m.at]
  {
  }

  /** Copying a run appends its bytes, and its offsets as one run. */
  lemma {:induction false} CopyAppends(source: seq<byte>, text: seq<Mapped>, from: nat, stop: nat)
    requires from <= stop <= |source|
    ensures var after := Copy(source, text, from, stop);
            && Bytes(after) == Bytes(text) + source[from..stop]
            && Offsets(after) == Offsets(text) + M.Run(from, stop - from)
    decreases stop - from
  {
    if from < stop {
      var m := Mapped(source[from], from, false);
      CopyAppends(source, text + [m], from + 1, stop);
      BytesAppend(text, m);
      assert source[from..stop] == [source[from]] + source[from + 1..stop];
      assert M.Run(from, stop - from) == [from] + M.Run(from + 1, stop - from - 1);
      Assoc(Bytes(text), [source[from]], source[from + 1..stop]);
      Assoc(Offsets(text), [from], M.Run(from + 1, stop - from - 1));
    }
  }

  /** A faithful text is small enough for the map, and the next offset does not go back. */
  lemma Bounded(source: seq<byte>, removed: seq<Range>, text: seq<Mapped>, cursor: nat)
    requires Faithful(source, removed, text, cursor)
    ensures |text| <= 2 * cursor
    ensures text != [] ==> Offsets(text)[|text| - 1] <= cursor
  {
    KeptLength(source, removed, cursor);
  }

  /** The output buffer and the map hold the text. */
  ghost predicate Holds(output: seq<byte>, map_: M.OffsetMap, text: seq<Mapped>)
    reads map_
  {
    map_.Valid() && output == Bytes(text) && map_.Contents() == Offsets(text)
  }

  /** AppendSource: false instead of the length error. */
  method AppendSource(
    source: seq<byte>, start: nat, end: nat, output: seq<byte>, map_: M.OffsetMap,
    ghost removed: seq<Range>, ghost text: seq<Mapped>)
    returns (longer: seq<byte>, ok: bool)
    requires start <= end <= |source| && Holds(output, map_, text) && Faithful(source, removed, text, start)
    modifies map_
    ensures map_.Valid()
    ensures ok ==> Holds(longer, map_, Copy(source, text, start, end))
    ensures |source| <= MAX_SOURCE ==> ok
  {
    Bounded(source, removed, text, start);
    CopyAppends(source, text, start, end);
    longer := output + source[start..end];
    ok := map_.AppendRun(start, end - start);
  }

  /** push_back and Append: one byte and its offset. */
  method PushByte(output: seq<byte>, map_: M.OffsetMap, b: byte, at: nat, ghost added: bool, ghost text: seq<Mapped>)
    returns (longer: seq<byte>, ok: bool)
    requires Holds(output, map_, text) && (text != [] ==> Offsets(text)[|text| - 1] <= at)
    modifies map_
    ensures map_.Valid()
    ensures ok ==> Holds(longer, map_, text + [Mapped(b, at, added)])
    ensures |text| <= M.U32_MAX && at <= M.U32_MAX ==> ok
  {
    BytesAppend(text, Mapped(b, at, added));
    longer := output + [b];
    ok := map_.Append(at);
  }

  /** One byte of a removed range. */
  method KeepIfNewline(
    source: seq<byte>, i: nat, output: seq<byte>, map_: M.OffsetMap, ghost removed: seq<Range>,
    ghost text: seq<Mapped>)
    returns (longer: seq<byte>, ok: bool)
    requires i < |source| && Removed(removed, i)
    requires Holds(output, map_, text) && Faithful(source, removed, text, i)
    modifies map_
    ensures map_.Valid()
    ensures ok ==> Holds(longer, map_, AfterRemoved(source, text, i))
    ensures Faithful(source, removed, AfterRemoved(source, text, i), i + 1)
    ensures |source| <= MAX_SOURCE ==> ok
  {
    longer, ok := output, true;
    if source[i] == NEWLINE {
      Bounded(source, removed, text, i);
      KeepOne(source, removed, text, i);
      longer, ok := PushByte(output, map_, NEWLINE, i, false, text);
    } else {
      DropOne(source, removed, text, i);
    }
  }

  /** What is still to come of a removed range after its bytes before i, and whether any of those was a newline. */
  ghost predicate Keeping(
    source: seq<byte>, r: Range, text: seq<Mapped>, now: seq<Mapped>, i: nat, preserved: bool)
    requires r.start <= i <= r.end <= |source|
  {
    && CopyNewlines(source, now, i, r.end) == CopyNewlines(source, text, r.start, r.end)
    && |now| >= |text| && (preserved <==> |now| != |text|)
  }

  lemma KeepingStep(source: seq<byte>, r: Range, text: seq<Mapped>, now: seq<Mapped>, i: nat, preserved: bool)
    requires r.start <= i < r.end <= |source| && Keeping(source, r, text, now, i, preserved)
    ensures Keeping(source, r, text, AfterRemoved(source, now, i), i + 1, preserved || source[i] == NEWLINE)
  {
  }

  /** The newlines of a removed range, and whether there were any. */
  method KeepNewlines(
    source: seq<byte>, r: Range, output: seq<byte>, map_: M.OffsetMap, ghost removed: seq<Range>,
    ghost text: seq<Mapped>)
    returns (longer: seq<byte>, preserved: bool, ok: bool)
    requires r.start <= r.end <= |source| && Holds(output, map_, text) && Faithful(source, removed, text, r.start)
    requires forall i :: r.start <= i < r.end ==> Removed(removed, i)
    modifies map_
    ensures map_.Valid()
    ensures ok ==> Holds(longer, map_, CopyNewlines(source, text, r.start, r.end))
    ensures ok ==> (preserved <==> |CopyNewlines(source, text, r.start, r.end)| != |text|)
    ensures |source| <= MAX_SOURCE ==> ok
  {
    longer, preserved, ok := output, false, true;
    ghost var now := text;
    var i := r.start;
    while i < r.end
      invariant r.start <= i <= r.end && Holds(longer, map_, now) && Faithful(source, removed, now, i)
      invariant Keeping(source, r, text, now, i, preserved)
    {
      KeepingStep(source, r, text, now, i, preserved);
      longer, ok := KeepIfNewline(source, i, longer, map_, removed, now);
      if !ok {
        return;
      }
      now, preserved := AfterRemoved(source, now, i), preserved || source[i] == NEWLINE;
      i := i + 1;
    }
  }

  /** One round of RemoveRanges. */
  method RemoveRange(
    source: seq<byte>, cursor: nat, r: Range, output: seq<byte>, map_: M.OffsetMap,
    ghost removed: seq<Range>, ghost text: seq<Mapped>, ghost done: nat, ghost rest: seq<Range>)
    returns (longer: seq<byte>, ok: bool)
    requires Acceptable(r, cursor, |source|) && rest != [] && rest[0] == r
    requires Split(removed, done, rest, cursor, |source|)
    requires Holds(output, map_, text) && Faithful(source, removed, text, cursor)
    modifies map_
    ensures map_.Valid()
    ensures ok ==> Holds(longer, map_, RemoveOne(source, text, cursor, r))
    ensures |source| <= MAX_SOURCE ==> ok
  {
    SplitStep(removed, done, rest, cursor, |source|);
    NotRemovedUpTo(removed, done, cursor, r.start);
    longer, ok := AppendSource(source, cursor, r.start, output, map_, removed, text);
    if !ok {
      return;
    }
    ghost var before := Copy(source, text, cursor, r.start);
    CopyFaithful(source, removed, text, cursor, r.start);
    assert forall i :: r.start <= i < r.end ==> Inside(removed[done], i);
    CopyNewlinesFaithful(source, removed, before, r.start, r.end);
    var preserved;
    longer, preserved, ok := KeepNewlines(source, r, longer, map_, removed, before);
    if !ok {
      return;
    }
    ghost var after := CopyNewlines(source, before, r.start, r.end);
    longer, ok := LeaveSpace(source, r, preserved, longer, map_, removed, before, after);
  }

  /** The space between two words that a removal would join. */
  method LeaveSpace(
    source: seq<byte>, r: Range, preserved: bool, output: seq<byte>, map_: M.OffsetMap,
    ghost removed: seq<Range>, ghost before: seq<Mapped>, ghost after: seq<Mapped>)
    returns (longer: seq<byte>, ok: bool)
    requires r.start <= r.end <= |source| && Faithful(source, removed, before, r.start)
    requires Holds(output, map_, after) && (!preserved ==> after == before)
    modifies map_
    ensures map_.Valid()
    ensures var leaves := !preserved && NeedsSpace(source, after, r.end);
            ok ==> Holds(longer, map_, if leaves then after + [Mapped(SPACE, r.start, true)] else after)
    ensures |source| <= MAX_SOURCE ==> ok
  {
    longer, ok := output, true;
    if && !preserved && longer != [] && !IsSpace(longer[|longer| - 1])
       && r.end < |source| && !IsSpace(source[r.end])
    {
      Bounded(source, removed, before, r.start);
      longer, ok := PushByte(longer, map_, SPACE, r.start, true, before);
    }
  }

  /** RemoveRanges: the cleaned text and its map, which also covers the end of the source. */
  method RemoveRanges(source: seq<byte>, ranges: seq<Range>)
    returns (output: seq<byte>, map_: M.OffsetMap, ok: bool)
    ensures fresh(map_) && map_.Valid()
    ensures ok ==> output == Bytes(Cleaned(source, ranges))
    ensures ok ==> map_.Contents() == Offsets(Cleaned(source, ranges)) + [|source|]
    ensures |source| <= MAX_SOURCE ==> ok
  {
    var sorted := SortRanges(ranges);
    output, ok := [], true;
    map_ := new M.OffsetMap();
    var cursor := 0;
    ghost var removed, text, done: nat := RemovedRanges(source, ranges), [], 0;
    assert removed[0..] == removed;
    var n := 0;
    while n < |sorted|
      invariant n <= |sorted| && fresh(map_) && Holds(output, map_, text) && Faithful(source, removed, text, cursor)
      invariant Split(removed, done, sorted[n..], cursor, |source|)
      invariant RemoveAll(source, text, cursor, sorted[n..]) == Cleaned(source, ranges)
    {
      var r := sorted[n];
      ghost var rest := sorted[n..];
      assert rest[1..] == sorted[n + 1..];
      if !(r.start < cursor || r.start > r.end || r.end > |source|) {
        output, ok := RemoveRange(source, cursor, r, output, map_, removed, text, done, rest);
        if !ok {
          return;
        }
        RemoveOneFaithful(source, removed, text, cursor, done, rest);
        text, done := RemoveOne(source, text, cursor, r), done + 1;
        cursor := r.end;
      }
      n := n + 1;
    }
    NotRemovedUpTo(removed, done, cursor, |source|);
    output, ok := AppendSource(source, cursor, |source|, output, map_, removed, text);
    if !ok {
      return;
    }
    CopyFaithful(source, removed, text, cursor, |source|);
    Bounded(source, removed, Copy(source, text, cursor, |source|), |source|);
    ok := map_.Append(|source|);
  }
}
