/** Whole-path globs: src/glob.cc:148-191 and src/glob.cc:231-281. */
module Glob {
  import opened Wrappers
  import opened Sequences
  import opened Utf8
  import opened Wildcard
  import opened GlobSegment

  type Segment = seq<byte>

  const GLOBSTAR: Segment := [STAR, STAR]
  const ANYTHING: Segment := [STAR]

  // ----- Splitting at slashes

  /** The first slash at or after i, or the end of the text. */
  function FindFrom(s: seq<byte>, i: nat): (end: nat)
    requires i <= |s|
    ensures i <= end <= |s|
    ensures forall k :: i <= k < end ==> s[k] != SLASH
    ensures end < |s| ==> s[end] == SLASH
    decreases |s| - i
  {
    if i == |s| || s[i] == SLASH then i else FindFrom(s, i + 1)
  }

  function FindSlash(s: seq<byte>): (end: nat)
    ensures end <= |s|
    ensures forall k :: 0 <= k < end ==> s[k] != SLASH
    ensures end < |s| ==> s[end] == SLASH
  {
    FindFrom(s, 0)
  }

  /** All pieces between slashes, empty ones included. */
  function SplitAll(s: seq<byte>): (pieces: seq<Segment>)
    ensures pieces != []
    decreases |s|
  {
    var end := FindSlash(s);
    if end == |s| then [s] else [s[..end]] + SplitAll(s[end + 1..])
  }

  lemma SplitAllStep(s: seq<byte>)
    ensures FindSlash(s) == |s| ==> SplitAll(s) == [s] && s[..|s|] == s
    ensures FindSlash(s) < |s| ==>
              var rest := SplitAll(s[FindSlash(s) + 1..]);
              SplitAll(s) == [s[..FindSlash(s)]] + rest && SplitAll(s)[1..] == rest
  {
  }

  function NonEmpty(pieces: seq<Segment>): seq<Segment> {
    if pieces == [] then []
    else if pieces[0] == [] then NonEmpty(pieces[1..])
    else [pieces[0]] + NonEmpty(pieces[1..])
  }

  /** The segments of a path: its non-empty pieces. */
  function Segments(path: seq<byte>): seq<Segment> {
    NonEmpty(SplitAll(path))
  }

  function Join(pieces: seq<Segment>): seq<byte>
    requires pieces != []
  {
    if |pieces| == 1 then pieces[0] else pieces[0] + [SLASH] + Join(pieces[1..])
  }

  /** The first slash is determined by what precedes it. */
  lemma FindSlashIs(s: seq<byte>, end: nat)
    requires end <= |s| && (forall k :: 0 <= k < end ==> s[k] != SLASH) && (end < |s| ==> s[end] == SLASH)
    ensures FindSlash(s) == end
  {
  }

  /** Splitting a path with a slash in it splits both sides. */
  lemma {:induction false} SplitAtSlash(a: seq<byte>, b: seq<byte>)
    ensures SplitAll(a + [SLASH] + b) == SplitAll(a) + SplitAll(b)
    decreases |a|
  {
    var s := a + [SLASH] + b;
    var end := FindSlash(a);
    FindSlashIs(s, end);
    assert s[..end] == a[..end];
    SplitAllStep(s);
    SplitAllStep(a);
    if end == |a| {
      assert s[end + 1..] == b;
    } else {
      var rest := a[end + 1..];
      assert s[end + 1..] == rest + [SLASH] + b;
      SplitAtSlash(rest, b);
      Assoc([a[..end]], SplitAll(rest), SplitAll(b));
    }
  }

  lemma {:induction false} NonEmptyConcat(a: seq<Segment>, b: seq<Segment>)
    ensures NonEmpty(a + b) == NonEmpty(a) + NonEmpty(b)
  {
    if a == [] {
      assert a + b == b;
    } else {
      NonEmptyConcat(a[1..], b);
      assert (a + b)[1..] == a[1..] + b;
      Assoc([a[0]], NonEmpty(a[1..]), NonEmpty(b));
    }
  }

  /** The segments of directory/rest are those of the directory and then those of the rest. */
  lemma SegmentsBeneath(directory: seq<byte>, rest: seq<byte>)
    ensures Segments(directory + [SLASH] + rest) == Segments(directory) + Segments(rest)
  {
    SplitAtSlash(directory, rest);
    NonEmptyConcat(SplitAll(directory), SplitAll(rest));
  }

  lemma OnePiece(piece: Segment)
    requires SLASH !in piece
    ensures SplitAll(piece) == [piece]
  {
    assert forall k :: 0 <= k < |piece| ==> piece[k] in piece;
    FindSlashIs(piece, |piece|);
  }

  /** Joining pieces and splitting again gives the pieces back, and splitting any text and joining gives the text. */
  lemma {:induction false} SplitJoin(pieces: seq<Segment>)
    requires pieces != [] && forall p :: p in pieces ==> SLASH !in p
    ensures SplitAll(Join(pieces)) == pieces
  {
    OnePiece(pieces[0]);
    if |pieces| > 1 {
      SplitJoin(pieces[1..]);
      SplitAtSlash(pieces[0], Join(pieces[1..]));
    }
  }

  lemma {:induction false} JoinSplit(s: seq<byte>)
    ensures Join(SplitAll(s)) == s
    ensures forall p :: p in SplitAll(s) ==> SLASH !in p
    decreases |s|
  {
    var end := FindSlash(s);
    if end < |s| {
      JoinSplit(s[end + 1..]);
      assert s == s[..end] + [SLASH] + s[end + 1..];
    } else {
      assert s[..end] == s;
    }
  }

  lemma NonEmptyOne(piece: Segment)
    ensures NonEmpty([piece]) == if piece == [] then [] else [piece]
  {
    assert [piece][1..] == [];
  }

  /** Segments, one piece at a time. */
  lemma SegmentsStep(s: seq<byte>)
    ensures FindSlash(s) == |s| ==> Segments(s) == if s == [] then [] else [s]
    ensures FindSlash(s) < |s| ==>
              var piece, rest := s[..FindSlash(s)], Segments(s[FindSlash(s) + 1..]);
              Segments(s) == if piece == [] then rest else [piece] + rest
  {
    var end := FindSlash(s);
    SplitAllStep(s);
    if end == |s| {
      NonEmptyOne(s);
    } else {
      NonEmptyConcat([s[..end]], SplitAll(s[end + 1..]));
      NonEmptyOne(s[..end]);
    }
  }

  /** The first piece moves over to the segments before it, unless it is empty. */
  lemma TakeSegment(before: seq<Segment>, s: seq<byte>)
    ensures var end := FindSlash(s);
            var rest := if end == |s| then [] else s[end + 1..];
            before + Segments(s) == (if s[..end] == [] then before else before + [s[..end]]) + Segments(rest)
  {
    var end := FindSlash(s);
    SegmentsStep(s);
    SegmentsStep([]);
    if end == |s| {
      assert s[..end] == s;
    } else {
      Assoc(before, [s[..end]], Segments(s[end + 1..]));
    }
  }

  method SplitPath(path: seq<byte>) returns (segments: seq<Segment>)
    ensures segments == Segments(path)
  {
    segments := [];
    var remaining := path;
    SegmentsStep([]);
    while remaining != []
      invariant segments + Segments(remaining) == Segments(path)
      decreases |remaining|
    {
      TakeSegment(segments, remaining);
      var end := FindSlash(remaining);
      var segment := remaining[..end];
      if segment != [] {
        segments := segments + [segment];
      }
      remaining := if end == |remaining| then [] else remaining[end + 1..];
    }
  }

  // ----- Segment-level matching

  function SegmentItem(segment: Segment): Item<Segment> {
    if segment == GLOBSTAR then Star else One(segment)
  }

  function SegmentItems(pattern: seq<Segment>): (items: seq<Item<Segment>>)
    ensures |items| == |pattern|
  {
    seq(|pattern|, i requires 0 <= i < |pattern| => SegmentItem(pattern[i]))
  }

  /** The declared meaning of a list of pattern segments: "**" takes any run of segments, others exactly one. */
  ghost predicate SegmentsMatch(pattern: seq<Segment>, path: seq<Segment>) {
    Matches(SegmentMatches, SegmentItems(pattern), path)
  }

  predicate Readable(pattern: seq<Segment>) {
    forall i :: 0 <= i < |pattern| ==> ReadItems(pattern[i], 0).Some?
  }

  /** Loop variables of MatchSegments. */
  datatype PathSearch = PathSearch(pi: nat, ti: nat, starred: bool, sp: nat, st: nat)

  ghost predicate PathInBounds(items: seq<Item<Segment>>, path: seq<Segment>, s: PathSearch) {
    && s.pi <= |items| && s.ti <= |path| && s.sp <= s.pi && s.st <= s.ti
    && (!s.starred ==> s.sp == 0 && s.st == 0)
  }

  /** The search stands d plain segments past its star. */
  ghost predicate PathPaired(items: seq<Item<Segment>>, path: seq<Segment>, s: PathSearch, d: nat)
    requires PathInBounds(items, path, s)
  {
    s.starred ==> Follows(items[s.pi..], path[s.ti..], items[s.sp..], path[s.st..], d)
  }

  /** The search can still succeed. */
  ghost predicate PathHopeful(items: seq<Item<Segment>>, path: seq<Segment>, s: PathSearch)
    requires PathInBounds(items, path, s)
  {
    Reachable(SegmentMatches, items[s.pi..], path[s.ti..], s.starred, items[s.sp..], path[s.st..])
  }

  /** A search that stands within bounds, and succeeds if and only if the answer is yes. */
  ghost predicate PathStands(items: seq<Item<Segment>>, path: seq<Segment>, s: PathSearch, d: nat, answer: bool) {
    PathInBounds(items, path, s) && PathPaired(items, path, s, d) && (answer <==> PathHopeful(items, path, s))
  }

  lemma PathStarts(items: seq<Item<Segment>>, path: seq<Segment>)
    ensures PathStands(items, path, PathSearch(0, 0, false, 0, 0), 0, Matches(SegmentMatches, items, path))
  {
    assert items[0..] == items && path[0..] == path;
  }

  lemma PathMeetsStar(items: seq<Item<Segment>>, path: seq<Segment>, s: PathSearch, d: nat, answer: bool)
    requires PathStands(items, path, s, d, answer) && s.pi < |items| && items[s.pi].Star?
    ensures PathStands(items, path, PathSearch(s.pi + 1, s.ti, true, s.pi + 1, s.ti), 0, answer)
  {
    ForgetStar(SegmentMatches, items[s.pi..], path[s.ti..], s.starred, items[s.sp..], path[s.st..], d);
    assert items[s.pi..][1..] == items[s.pi + 1..];
  }

  lemma PathTakesOne(items: seq<Item<Segment>>, path: seq<Segment>, s: PathSearch, d: nat, answer: bool)
    requires PathStands(items, path, s, d, answer) && s.pi < |items| && items[s.pi].One?
    requires s.ti < |path| && SegmentMatches(items[s.pi].atom, path[s.ti])
    ensures PathStands(items, path, s.(pi := s.pi + 1, ti := s.ti + 1), d + 1, answer)
  {
    StepOne(SegmentMatches, items[s.pi..], path[s.ti..], s.starred, items[s.sp..], path[s.st..], d);
    assert items[s.pi..][1..] == items[s.pi + 1..] && path[s.ti..][1..] == path[s.ti + 1..];
  }

  lemma PathFallsBack(items: seq<Item<Segment>>, path: seq<Segment>, s: PathSearch, d: nat, answer: bool)
    requires PathStands(items, path, s, d, answer) && s.ti < |path|
    requires s.pi < |items| ==> items[s.pi].One? && !SegmentMatches(items[s.pi].atom, path[s.ti])
    ensures !s.starred ==> !answer
    ensures s.starred ==> PathStands(items, path, PathSearch(s.sp, s.st + 1, true, s.sp, s.st + 1), 0, answer)
  {
    NothingTakes(items, path, s);
    if s.starred {
      StarGrows(items, path, s);
    }
  }

  lemma StarGrows(items: seq<Item<Segment>>, path: seq<Segment>, s: PathSearch)
    requires PathInBounds(items, path, s) && s.starred && s.ti < |path|
    requires !Matches(SegmentMatches, items[s.pi..], path[s.ti..])
    ensures var next := PathSearch(s.sp, s.st + 1, true, s.sp, s.st + 1);
            && PathInBounds(items, path, next) && PathPaired(items, path, next, 0)
            && (PathHopeful(items, path, s) <==> PathHopeful(items, path, next))
  {
    LengthenStar(SegmentMatches, items[s.pi..], path[s.ti..], items[s.sp..], path[s.st..]);
    assert path[s.st..][1..] == path[s.st + 1..];
  }

  /** Where the next segment is not taken, the search cannot go on. */
  lemma NothingTakes(items: seq<Item<Segment>>, path: seq<Segment>, s: PathSearch)
    requires s.pi <= |items| && s.ti < |path|
    requires s.pi < |items| ==> items[s.pi].One? && !SegmentMatches(items[s.pi].atom, path[s.ti])
    ensures !Matches(SegmentMatches, items[s.pi..], path[s.ti..])
  {
    var rest, left := items[s.pi..], path[s.ti..];
    assert left[0] == path[s.ti];
    if s.pi < |items| {
      assert rest[0] == items[s.pi];
    }
  }

  lemma PathExhausted(items: seq<Item<Segment>>, path: seq<Segment>, s: PathSearch, d: nat, answer: bool)
    requires PathStands(items, path, s, d, answer) && s.ti == |path|
    ensures answer <==> forall i :: s.pi <= i < |items| ==> items[i].Star?
  {
    var rest := items[s.pi..];
    assert path[s.ti..] == [];
    TextExhausted(SegmentMatches, rest, s.starred, items[s.sp..], path[s.st..], d);
    EmptyText<Segment, Segment>(SegmentMatches, rest);
    assert forall i :: s.pi <= i < |items| ==> items[i] == rest[i - s.pi];
    assert forall i :: 0 <= i < |rest| ==> rest[i] == items[i + s.pi];
  }

  /** The pattern is spent at index, up to "**" segments that take nothing. */
  method OnlyGlobstarsLeft(pattern: seq<Segment>, index: nat) returns (spent: bool)
    requires index <= |pattern|
    ensures spent <==> forall i :: index <= i < |pattern| ==> pattern[i] == GLOBSTAR
  {
    var next := index;
    while next < |pattern| && pattern[next] == GLOBSTAR
      invariant index <= next <= |pattern|
      invariant forall i :: index <= i < next ==> pattern[i] == GLOBSTAR
    {
      next := next + 1;
    }
    spent := next == |pattern|;
  }

  /** Without "**" a pattern matches segment by segment, and "**" alone matches every path. */
  lemma {:induction false} PlainSegments(pattern: seq<Segment>, path: seq<Segment>)
    requires GLOBSTAR !in pattern
    ensures SegmentsMatch(pattern, path)
       <==> |pattern| == |path| && forall i :: 0 <= i < |pattern| ==> SegmentMatches(pattern[i], path[i])
  {
    var items := SegmentItems(pattern);
    if pattern != [] && path != [] {
      assert items[1..] == SegmentItems(pattern[1..]);
      PlainSegments(pattern[1..], path[1..]);
      forall i | 0 <= i < |pattern| && |pattern| == |path|
        ensures SegmentMatches(pattern[i], path[i])
           <==> if i == 0 then SegmentMatches(pattern[0], path[0]) else SegmentMatches(pattern[1..][i - 1], path[1..][i - 1])
      {
      }
    } else if pattern != [] {
      assert pattern[0] in pattern;
    }
  }

  lemma GlobstarMatches(path: seq<Segment>)
    ensures SegmentsMatch([GLOBSTAR], path)
  {
    var items := SegmentItems([GLOBSTAR]);
    assert items[1..] == [] && path[|path|..] == [];
    assert Matches(SegmentMatches, items[1..], path[|path|..]);
  }

  /** Whether the pattern goes on with a segment that the next one of the path matches. */
  method NextMatches(pattern: seq<Segment>, index: nat, segment: Segment) returns (matched: bool)
    requires Readable(pattern) && index <= |pattern| && (index < |pattern| ==> pattern[index] != GLOBSTAR)
    ensures index < |pattern| ==> SegmentItems(pattern)[index] == One(pattern[index])
    ensures matched <==> index < |pattern| && SegmentMatches(pattern[index], segment)
  {
    matched := false;
    if index < |pattern| {
      matched := MatchSegment(pattern[index], segment);
    }
  }

  /** Greedy matching of whole paths, remembering only the latest "**", decides the declared meaning. */
  method MatchSegments(pattern: seq<Segment>, path: seq<Segment>) returns (matched: bool)
    requires Readable(pattern)
    ensures matched <==> SegmentsMatch(pattern, path)
  {
    var s := PathSearch(0, 0, false, 0, 0);
    ghost var items, d: nat := SegmentItems(pattern), 0;
    ghost var answer := SegmentsMatch(pattern, path);
    PathStarts(items, path);
    while s.ti < |path|
      invariant PathStands(items, path, s, d, answer)
      decreases |path| - s.st, |pattern| - s.sp, |path| - s.ti
    {
      var going;
      going, s, d := PathStep(pattern, path, s, d, answer);
      if !going {
        return false;
      }
    }
    PathExhausted(items, path, s, d, answer);
    assert forall i :: s.pi <= i < |pattern| ==> items[i] == SegmentItem(pattern[i]);
    matched := OnlyGlobstarsLeft(pattern, s.pi);
  }

  /** One round of the loop: a new star, one more segment, or a longer run for the star; false when none is left. */
  method PathStep(pattern: seq<Segment>, path: seq<Segment>, s: PathSearch, ghost d: nat, ghost answer: bool)
    returns (going: bool, next: PathSearch, ghost more: nat)
    requires Readable(pattern) && PathStands(SegmentItems(pattern), path, s, d, answer) && s.ti < |path|
    ensures !going ==> !answer
    ensures going ==> PathStands(SegmentItems(pattern), path, next, more, answer)
    ensures going ==>
              || s.st < next.st
              || (s.st == next.st && s.sp < next.sp)
              || (s.st == next.st && s.sp == next.sp && s.ti < next.ti)
  {
    going, next, more := true, s, 0;
    ghost var items := SegmentItems(pattern);
    if s.pi < |pattern| && pattern[s.pi] == GLOBSTAR {
      PathMeetsStar(items, path, s, d, answer);
      next := PathSearch(s.pi + 1, s.ti, true, s.pi + 1, s.ti);
      return;
    }
    var matchedOne := NextMatches(pattern, s.pi, path[s.ti]);
    if matchedOne {
      PathTakesOne(items, path, s, d, answer);
      next, more := s.(pi := s.pi + 1, ti := s.ti + 1), d + 1;
      return;
    }
    PathFallsBack(items, path, s, d, answer);
    if !s.starred {
      going := false;
      return;
    }
    next := PathSearch(s.sp, s.st + 1, true, s.sp, s.st + 1);
  }

  // ----- Globs

  /** A pattern Compile accepts: relative, not ending in a slash, every piece well formed. */
  predicate Acceptable(pattern: seq<byte>) {
    && pattern != [] && pattern[0] != SLASH && pattern[|pattern| - 1] != SLASH
    && forall i :: 0 <= i < |SplitAll(pattern)| ==> ValidSegment(SplitAll(pattern)[i])
  }

  /** The pattern names the contents of a directory. */
  predicate EndsInGlobstar(pattern: seq<byte>) {
    var pieces := SplitAll(pattern);
    pieces[|pieces| - 1] == GLOBSTAR
  }

  function DirectoryPart(pattern: seq<byte>): seq<Segment> {
    var pieces := SplitAll(pattern);
    pieces[..|pieces| - 1]
  }

  /**
   What a pattern means, on its own pieces: a trailing "**" matches everything inside a directory that
   the rest matches, but not the directory itself.
   */
  ghost predicate Denotes(pattern: seq<byte>, path: seq<byte>) {
    var parts := Segments(path);
    if EndsInGlobstar(pattern) then
      SomePrefix(DirectoryPart(pattern), parts, |parts|)
    else SegmentsMatch(SplitAll(pattern), parts)
  }

  /** Some prefix of the path shorter than n matches. */
  ghost predicate SomePrefix(pattern: seq<Segment>, path: seq<Segment>, n: nat)
    requires n <= |path| + 1
  {
    exists k :: 0 <= k < n && SegmentsMatch(pattern, path[..k])
  }

  lemma SomePrefixStep(pattern: seq<Segment>, path: seq<Segment>, n: nat)
    requires n <= |path|
    ensures SomePrefix(pattern, path, n + 1) <==> SomePrefix(pattern, path, n) || SegmentsMatch(pattern, path[..n])
  {
  }

  datatype Glob = Glob(pattern: seq<byte>, segments: seq<Segment>, prunePrefix: seq<Segment>, prunes: bool) {
    /** The fields are those Compile derives from an acceptable pattern. */
    predicate Compiled() {
      && Acceptable(pattern)
      && prunes == EndsInGlobstar(pattern)
      && prunePrefix == (if prunes then DirectoryPart(pattern) else [])
      && segments == (if prunes then DirectoryPart(pattern) + [ANYTHING, GLOBSTAR] else SplitAll(pattern))
    }

    /** Glob::Matches. */
    method MatchesPath(path: seq<byte>) returns (matched: bool)
      requires Compiled()
      ensures matched <==> Denotes(pattern, path)
    {
      var parts := SplitPath(path);
      CompiledReadable(this);
      matched := MatchSegments(segments, parts);
      if prunes {
        InsideDirectory(DirectoryPart(pattern), parts);
      }
    }

    /** Glob::PrunesDirectory. */
    method PrunesDirectory(directory: seq<byte>) returns (pruned: bool)
      requires Compiled()
      ensures pruned <==> prunes && AllBeneath(pattern, directory)
    {
      if !prunes {
        return false;
      }
      var parts := SplitPath(directory);
      CompiledReadable(this);
      PrunesExactly(pattern, directory);
      var length := 0;
      while length <= |parts|
        invariant length <= |parts| + 1
        invariant !SomePrefix(prunePrefix, parts, length)
      {
        var matched := MatchSegments(prunePrefix, parts[..length]);
        SomePrefixStep(prunePrefix, parts, length);
        if matched {
          return true;
        }
        length := length + 1;
      }
      return false;
    }
  }

  lemma CompiledReadable(g: Glob)
    requires g.Compiled()
    ensures Readable(g.segments) && Readable(g.prunePrefix)
  {
    forall i | 0 <= i < |SplitAll(g.pattern)| ensures ReadItems(SplitAll(g.pattern)[i], 0).Some? {
      ValidIffReadable(SplitAll(g.pattern)[i], 0);
    }
    ValidIffReadable(ANYTHING, 0);
    ValidIffReadable(GLOBSTAR, 0);
  }

  lemma AnythingMatches(segment: Segment)
    ensures SegmentMatches(ANYTHING, segment)
  {
    ItemsStep(ANYTHING, 0);
    var items := ItemsAt(ANYTHING, 0);
    var text := CodePoints(segment, 0);
    assert items == [Star];
    assert text[|text|..] == [];
    assert Matches(Accepts, items[1..], text[|text|..]);
  }

  /** The rewrite of a trailing "**" into "*" and "**" keeps its meaning. */
  lemma InsideDirectory(dir: seq<Segment>, parts: seq<Segment>)
    ensures SegmentsMatch(dir + [ANYTHING, GLOBSTAR], parts)
       <==> SomePrefix(dir, parts, |parts|)
  {
    forall t | t in parts ensures SegmentMatches(ANYTHING, t) {
      AnythingMatches(t);
    }
    ContentsOf(SegmentMatches, SegmentItems(dir), ANYTHING, parts);
    assert SegmentItems(dir + [ANYTHING, GLOBSTAR]) == SegmentItems(dir) + [One(ANYTHING), Star];
  }

  /** Every path strictly beneath the directory is matched. */
  ghost predicate AllBeneath(pattern: seq<byte>, directory: seq<byte>) {
    forall rest :: Segments(rest) != [] ==> Denotes(pattern, directory + [SLASH] + rest)
  }

  /** For a pattern with a trailing "**", some ancestor matching the rest is exactly when all that lies beneath matches. */
  lemma PrunesExactly(pattern: seq<byte>, directory: seq<byte>)
    requires EndsInGlobstar(pattern)
    ensures AllBeneath(pattern, directory)
       <==> SomePrefix(DirectoryPart(pattern), Segments(directory), |Segments(directory)| + 1)
  {
    var parts := Segments(directory);
    if SomePrefix(DirectoryPart(pattern), parts, |parts| + 1) {
      forall rest | Segments(rest) != [] ensures Denotes(pattern, directory + [SLASH] + rest) {
        SegmentsBeneath(directory, rest);
        LongerPath(DirectoryPart(pattern), parts, Segments(rest));
      }
    }
    if AllBeneath(pattern, directory) {
      var x: seq<byte> := ['x' as int];
      OneSegment(x);
      SegmentsBeneath(directory, x);
      assert Denotes(pattern, directory + [SLASH] + x);
      LongerPath(DirectoryPart(pattern), parts, [x]);
    }
  }

  lemma OneSegment(x: Segment)
    requires x != [] && SLASH !in x
    ensures Segments(x) == [x]
  {
    FindSlashIs(x, |x|);
    SplitAllStep(x);
    NonEmptyOne(x);
  }

  /** A prefix of the path itself is a proper prefix of every longer path, and of a path one longer nothing else is. */
  lemma LongerPath(pattern: seq<Segment>, path: seq<Segment>, more: seq<Segment>)
    requires more != []
    ensures SomePrefix(pattern, path, |path| + 1) ==> SomePrefix(pattern, path + more, |path + more|)
    ensures |more| == 1 && SomePrefix(pattern, path + more, |path + more|) ==> SomePrefix(pattern, path, |path| + 1)
  {
    forall k | 0 <= k <= |path| ensures (path + more)[..k] == path[..k] {
    }
  }

  /** Without a trailing "**" the answer is only conservative: everything beneath may match and still not be pruned. */
  lemma PruningIsConservative(directory: seq<byte>)
    ensures var pattern := GLOBSTAR + [SLASH] + ANYTHING;
            Acceptable(pattern) && !EndsInGlobstar(pattern) && AllBeneath(pattern, directory)
  {
    var pattern := GLOBSTAR + [SLASH] + ANYTHING;
    FindSlashIs(GLOBSTAR, |GLOBSTAR|);
    FindSlashIs(ANYTHING, |ANYTHING|);
    SplitAtSlash(GLOBSTAR, ANYTHING);
    assert SplitAll(pattern) == [GLOBSTAR, ANYTHING];
    assert ValidSegment(GLOBSTAR) && ValidSegment(ANYTHING) by {
      assert WellFormed(GLOBSTAR, 1) && WellFormed(ANYTHING, 1);
    }
    var items := SegmentItems([GLOBSTAR, ANYTHING]);
    assert items == [Star, One(ANYTHING)];
    forall rest | Segments(rest) != [] ensures Denotes(pattern, directory + [SLASH] + rest) {
      SegmentsBeneath(directory, rest);
      var parts := Segments(directory + [SLASH] + rest);
      var last := |parts| - 1;
      AnythingMatches(parts[last]);
      assert parts[last..] == [parts[last]];
      assert Matches(SegmentMatches, items[1..][1..], parts[last..][1..]);
      assert Matches(SegmentMatches, items[1..], parts[last..]);
    }
  }

  /** Glob::Compile: None instead of the error. */
  method Compile(pattern: seq<byte>) returns (glob: Option<Glob>)
    ensures glob.Some? <==> Acceptable(pattern)
    ensures glob.Some? ==> glob.value.pattern == pattern && glob.value.Compiled()
  {
    if pattern == [] || pattern[0] == SLASH || pattern[|pattern| - 1] == SLASH {
      return None;
    }
    var pieces := CompileSegments(pattern);
    if pieces.None? {
      return None;
    }
    var segments := pieces.value;
    var prunes, prunePrefix := false, [];
    if segments[|segments| - 1] == GLOBSTAR {
      prunes, prunePrefix := true, segments[..|segments| - 1];
      segments := segments[|segments| - 1 := ANYTHING];
      segments := segments + [GLOBSTAR];
      assert segments == DirectoryPart(pattern) + [ANYTHING, GLOBSTAR];
    }
    glob := Some(Glob(pattern, segments, prunePrefix, prunes));
  }

  /** The pieces between the slashes, if all of them are well formed. */
  method CompileSegments(pattern: seq<byte>) returns (pieces: Option<seq<Segment>>)
    ensures pieces.Some? <==> forall i :: 0 <= i < |SplitAll(pattern)| ==> ValidSegment(SplitAll(pattern)[i])
    ensures pieces.Some? ==> pieces.value == SplitAll(pattern)
  {
    ghost var all := SplitAll(pattern);
    var segments: seq<Segment> := [];
    var remaining := pattern;
    var last := false;
    while !last
      invariant |segments| <= |all| && segments == all[..|segments|]
      invariant forall i :: 0 <= i < |segments| ==> ValidSegment(segments[i])
      invariant if last then |segments| == |all| else SplitAll(remaining) == all[|segments|..]
      decreases !last, |remaining|
    {
      var end := FindSlash(remaining);
      var segment := remaining[..end];
      SplitAllStep(remaining);
      assert segment == all[|segments|..][0] == all[|segments|];
      var valid := ValidateSegment(segment);
      if !valid {
        return None;
      }
      assert all[|segments|..][1..] == all[|segments| + 1..];
      segments := segments + [segment];
      last := end == |remaining|;
      if !last {
        remaining := remaining[end + 1..];
      }
    }
    pieces := Some(segments);
  }
}
