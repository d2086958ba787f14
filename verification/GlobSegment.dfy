/** One segment of a glob: its syntax, its meaning, and the matcher of src/glob.cc:60-145. */
module GlobSegment {
  import opened Wrappers
  import opened Utf8
  import opened Wildcard

  const STAR: byte := '*' as int
  const QUESTION: byte := '?' as int
  const OPEN: byte := '[' as int
  const CLOSE: byte := ']' as int
  const BACKSLASH: byte := '\\' as int
  const DASH: byte := '-' as int
  const BANG: byte := '!' as int
  const CARET: byte := '^' as int

  datatype Range = Range(low: nat, high: nat)

  /** What stands for exactly one character. */
  datatype Atom = Any | Literal(c: nat) | Class(negated: bool, ranges: seq<Range>)

  /** What was read at a position of the pattern, and where reading continues. */
  datatype Parsed<+T> = Parsed(value: T, next: nat)

  predicate InRanges(ranges: seq<Range>, c: nat) {
    exists i :: 0 <= i < |ranges| && ranges[i].low <= c <= ranges[i].high
  }

  predicate Accepts(atom: Atom, c: nat) {
    match atom
    case Any => true
    case Literal(d) => d == c
    case Class(negated, ranges) => InRanges(ranges, c) != negated
  }

  // ----- Syntax: how a matcher reads a pattern

  /** A character, possibly behind a backslash. */
  function ReadCharacter(p: seq<byte>, i: nat): (r: Option<Parsed<nat>>)
    requires i < |p|
    ensures r.Some? ==> i < r.value.next <= |p|
  {
    var at := if p[i] == BACKSLASH then i + 1 else i;
    if at == |p| then None
    else var d := Decode(p, at); Some(Parsed(d.value, d.next))
  }

  /** A member of a set: one character, or two joined by a dash that is not last in the set. */
  function ReadMember(p: seq<byte>, i: nat): (r: Option<Parsed<Range>>)
    requires i < |p|
    ensures r.Some? ==> i < r.value.next <= |p|
  {
    var low := ReadCharacter(p, i);
    if low.None? then None
    else
      var j := low.value.next;
      if j + 1 < |p| && p[j] == DASH && p[j + 1] != CLOSE then
        var high := ReadCharacter(p, j + 1);
        if high.None? then None
        else Some(Parsed(Range(low.value.value, high.value.value), high.value.next))
      else
        Some(Parsed(Range(low.value.value, low.value.value), j))
  }

  /** Members up to the closing bracket, which is literal when it comes first; None if the set never closes. */
  function ReadMembers(p: seq<byte>, i: nat, first: bool): (r: Option<Parsed<seq<Range>>>)
    requires i <= |p|
    ensures r.Some? ==> i < r.value.next <= |p| && p[r.value.next - 1] == CLOSE
    decreases |p| - i
  {
    if i == |p| then None
    else if !first && p[i] == CLOSE then Some(Parsed([], i + 1))
    else
      var member := ReadMember(p, i);
      if member.None? then None
      else
        var rest := ReadMembers(p, member.value.next, false);
        if rest.None? then None
        else Some(Parsed([member.value.value] + rest.value.value, rest.value.next))
  }

  predicate Negates(p: seq<byte>, i: nat) {
    i < |p| && (p[i] == BANG || p[i] == CARET)
  }

  /** The item at i. */
  function ReadItem(p: seq<byte>, i: nat): (r: Option<Parsed<Item<Atom>>>)
    requires i < |p|
    ensures r.Some? ==> i < r.value.next <= |p|
  {
    if p[i] == STAR then Some(Parsed(Star, i + 1))
    else if p[i] == QUESTION then Some(Parsed(One(Any), i + 1))
    else if p[i] == OPEN then
      var negated := Negates(p, i + 1);
      var members := ReadMembers(p, if negated then i + 2 else i + 1, true);
      if members.None? then None
      else Some(Parsed(One(Class(negated, members.value.value)), members.value.next))
    else
      var c := ReadCharacter(p, i);
      if c.None? then None else Some(Parsed(One(Literal(c.value.value)), c.value.next))
  }

  /** The items from i to the end of the pattern; None when a set or an escape is unfinished. */
  function ReadItems(p: seq<byte>, i: nat): Option<seq<Item<Atom>>>
    requires i <= |p|
    decreases |p| - i
  {
    if i == |p| then Some([])
    else
      var item := ReadItem(p, i);
      if item.None? then None
      else
        var rest := ReadItems(p, item.value.next);
        if rest.None? then None else Some([item.value.value] + rest.value)
  }

  // ----- Meaning

  /** The characters of a text from byte position i. */
  function CodePoints(text: seq<byte>, i: nat): seq<nat>
    requires i <= |text|
    decreases |text| - i
  {
    if i == |text| then []
    else var d := Decode(text, i); [d.value] + CodePoints(text, d.next)
  }

  /** A segment pattern denotes the texts whose characters its items can share out. */
  ghost predicate SegmentMatches(p: seq<byte>, text: seq<byte>) {
    ReadItems(p, 0).Some? && Matches(Accepts, ReadItems(p, 0).value, CodePoints(text, 0))
  }

  /** The bytes of a character: its encoding, or the byte that it stands for. */
  function Spelling(c: nat): seq<byte>
    requires IsScalar(c) || 0xDC80 <= c <= 0xDCFF
  {
    if IsScalar(c) then Encode(c) else [c - 0xDC00]
  }

  predicate Spellable(chars: seq<nat>) {
    forall i :: 0 <= i < |chars| ==> IsScalar(chars[i]) || 0xDC80 <= chars[i] <= 0xDCFF
  }

  function SpellAll(chars: seq<nat>): seq<byte>
    requires Spellable(chars)
  {
    if chars == [] then [] else Spelling(chars[0]) + SpellAll(chars[1..])
  }

  /** The characters of a text spell the text, so different texts have different characters. */
  lemma {:induction false} CharactersSpell(text: seq<byte>, i: nat)
    requires i <= |text|
    ensures Spellable(CodePoints(text, i)) && SpellAll(CodePoints(text, i)) == text[i..]
    decreases |text| - i
  {
    if i < |text| {
      var d := Decode(text, i);
      CharactersSpell(text, d.next);
      SpellOne(text, i);
      SpellCons(d.value, CodePoints(text, d.next));
      assert text[i..] == text[i..d.next] + text[d.next..];
    }
  }

  lemma SpellOne(text: seq<byte>, i: nat)
    requires i < |text|
    ensures var d := Decode(text, i);
            (IsScalar(d.value) || 0xDC80 <= d.value <= 0xDCFF) && Spelling(d.value) == text[i..d.next]
  {
    var d := Decode(text, i);
    EncodeDecoded(text, i);
    if !IsScalar(d.value) {
      assert text[i..d.next] == [text[i]];
    }
  }

  lemma SpellCons(c: nat, rest: seq<nat>)
    requires (IsScalar(c) || 0xDC80 <= c <= 0xDCFF) && Spellable(rest)
    ensures Spellable([c] + rest) && SpellAll([c] + rest) == Spelling(c) + SpellAll(rest)
  {
    assert ([c] + rest)[1..] == rest;
  }

  // ----- What the items mean

  /** A pattern of one item that is not a star matches the texts of one character that the item accepts. */
  lemma OneItem(p: seq<byte>, atom: Atom, text: seq<byte>)
    requires ReadItems(p, 0) == Some([One(atom)])
    ensures SegmentMatches(p, text) <==> |CodePoints(text, 0)| == 1 && Accepts(atom, CodePoints(text, 0)[0])
  {
    var items, chars := [One(atom)], CodePoints(text, 0);
    assert items[1..] == [];
    if chars != [] {
      assert Matches(Accepts, items[1..], chars[1..]) <==> chars[1..] == [];
    }
  }

  lemma LastItem(p: seq<byte>, item: Item<Atom>)
    requires p != [] && ReadItem(p, 0) == Some(Parsed(item, |p|))
    ensures ReadItems(p, 0) == Some([item])
  {
    var none: seq<Item<Atom>> := [];
    assert ReadItems(p, |p|) == Some(none);
    OneThenNone(item);
  }

  lemma OneThenNone<T>(x: T)
    ensures [x] + [] == [x]
  {
  }

  /** "?" matches any one character, and "*" everything. */
  lemma WildcardMeaning(text: seq<byte>)
    ensures SegmentMatches([QUESTION], text) <==> |CodePoints(text, 0)| == 1
    ensures SegmentMatches([STAR], text)
  {
    LastItem([QUESTION], One(Any));
    OneItem([QUESTION], Any, text);
    LastItem([STAR], Star);
    var star: seq<Item<Atom>> := [Star];
    var chars := CodePoints(text, 0);
    assert star[1..] == [] && chars[|chars|..] == [];
    assert Matches(Accepts, star[1..], chars[|chars|..]);
  }

  /** An ASCII character that means itself everywhere in a pattern. */
  predicate IsPlain(c: byte) {
    c < 0x80 && c != STAR && c != QUESTION && c != OPEN && c != CLOSE && c != BACKSLASH && c != BANG && c != CARET
  }

  lemma ReadsAscii(p: seq<byte>, i: nat)
    requires i < |p| && p[i] < 0x80
    ensures Decode(p, i) == Decoded(p[i], i + 1)
  {
  }

  /** A plain character, and any ASCII character behind a backslash, matches itself. */
  lemma LiteralMeaning(c: byte, text: seq<byte>)
    requires c < 0x80
    ensures IsPlain(c) ==> (SegmentMatches([c], text) <==> CodePoints(text, 0) == [c as nat])
    ensures SegmentMatches([BACKSLASH, c], text) <==> CodePoints(text, 0) == [c as nat]
  {
    if IsPlain(c) {
      ReadsAscii([c], 0);
      LastItem([c], One(Literal(c)));
      OneItem([c], Literal(c), text);
    }
    ReadsAscii([BACKSLASH, c], 1);
    LastItem([BACKSLASH, c], One(Literal(c)));
    OneItem([BACKSLASH, c], Literal(c), text);
  }

  /** A set with the range from a to b, perhaps negated. */
  function RangeSet(negation: seq<byte>, a: byte, b: byte): seq<byte> {
    [OPEN] + negation + [a, DASH, b, CLOSE]
  }

  lemma RangeSetReads(p: seq<byte>, i: nat, a: byte, b: byte)
    requires i + 4 == |p| && p[i..] == [a, DASH, b, CLOSE] && IsPlain(a) && IsPlain(b)
    ensures ReadMembers(p, i, true) == Some(Parsed([Range(a, b)], i + 4))
  {
    assert p[i] == p[i..][0] && p[i + 1] == p[i..][1] && p[i + 2] == p[i..][2] && p[i + 3] == p[i..][3];
    ReadsAscii(p, i);
    ReadsAscii(p, i + 2);
    assert ReadMember(p, i) == Some(Parsed(Range(a, b), i + 3));
    assert ReadMembers(p, i + 3, false) == Some(Parsed([], i + 4));
    OneThenNone(Range(a, b));
  }

  /** "[a-b]" matches the characters from a to b, and "[!a-b]" and "[^a-b]" all others. */
  lemma RangeMeaning(negation: seq<byte>, a: byte, b: byte, text: seq<byte>)
    requires negation in {[], [BANG], [CARET]} && IsPlain(a) && IsPlain(b)
    ensures SegmentMatches(RangeSet(negation, a, b), text)
       <==> |CodePoints(text, 0)| == 1 && (a <= CodePoints(text, 0)[0] <= b <==> negation == [])
  {
    var p := RangeSet(negation, a, b);
    var start := 1 + |negation|;
    assert p[start..] == [a, DASH, b, CLOSE];
    assert Negates(p, 1) <==> negation != [] by {
      assert negation == [] ==> p[1] == a;
      assert negation != [] ==> p[1] == negation[0];
    }
    RangeSetReads(p, start, a, b);
    var atom := Class(negation != [], [Range(a, b)]);
    LastItem(p, One(atom));
    OneItem(p, atom, text);
    if CodePoints(text, 0) != [] {
      assert [Range(a, b)][0] == Range(a, b);
      assert InRanges([Range(a, b)], CodePoints(text, 0)[0]) <==> a <= CodePoints(text, 0)[0] <= b;
    }
  }

  // ----- The validator

  /** The first unescaped closing bracket at or after i, or the end of the pattern. */
  function ScanClose(p: seq<byte>, i: nat): (end: nat)
    ensures end <= |p|
    ensures end < |p| ==> i <= end && p[end] == CLOSE
    decreases |p| - i
  {
    if i >= |p| then |p|
    else if p[i] == CLOSE then i
    else ScanClose(p, if p[i] == BACKSLASH then i + 2 else i + 1)
  }

  /** Where the validator sees the set that opens at i end: after an optional negation and a literal first bracket. */
  function ClassEnd(p: seq<byte>, i: nat): (end: nat)
    ensures end <= |p|
    ensures end < |p| ==> i < end && p[end] == CLOSE
  {
    var body := if Negates(p, i + 1) then i + 2 else i + 1;
    ScanClose(p, if body < |p| && p[body] == CLOSE then body + 1 else body)
  }

  /** The validator's own reading of escapes and sets, byte by byte. */
  predicate WellFormed(p: seq<byte>, i: nat)
    decreases |p| - i
  {
    if i >= |p| then true
    else if p[i] == BACKSLASH then i + 1 < |p| && WellFormed(p, i + 2)
    else if p[i] == OPEN then ClassEnd(p, i) < |p| && WellFormed(p, ClassEnd(p, i) + 1)
    else WellFormed(p, i + 1)
  }

  predicate ValidSegment(p: seq<byte>) {
    p != [] && p != ['.' as int] && p != ['.' as int, '.' as int] && WellFormed(p, 0)
  }

  /** Continuation bytes are invisible to a scan for brackets. */
  lemma {:induction false} ScanPastTail(p: seq<byte>, i: nat, next: nat)
    requires i <= next <= |p| && forall k :: i <= k < next ==> IsTail(p[k])
    ensures ScanClose(p, i) == ScanClose(p, next)
    ensures WellFormed(p, i) == WellFormed(p, next)
    decreases next - i
  {
    if i < next {
      ScanPastTail(p, i + 1, next);
    }
  }

  lemma ScanPastCharacter(p: seq<byte>, i: nat)
    requires i < |p|
    ensures var after := if p[i] == BACKSLASH then i + 2 else i + 1;
            var r := ReadCharacter(p, i);
            if r.None? then after > |p|
            else ScanClose(p, after) == ScanClose(p, r.value.next) && WellFormed(p, after) == WellFormed(p, r.value.next)
  {
    var at := if p[i] == BACKSLASH then i + 1 else i;
    if at < |p| {
      ScanPastTail(p, at + 1, Decode(p, at).next);
    }
  }

  lemma ScanPastMember(p: seq<byte>, i: nat)
    requires i < |p|
    ensures var after := if p[i] == BACKSLASH then i + 2 else i + 1;
            var r := ReadMember(p, i);
            ScanClose(p, after) == if r.None? then |p| else ScanClose(p, r.value.next)
  {
    ScanPastCharacter(p, i);
    var low := ReadCharacter(p, i);
    if low.Some? {
      var j := low.value.next;
      if j + 1 < |p| && p[j] == DASH && p[j + 1] != CLOSE {
        ScanPastDash(p, j);
      } else {
        assert ReadMember(p, i).Some? && ReadMember(p, i).value.next == j;
      }
    } else {
      assert ReadMember(p, i).None?;
    }
  }

  lemma ScanPastDash(p: seq<byte>, j: nat)
    requires j + 1 < |p| && p[j] == DASH && p[j + 1] != CLOSE
    ensures var high := ReadCharacter(p, j + 1);
            ScanClose(p, j) == if high.None? then |p| else ScanClose(p, high.value.next)
  {
    assert ScanClose(p, j) == ScanClose(p, j + 1);
    ScanPastCharacter(p, j + 1);
  }

  /** The set reader stops just past the bracket that the validator's scan finds, and fails when the scan does. */
  lemma {:induction false} SameBracket(p: seq<byte>, i: nat, first: bool)
    requires i <= |p|
    ensures var end := ScanClose(p, if first && i < |p| && p[i] == CLOSE then i + 1 else i);
            var r := ReadMembers(p, i, first);
            if r.None? then end == |p| else end + 1 == r.value.next
    decreases |p| - i
  {
    if i < |p| && (first || p[i] != CLOSE) {
      ScanPastMember(p, i);
      var member := ReadMember(p, i);
      if member.Some? {
        SameBracket(p, member.value.next, false);
      }
    }
  }

  /** One item further, the validator and the reader agree. */
  lemma ValidStep(p: seq<byte>, i: nat)
    requires i < |p|
    ensures WellFormed(p, i) <==> ReadItem(p, i).Some? && WellFormed(p, ReadItem(p, i).value.next)
  {
    if p[i] == OPEN {
      SameBracket(p, if Negates(p, i + 1) then i + 2 else i + 1, true);
    } else if p[i] != STAR && p[i] != QUESTION {
      ScanPastCharacter(p, i);
    }
  }

  /** The validator accepts exactly the patterns the matcher can read to the end. */
  lemma {:induction false} ValidIffReadable(p: seq<byte>, i: nat)
    requires i <= |p|
    ensures WellFormed(p, i) <==> ReadItems(p, i).Some?
    decreases |p| - i
  {
    if i < |p| {
      ValidStep(p, i);
      var item := ReadItem(p, i);
      if item.Some? {
        ValidIffReadable(p, item.value.next);
      }
    }
  }

  /** ValidateSegment: true instead of the error. */
  method ValidateSegment(segment: seq<byte>) returns (valid: bool)
    ensures valid <==> ValidSegment(segment)
  {
    if segment == [] || segment == ['.' as int] || segment == ['.' as int, '.' as int] {
      return false;
    }
    var index := 0;
    while index < |segment|
      invariant WellFormed(segment, index) == WellFormed(segment, 0)
      decreases |segment| - index
    {
      if segment[index] == BACKSLASH {
        index := index + 1;
        if index >= |segment| {
          return false;
        }
      } else if segment[index] == OPEN {
        var end := index + 1;
        if end < |segment| && (segment[end] == BANG || segment[end] == CARET) {
          end := end + 1;
        }
        if end < |segment| && segment[end] == CLOSE {
          end := end + 1;
        }
        while end < |segment| && segment[end] != CLOSE
          invariant index < end
          invariant ScanClose(segment, end) == ClassEnd(segment, index)
          decreases |segment| - end
        {
          end := end + if segment[end] == BACKSLASH then 2 else 1;
        }
        if end >= |segment| {
          return false;
        }
        index := end;
      }
      index := index + 1;
    }
    return true;
  }

  // ----- The matcher

  /** MatchClass: tests the set at pattern[index] and moves past its closing bracket. */
  method MatchClass(pattern: seq<byte>, index: nat, value: nat) returns (matched: bool, next: nat)
    requires index < |pattern| && pattern[index] == OPEN && ReadItem(pattern, index).Some?
    ensures ReadItem(pattern, index).value == Parsed(ReadItem(pattern, index).value.value, next)
    ensures matched <==> Accepts(ReadItem(pattern, index).value.value.atom, value)
  {
    next := index + 1;
    var negated := false;
    if next < |pattern| && (pattern[next] == BANG || pattern[next] == CARET) {
      negated := true;
      next := next + 1;
    }
    ghost var members := ReadMembers(pattern, next, true).value;
    matched := false;
    var first := true;
    while next < |pattern| && (first || pattern[next] != CLOSE)
      invariant next <= |pattern| && ReadMembers(pattern, next, first).Some?
      invariant ReadMembers(pattern, next, first).value.next == members.next
      invariant matched || InRanges(ReadMembers(pattern, next, first).value.value, value)
           <==> InRanges(members.value, value)
      decreases |pattern| - next
    {
      ghost var rest := ReadMembers(pattern, next, first).value.value;
      first := false;
      var low, high;
      low, high, next := NextMember(pattern, next);
      InRangesCons(Range(low, high), rest[1..], value);
      assert rest == [Range(low, high)] + rest[1..];
      matched := matched || low <= value <= high;
    }
    assert !InRanges([], value);
    next := next + 1;
    matched := matched != negated;
  }

  /** The loop body of MatchClass: one character, or a range of them. */
  method NextMember(pattern: seq<byte>, index: nat) returns (low: nat, high: nat, next: nat)
    requires index < |pattern| && ReadMember(pattern, index).Some?
    ensures ReadMember(pattern, index).value == Parsed(Range(low, high), next)
  {
    next := index;
    if pattern[next] == BACKSLASH {
      next := next + 1;
    }
    low, next := NextCodePoint(pattern, next);
    high := low;
    if next + 1 < |pattern| && pattern[next] == DASH && pattern[next + 1] != CLOSE {
      next := next + 1;
      if pattern[next] == BACKSLASH {
        next := next + 1;
      }
      high, next := NextCodePoint(pattern, next);
    }
  }

  lemma InRangesCons(range: Range, ranges: seq<Range>, c: nat)
    ensures InRanges([range] + ranges, c) <==> range.low <= c <= range.high || InRanges(ranges, c)
  {
    var all := [range] + ranges;
    if range.low <= c <= range.high {
      assert all[0] == range;
    }
    if i :| 0 <= i < |ranges| && ranges[i].low <= c <= ranges[i].high {
      assert all[i + 1] == ranges[i];
    }
  }

  /** MatchOne: matches one item that is not a star against one character. */
  method MatchOne(pattern: seq<byte>, patternIndex: nat, text: seq<byte>, textIndex: nat)
    returns (matched: bool, nextPattern: nat, nextText: nat)
    requires patternIndex < |pattern| && textIndex < |text|
    requires pattern[patternIndex] != STAR && ReadItem(pattern, patternIndex).Some?
    ensures nextText == Decode(text, textIndex).next
    ensures nextPattern == ReadItem(pattern, patternIndex).value.next
    ensures matched <==> Accepts(ReadItem(pattern, patternIndex).value.value.atom, Decode(text, textIndex).value)
  {
    var token := pattern[patternIndex];
    var value;
    value, nextText := NextCodePoint(text, textIndex);
    nextPattern := patternIndex;
    if token == QUESTION {
      return true, nextPattern + 1, nextText;
    }
    if token == OPEN {
      matched, nextPattern := MatchClass(pattern, nextPattern, value);
      return;
    }
    if token == BACKSLASH {
      nextPattern := nextPattern + 1;
    }
    var expected;
    expected, nextPattern := NextCodePoint(pattern, nextPattern);
    matched := expected == value;
  }

  ghost function ItemsAt(p: seq<byte>, i: nat): seq<Item<Atom>>
    requires i <= |p| && ReadItems(p, i).Some?
  {
    ReadItems(p, i).value
  }

  /** Reading past one item leaves the rest of the items. */
  lemma ItemsStep(p: seq<byte>, i: nat)
    requires i < |p| && ReadItems(p, i).Some?
    ensures var item := ReadItem(p, i);
            && item.Some?
            && ReadItems(p, item.value.next).Some?
            && ItemsAt(p, i) != []
            && ItemsAt(p, i)[0] == item.value.value
            && ItemsAt(p, i)[1..] == ItemsAt(p, item.value.next)
  {
  }

  /** Moves past a run of stars, which together mean one star. */
  method SkipStars(pattern: seq<byte>, index: nat, ghost text: seq<nat>) returns (next: nat)
    requires index < |pattern| && pattern[index] == STAR && ReadItems(pattern, index).Some?
    ensures index < next <= |pattern| && ReadItems(pattern, next).Some?
    ensures Matches(Accepts, ItemsAt(pattern, index), text)
       <==> Reachable(Accepts, ItemsAt(pattern, next), text, true, ItemsAt(pattern, next), text)
  {
    StarItem(pattern, index);
    next := MoreStars(pattern, index + 1, text);
    StarMet(ItemsAt(pattern, next), text);
  }

  method MoreStars(pattern: seq<byte>, index: nat, ghost text: seq<nat>) returns (next: nat)
    requires index <= |pattern| && ReadItems(pattern, index).Some?
    ensures index <= next <= |pattern| && ReadItems(pattern, next).Some?
    ensures StarThen(ItemsAt(pattern, index), text) <==> StarThen(ItemsAt(pattern, next), text)
  {
    next := index;
    while next < |pattern| && pattern[next] == STAR
      invariant index <= next <= |pattern| && ReadItems(pattern, next).Some?
      invariant StarThen(ItemsAt(pattern, index), text) <==> StarThen(ItemsAt(pattern, next), text)
    {
      OneStarOff(pattern, next, text);
      next := next + 1;
    }
  }

  /** The text matches a star followed by the items. */
  ghost predicate StarThen(items: seq<Item<Atom>>, text: seq<nat>) {
    Matches(Accepts, [Star] + items, text)
  }

  lemma StarItem(p: seq<byte>, i: nat)
    requires i < |p| && p[i] == STAR && ReadItems(p, i).Some?
    ensures ReadItems(p, i + 1).Some? && ItemsAt(p, i) == [Star] + ItemsAt(p, i + 1)
    ensures forall text :: Matches(Accepts, ItemsAt(p, i), text) <==> StarThen(ItemsAt(p, i + 1), text)
  {
    ItemsStep(p, i);
  }

  lemma OneStarOff(p: seq<byte>, i: nat, text: seq<nat>)
    requires i < |p| && p[i] == STAR && ReadItems(p, i).Some?
    ensures ReadItems(p, i + 1).Some?
    ensures StarThen(ItemsAt(p, i), text) <==> StarThen(ItemsAt(p, i + 1), text)
  {
    StarItem(p, i);
    var stars := [Star] + ItemsAt(p, i);
    StarsCollapse(Accepts, stars, text);
    assert stars[1..] == ItemsAt(p, i);
  }

  lemma StarMet(items: seq<Item<Atom>>, text: seq<nat>)
    ensures StarThen(items, text) <==> Reachable(Accepts, items, text, true, items, text)
  {
    var pat := [Star] + items;
    ForgetStar(Accepts, pat, text, false, pat, text, 0);
    assert pat[1..] == items;
  }

  /** The pattern is spent at index, up to stars that take nothing. */
  method OnlyStarsLeft(pattern: seq<byte>, index: nat) returns (spent: bool)
    requires index <= |pattern| && ReadItems(pattern, index).Some?
    ensures spent <==> Matches(Accepts, ItemsAt(pattern, index), [])
  {
    var next, k := StarsUpTo(pattern, index);
    ghost var items := ItemsAt(pattern, index);
    if next < |pattern| {
      ItemsStep(pattern, next);
      assert items[k].One?;
    }
    spent := next == |pattern|;
    EmptyText<Atom, nat>(Accepts, items);
  }

  /** Behind the run of stars at index; the ghost result counts them. */
  method StarsUpTo(pattern: seq<byte>, index: nat) returns (next: nat, ghost k: nat)
    requires index <= |pattern| && ReadItems(pattern, index).Some?
    ensures next <= |pattern| && (next < |pattern| ==> pattern[next] != STAR) && ReadItems(pattern, next).Some?
    ensures k <= |ItemsAt(pattern, index)| && ItemsAt(pattern, next) == ItemsAt(pattern, index)[k..]
    ensures forall i :: 0 <= i < k ==> ItemsAt(pattern, index)[i].Star?
  {
    next := index;
    ghost var items := ItemsAt(pattern, index);
    k := 0;
    while next < |pattern| && pattern[next] == STAR
      invariant next <= |pattern| && ReadItems(pattern, next).Some?
      invariant k <= |items| && ItemsAt(pattern, next) == items[k..]
      invariant forall i :: 0 <= i < k ==> items[i].Star?
    {
      ItemsStep(pattern, next);
      assert items[k] == Star && items[k..][1..] == items[k + 1..];
      next, k := next + 1, k + 1;
    }
  }

  /** Where a search over bytes stands: the loop variables of MatchSegment, in range and on item boundaries. */
  datatype Search = Search(pi: nat, ti: nat, starred: bool, sp: nat, st: nat)

  ghost predicate InBounds(p: seq<byte>, text: seq<byte>, s: Search) {
    && s.pi <= |p| && s.ti <= |text| && s.sp <= s.pi && s.st <= s.ti
    && (!s.starred ==> s.sp == 0 && s.st == 0)
    && ReadItems(p, s.pi).Some? && ReadItems(p, s.sp).Some?
  }

  /** The search stands d plain items past its star. */
  ghost predicate Paired(p: seq<byte>, text: seq<byte>, s: Search, d: nat)
    requires InBounds(p, text, s)
  {
    s.starred ==> Follows(ItemsAt(p, s.pi), CodePoints(text, s.ti), ItemsAt(p, s.sp), CodePoints(text, s.st), d)
  }

  /** The search can still succeed. */
  ghost predicate Hopeful(p: seq<byte>, text: seq<byte>, s: Search)
    requires InBounds(p, text, s)
  {
    Reachable(Accepts, ItemsAt(p, s.pi), CodePoints(text, s.ti), s.starred,
              ItemsAt(p, s.sp), CodePoints(text, s.st))
  }

  lemma MeetStar(p: seq<byte>, text: seq<byte>, s: Search, d: nat)
    requires InBounds(p, text, s) && Paired(p, text, s, d) && s.pi < |p| && p[s.pi] == STAR
    ensures Hopeful(p, text, s) <==> Matches(Accepts, ItemsAt(p, s.pi), CodePoints(text, s.ti))
  {
    ItemsStep(p, s.pi);
    ForgetStar(Accepts, ItemsAt(p, s.pi), CodePoints(text, s.ti), s.starred,
               ItemsAt(p, s.sp), CodePoints(text, s.st), d);
  }

  lemma TakeOne(p: seq<byte>, text: seq<byte>, s: Search, d: nat)
    requires InBounds(p, text, s) && Paired(p, text, s, d) && s.pi < |p| && p[s.pi] != STAR && s.ti < |text|
    requires ReadItem(p, s.pi).Some?
    requires Accepts(ReadItem(p, s.pi).value.value.atom, Decode(text, s.ti).value)
    ensures var next := s.(pi := ReadItem(p, s.pi).value.next, ti := Decode(text, s.ti).next);
            InBounds(p, text, next) && Paired(p, text, next, d + 1)
            && (Hopeful(p, text, s) <==> Hopeful(p, text, next))
  {
    ItemsStep(p, s.pi);
    StepOne(Accepts, ItemsAt(p, s.pi), CodePoints(text, s.ti), s.starred,
            ItemsAt(p, s.sp), CodePoints(text, s.st), d);
  }

  /** No item takes the next character. */
  ghost predicate Stuck(p: seq<byte>, text: seq<byte>, s: Search)
    requires InBounds(p, text, s)
  {
    && s.ti < |text|
    && (s.pi < |p| ==>
          p[s.pi] != STAR && ReadItem(p, s.pi).Some?
          && !Accepts(ReadItem(p, s.pi).value.value.atom, Decode(text, s.ti).value))
  }

  lemma FallBack(p: seq<byte>, text: seq<byte>, s: Search)
    requires InBounds(p, text, s) && Stuck(p, text, s)
    ensures !Matches(Accepts, ItemsAt(p, s.pi), CodePoints(text, s.ti))
    ensures s.starred ==>
              var st := Decode(text, s.st).next;
              var next := Search(s.sp, st, true, s.sp, st);
              InBounds(p, text, next) && Paired(p, text, next, 0)
              && (Hopeful(p, text, s) <==> Hopeful(p, text, next))
  {
    if s.pi < |p| {
      ItemsStep(p, s.pi);
    }
    assert !Matches(Accepts, ItemsAt(p, s.pi), CodePoints(text, s.ti));
    if s.starred {
      LengthenStar(Accepts, ItemsAt(p, s.pi), CodePoints(text, s.ti), ItemsAt(p, s.sp), CodePoints(text, s.st));
    }
  }

  lemma Exhausted(p: seq<byte>, text: seq<byte>, s: Search, d: nat)
    requires InBounds(p, text, s) && Paired(p, text, s, d) && s.ti == |text|
    ensures Hopeful(p, text, s) <==> Matches(Accepts, ItemsAt(p, s.pi), [])
  {
    TextExhausted(Accepts, ItemsAt(p, s.pi), s.starred, ItemsAt(p, s.sp), CodePoints(text, s.st), d);
  }

  /** MatchSegment: greedy matching that remembers only the latest star decides the declared meaning. */
  method MatchSegment(pattern: seq<byte>, text: seq<byte>) returns (matched: bool)
    requires ReadItems(pattern, 0).Some?
    ensures matched <==> SegmentMatches(pattern, text)
  {
    var patternIndex: nat, textIndex: nat := 0, 0;
    var starred, starPattern: nat, starText: nat := false, 0, 0;
    ghost var d: nat := 0;
    ghost var s := Search(0, 0, false, 0, 0);
    while textIndex < |text|
      invariant s == Search(patternIndex, textIndex, starred, starPattern, starText)
      invariant InBounds(pattern, text, s) && Paired(pattern, text, s, d)
      invariant SegmentMatches(pattern, text) <==> Hopeful(pattern, text, s)
      decreases |text| - starText, |pattern| - starPattern, |text| - textIndex
    {
      if patternIndex < |pattern| && pattern[patternIndex] == STAR {
        MeetStar(pattern, text, s, d);
        patternIndex := SkipStars(pattern, patternIndex, CodePoints(text, textIndex));
        starred, starPattern, starText, d := true, patternIndex, textIndex, 0;
      } else {
        var matchedOne, nextPattern, nextText := false, patternIndex, textIndex;
        if patternIndex < |pattern| {
          ItemsStep(pattern, patternIndex);
          matchedOne, nextPattern, nextText := MatchOne(pattern, patternIndex, text, textIndex);
        }
        if matchedOne {
          TakeOne(pattern, text, s, d);
          patternIndex, textIndex, d := nextPattern, nextText, d + 1;
        } else {
          FallBack(pattern, text, s);
          if !starred {
            return false;
          }
          var skipped;
          skipped, starText := NextCodePoint(text, starText);
          textIndex, patternIndex, d := starText, starPattern, 0;
        }
      }
      s := Search(patternIndex, textIndex, starred, starPattern, starText);
    }
    Exhausted(pattern, text, s, d);
    matched := OnlyStarsLeft(pattern, patternIndex);
  }
}
