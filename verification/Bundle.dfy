/** Whole archives, read back, and what the bytes of an accepted one are: src/payload.cc:371-431. */
module Bundle {
  import opened Wrappers
  import opened Utf8
  import opened LittleEndian
  import opened Payload
  import opened Pieces

  // ----- Archives

  datatype Reads = Reads(entries: seq<ArchiveEntry>, next: nat)

  /** The first n entries of a payload, and the cursor behind them. */
  function ReadEntries(file: seq<byte>, base: nat, length: nat, n: nat): (r: Option<Reads>)
    requires Inside(file, base, length) && HEADER_SIZE <= length
    ensures r.Some? ==> |r.value.entries| == n && r.value.next <= length
  {
    if n == 0 then Some(Reads([], HEADER_SIZE))
    else
      var before := ReadEntries(file, base, length, n - 1);
      if before.None? then None
      else Then(before.value, ReadMember(file, base, length, before.value.next))
  }

  function Then(before: Reads, r: Option<Read>): Option<Reads> {
    if r.None? then None else Some(Reads(before.entries + [r.value.entry], r.value.next))
  }

  /** The number of entries that a payload announces, if it is within the limits. */
  function Announced(file: seq<byte>, base: nat, length: nat, magic: Magic): (count: Option<nat>)
    requires Inside(file, base, length)
    ensures count.Some? ==> HEADER_SIZE <= length
  {
    if length < HEADER_SIZE || file[base..base + 8] != magic then None
    else
      var count := Value(file, base + 8, base + HEADER_SIZE);
      if count == 0 || count > MAX_COUNT then None else Some(count)
  }

  /** The announced entries, provided that nothing follows them. */
  function ReadCounted(file: seq<byte>, base: nat, length: nat, count: nat)
    : Option<seq<ArchiveEntry>>
    requires Inside(file, base, length) && HEADER_SIZE <= length
  {
    match ReadEntries(file, base, length, count)
    case None => None
    case Some(r) => if r.next != length then None else Some(r.entries)
  }

  function ReadArchive(file: seq<byte>, base: nat, length: nat, magic: Magic): Option<seq<ArchiveEntry>>
    requires Inside(file, base, length)
  {
    match Announced(file, base, length, magic)
    case None => None
    case Some(count) => ReadCounted(file, base, length, count)
  }

  /** Where the members of a bundle are. */
  function EntryAt(ms: seq<Member>, base: nat, i: nat): ArchiveEntry
    requires i < |ms|
  {
    EntryOf(ms[i], base + Cursor(ms, i) + ENTRY_HEADER_SIZE + |ms[i].path|)
  }

  function Entries(ms: seq<Member>, base: nat, n: nat): (entries: seq<ArchiveEntry>)
    requires n <= |ms|
    ensures |entries| == n
  {
    if n == 0 then [] else Entries(ms, base, n - 1) + [EntryAt(ms, base, n - 1)]
  }

  predicate AllFit(ms: seq<Member>) {
    forall i :: 0 <= i < |ms| ==> Fits(ms[i])
  }

  predicate ReadableUpTo(ms: seq<Member>, n: nat)
    requires n <= |ms|
  {
    forall i :: 0 <= i < n ==> Readable(ms[i])
  }

  lemma BundleParts(file: seq<byte>, base: nat, magic: Magic, ms: seq<Member>)
    ensures At(file, base, BundleBytes(magic, ms)) <==>
              && At(file, base, magic) && At(file, base + 8, Encoded(|ms|, 4))
              && At(file, base + HEADER_SIZE, Spelled(Layout(ms), |ms|))
  {
    TwoParts(file, base, magic + Encoded(|ms|, 4), Spelled(Layout(ms), |ms|));
    TwoParts(file, base, magic, Encoded(|ms|, 4));
  }

  function Cursor(ms: seq<Member>, i: nat): nat
    requires i <= |ms|
  {
    HEADER_SIZE + |Spelled(Layout(ms), i)|
  }

  lemma LayoutAt(ms: seq<Member>, i: nat)
    requires i < |ms|
    ensures Layout(ms)[i] == MemberBytes(ms[i])
  {
  }

  lemma BundleSize(magic: Magic, ms: seq<Member>)
    ensures |BundleBytes(magic, ms)| == Cursor(ms, |ms|)
  {
  }

  lemma MemberPlace(file: seq<byte>, base: nat, magic: Magic, ms: seq<Member>, i: nat)
    requires At(file, base, BundleBytes(magic, ms)) && i < |ms|
    ensures Cursor(ms, i) + |MemberBytes(ms[i])| == Cursor(ms, i + 1) <= |BundleBytes(magic, ms)|
    ensures At(file, base + Cursor(ms, i), MemberBytes(ms[i]))
  {
    var pieces, start := Layout(ms), base + HEADER_SIZE;
    assert At(file, start, Spelled(pieces, |pieces|)) by {
      BundleParts(file, base, magic, ms);
    }
    assert |BundleBytes(magic, ms)| == Cursor(ms, |ms|) by {
      BundleSize(magic, ms);
    }
    PieceAt(file, start, pieces, i);
    assert pieces[i] == MemberBytes(ms[i]) by {
      LayoutAt(ms, i);
    }
  }

  /** The result of reading the first n members one by one. */
  function EntriesRead(ms: seq<Member>, base: nat, n: nat): Option<Reads>
    requires n <= |ms|
  {
    if n == 0 then Some(Reads([], HEADER_SIZE))
    else
      var before := EntriesRead(ms, base, n - 1);
      if before.None? then None else Then(before.value, ReadOf(ms[n - 1], base, Cursor(ms, n - 1)))
  }

  lemma CursorStep(ms: seq<Member>, n: nat)
    requires 0 < n <= |ms|
    ensures Cursor(ms, n) == Cursor(ms, n - 1) + |MemberBytes(ms[n - 1])|
  {
    LayoutAt(ms, n - 1);
  }

  lemma ReadableStep(ms: seq<Member>, n: nat)
    requires 0 < n <= |ms|
    ensures ReadableUpTo(ms, n) <==> ReadableUpTo(ms, n - 1) && Readable(ms[n - 1])
  {
  }

  /** They are all there exactly when all are readable. */
  lemma {:induction false} EntriesReadMeaning(ms: seq<Member>, base: nat, n: nat)
    requires n <= |ms|
    ensures EntriesRead(ms, base, n) ==
            if ReadableUpTo(ms, n) then Some(Reads(Entries(ms, base, n), Cursor(ms, n))) else None
  {
    if n > 0 {
      EntriesReadMeaning(ms, base, n - 1);
      ReadOfMember(ms, base, n - 1);
      if ReadableUpTo(ms, n - 1) && Readable(ms[n - 1]) {
        ReadableStep(ms, n);
        assert Entries(ms, base, n) == Entries(ms, base, n - 1) + [EntryAt(ms, base, n - 1)];
      } else {
        assert !ReadableUpTo(ms, n) && EntriesRead(ms, base, n) == None;
      }
    }
  }

  lemma ReadOfMember(ms: seq<Member>, base: nat, i: nat)
    requires i < |ms|
    ensures ReadOf(ms[i], base, Cursor(ms, i)) ==
            if Readable(ms[i]) then Some(Read(EntryAt(ms, base, i), Cursor(ms, i + 1))) else None
  {
    CursorStep(ms, i + 1);
  }

  lemma MemberRead(file: seq<byte>, base: nat, magic: Magic, ms: seq<Member>, i: nat)
    requires At(file, base, BundleBytes(magic, ms)) && i < |ms| && Fits(ms[i])
    ensures ReadMember(file, base, |BundleBytes(magic, ms)|, Cursor(ms, i)) == ReadOf(ms[i], base, Cursor(ms, i))
  {
    MemberPlace(file, base, magic, ms, i);
    ReadWritten(file, base, |BundleBytes(magic, ms)|, Cursor(ms, i), ms[i]);
  }

  lemma {:induction false} EntriesOfBundle(file: seq<byte>, base: nat, magic: Magic, ms: seq<Member>, n: nat)
    requires At(file, base, BundleBytes(magic, ms)) && AllFit(ms) && n <= |ms|
    ensures ReadEntries(file, base, |BundleBytes(magic, ms)|, n) == EntriesRead(ms, base, n)
  {
    if n > 0 {
      EntriesOfBundle(file, base, magic, ms, n - 1);
      EntriesReadMeaning(ms, base, n - 1);
      MemberRead(file, base, magic, ms, n - 1);
    }
  }

  lemma CountField(ms: seq<Member>, file: seq<byte>, at: nat)
    requires At(file, at, Encoded(|ms|, 4))
    ensures Value(file, at, at + 4) <= |ms|
    ensures |ms| <= MAX_COUNT ==> Value(file, at, at + 4) == |ms|
  {
    ValueOfEncoded(|ms|, file, at, 4);
    assert Power(4) == 0x1_0000_0000 by {
      assert Power(2) == 65536;
    }
  }

  /** A bundle is read back as what was packed, exactly when it is within the reader's limits. */
  lemma ArchiveRoundTrip(file: seq<byte>, base: nat, magic: Magic, ms: seq<Member>)
    requires At(file, base, BundleBytes(magic, ms)) && AllFit(ms)
    ensures ReadArchive(file, base, |BundleBytes(magic, ms)|, magic) ==
            if Acceptable(ms) then Some(Entries(ms, base, |ms|)) else None
  {
    BundleSize(magic, ms);
    BundleParts(file, base, magic, ms);
    AtSlice(file, base, magic);
    CountField(ms, file, base + 8);
    var count := Value(file, base + 8, base + HEADER_SIZE);
    EntriesOfBundle(file, base, magic, ms, count);
    EntriesReadMeaning(ms, base, count);
    if count < |ms| {
      MemberPlace(file, base, magic, ms, count);
    }
  }

  /**
   Of the reader's limits the packer checks that paths are safe, and no other: then a bundle is refused exactly when
   it has no entries or too many, an empty file, or a path that is too long.
   */
  lemma PackedButRefused(file: seq<byte>, base: nat, magic: Magic, ms: seq<Member>)
    requires At(file, base, BundleBytes(magic, ms)) && AllFit(ms)
    requires forall i :: 0 <= i < |ms| ==> Safe(ms[i].path)
    ensures ReadArchive(file, base, |BundleBytes(magic, ms)|, magic) == None
       <==> ms == [] || |ms| > MAX_COUNT
            || exists i :: 0 <= i < |ms| && (ms[i].data == [] || |ms[i].path| > MAX_PATH)
  {
    ArchiveRoundTrip(file, base, magic, ms);
  }

  /** The smallest bundle of that kind: one without entries. */
  lemma EmptyBundleRefused(magic: Magic)
    ensures ReadArchive(BundleBytes(magic, []), 0, |BundleBytes(magic, [])|, magic) == None
  {
    ArchiveRoundTrip(BundleBytes(magic, []), 0, magic, []);
  }

  // ----- What is accepted was written

  lemma {:induction false} SpelledSame(a: seq<seq<byte>>, b: seq<seq<byte>>, n: nat)
    requires n <= |a| <= |b| && b[..|a|] == a
    ensures Spelled(b, n) == Spelled(a, n)
  {
    if n > 0 {
      SpelledSame(a, b, n - 1);
      assert b[n - 1] == b[..|a|][n - 1];
    }
  }

  lemma LayoutExtends(ms: seq<Member>, m: Member)
    ensures |ms + [m]| == |ms| + 1
    ensures Spelled(Layout(ms + [m]), |ms|) == Spelled(Layout(ms), |ms|)
    ensures Spelled(Layout(ms + [m]), |ms| + 1) == Spelled(Layout(ms), |ms|) + MemberBytes(m)
  {
    var longer := Layout(ms + [m]);
    assert longer[..|ms|] == Layout(ms);
    SpelledSame(Layout(ms), longer, |ms|);
    LayoutAt(ms + [m], |ms|);
  }

  lemma {:induction false} EntriesSame(ms: seq<Member>, m: Member, base: nat, n: nat)
    requires n <= |ms|
    ensures Entries(ms + [m], base, n) == Entries(ms, base, n)
  {
    if n > 0 {
      EntriesSame(ms, m, base, n - 1);
      assert Layout(ms + [m])[..|ms|] == Layout(ms);
      SpelledSame(Layout(ms), Layout(ms + [m]), n - 1);
    }
  }

  /** Members that the reader accepts, one behind the other. */
  predicate SpelledAt(file: seq<byte>, at: nat, ms: seq<Member>) {
    AllFit(ms) && ReadableUpTo(ms, |ms|) && At(file, at, Spelled(Layout(ms), |ms|))
  }

  lemma OneMoreSpelled(file: seq<byte>, at: nat, behind: nat, ms: seq<Member>, m: Member)
    requires SpelledAt(file, at, ms) && Fits(m) && Readable(m)
    requires behind == at + |Spelled(Layout(ms), |ms|)| && At(file, behind, MemberBytes(m))
    ensures SpelledAt(file, at, ms + [m])
  {
    LayoutGrows(file, at, behind, ms, m);
    MoreMembers(ms, m);
  }

  /** The first n entries are read from the members they stand for. */
  ghost predicate ReadFrom(file: seq<byte>, base: nat, length: nat, n: nat, ms: seq<Member>)
    requires Inside(file, base, length) && HEADER_SIZE <= length
  {
    && |ms| == n && SpelledAt(file, base + HEADER_SIZE, ms)
    && ReadEntries(file, base, length, n) == Some(ReadsOf(ms, base))
  }

  lemma MoreMembers(ms: seq<Member>, m: Member)
    requires AllFit(ms) && ReadableUpTo(ms, |ms|) && Fits(m) && Readable(m)
    ensures AllFit(ms + [m]) && ReadableUpTo(ms + [m], |ms| + 1)
  {
    var more := ms + [m];
    forall i | 0 <= i < |more| ensures Fits(more[i]) && Readable(more[i]) {
      assert i < |ms| ==> more[i] == ms[i];
    }
  }

  lemma EntriesExtend(ms: seq<Member>, m: Member, base: nat)
    ensures Cursor(ms + [m], |ms| + 1) == Cursor(ms, |ms|) + |MemberBytes(m)|
    ensures Entries(ms + [m], base, |ms| + 1) ==
            Entries(ms, base, |ms|) + [EntryOf(m, base + Cursor(ms, |ms|) + ENTRY_HEADER_SIZE + |m.path|)]
  {
    LayoutExtends(ms, m);
    EntriesSame(ms, m, base, |ms|);
  }

  lemma LayoutGrows(file: seq<byte>, at: nat, behind: nat, ms: seq<Member>, m: Member)
    requires At(file, at, Spelled(Layout(ms), |ms|))
    requires behind == at + |Spelled(Layout(ms), |ms|)| && At(file, behind, MemberBytes(m))
    ensures At(file, at, Spelled(Layout(ms + [m]), |ms| + 1))
  {
    LayoutExtends(ms, m);
    TwoParts(file, at, Spelled(Layout(ms), |ms|), MemberBytes(m));
  }

  lemma ReadEntriesNext(file: seq<byte>, base: nat, length: nat, n: nat, before: Reads, r: Read)
    requires Inside(file, base, length) && HEADER_SIZE <= length
    requires ReadEntries(file, base, length, n) == Some(before)
    requires ReadMember(file, base, length, before.next) == Some(r)
    ensures ReadEntries(file, base, length, n + 1) == Some(Reads(before.entries + [r.entry], r.next))
  {
  }

  lemma ReadsExtend(file: seq<byte>, base: nat, length: nat, ms: seq<Member>, m: Member)
    requires Inside(file, base, length) && HEADER_SIZE <= length
    requires ReadEntries(file, base, length, |ms|) == Some(ReadsOf(ms, base))
    requires ReadMember(file, base, length, Cursor(ms, |ms|)) == Some(ReadAt(m, base, Cursor(ms, |ms|)))
    ensures ReadEntries(file, base, length, |ms| + 1) == Some(ReadsOf(ms + [m], base))
  {
    ReadsAgree(ms, m, base);
    ReadEntriesNext(file, base, length, |ms|, ReadsOf(ms, base), ReadAt(m, base, Cursor(ms, |ms|)));
  }

  /** What reading all the members gives. */
  function ReadsOf(ms: seq<Member>, base: nat): Reads {
    Reads(Entries(ms, base, |ms|), Cursor(ms, |ms|))
  }

  lemma ReadsAgree(ms: seq<Member>, m: Member, base: nat)
    ensures var before, r := ReadsOf(ms, base), ReadAt(m, base, Cursor(ms, |ms|));
            ReadsOf(ms + [m], base) == Reads(before.entries + [r.entry], r.next)
  {
    EntriesExtend(ms, m, base);
  }

  lemma {:induction false} EntriesAreWritten(file: seq<byte>, base: nat, length: nat, n: nat)
    returns (ms: seq<Member>)
    requires Inside(file, base, length) && HEADER_SIZE <= length && ReadEntries(file, base, length, n).Some?
    ensures ReadFrom(file, base, length, n, ms)
  {
    if n == 0 {
      ms := [];
    } else {
      var before := EntriesAreWritten(file, base, length, n - 1);
      var m := MemberBehind(file, base, length, Cursor(before, n - 1));
      OneMoreSpelled(file, base + HEADER_SIZE, base + Cursor(before, n - 1), before, m);
      ReadsExtend(file, base, length, before, m);
      ms := before + [m];
    }
  }

  /** The member that is read at a cursor. */
  lemma MemberBehind(file: seq<byte>, base: nat, length: nat, cursor: nat) returns (m: Member)
    requires Inside(file, base, length) && ReadMember(file, base, length, cursor).Some?
    ensures Readable(m) && Fits(m) && At(file, base + cursor, MemberBytes(m))
    ensures ReadMember(file, base, length, cursor) == Some(ReadAt(m, base, cursor))
  {
    ReadIsWritten(file, base, length, cursor);
    m := MemberOf(file, ReadMember(file, base, length, cursor).value.entry);
  }

  lemma HeaderIsWritten(file: seq<byte>, base: nat, length: nat, magic: Magic, ms: seq<Member>)
    requires Inside(file, base, length) && Announced(file, base, length, magic) == Some(|ms|)
    requires At(file, base + HEADER_SIZE, Spelled(Layout(ms), |ms|))
    ensures At(file, base, BundleBytes(magic, ms)) && 1 <= |ms| <= MAX_COUNT
  {
    EncodedValue(file, base + 8, 4);
    AtSlice(file, base, magic);
    BundleParts(file, base, magic, ms);
  }

  /** A payload that is accepted is exactly the bundle of some members, and what was read describes them. */
  lemma ArchiveAccepted(file: seq<byte>, base: nat, length: nat, magic: Magic)
    returns (ms: seq<Member>)
    requires Inside(file, base, length) && ReadArchive(file, base, length, magic).Some?
    ensures Acceptable(ms) && AllFit(ms)
    ensures length == |BundleBytes(magic, ms)| && At(file, base, BundleBytes(magic, ms))
    ensures ReadArchive(file, base, length, magic) == Some(Entries(ms, base, |ms|))
  {
    ms := EntriesAreWritten(file, base, length, Announced(file, base, length, magic).value);
    HeaderIsWritten(file, base, length, magic, ms);
    BundleSize(magic, ms);
  }

  // ----- Reading step by step

  /** ReadExact: None instead of an error. */
  method ReadExact(file: seq<byte>, offset: nat, size: nat) returns (bytes: Option<seq<byte>>)
    ensures bytes == if offset + size <= |file| then Some(file[offset..offset + size]) else None
  {
    if offset + size > |file| {
      return None;
    }
    return Some(file[offset..offset + size]);
  }

  /** One round of ReadArchiveEntries; None instead of an error. */
  method NextEntry(file: seq<byte>, base: nat, length: nat, cursor0: nat) returns (r: Option<Read>)
    requires Inside(file, base, length)
    ensures r == ReadMember(file, base, length, cursor0)
  {
    var cursor := cursor0;
    if cursor > length || length - cursor < ENTRY_HEADER_SIZE {
      return None;
    }
    var header := ReadExact(file, base + cursor, ENTRY_HEADER_SIZE);
    var pathSize, mode, fileSize, hash := HeaderOf(file, base + cursor, header.value);
    cursor := cursor + ENTRY_HEADER_SIZE;
    if || pathSize == 0 || pathSize > MAX_PATH || cursor > length || pathSize > length - cursor
       || fileSize == 0
    {
      return None;
    }
    var path := ReadExact(file, base + cursor, pathSize);
    cursor := cursor + pathSize;
    var safe := SafeDestination(path.value);
    if !safe || cursor > length || fileSize > length - cursor {
      return None;
    }
    return Some(Read(ArchiveEntry(path.value, mode, fileSize, hash, base + cursor), cursor + fileSize));
  }

  /** The fields of an entry header. */
  method HeaderOf(ghost file: seq<byte>, ghost at: nat, header: seq<byte>)
    returns (pathSize: nat, mode: nat, fileSize: nat, hash: Hash)
    requires At(file, at, header) && |header| == ENTRY_HEADER_SIZE
    ensures pathSize == Value(file, at, at + 4) && mode == Value(file, at + 4, at + 8)
    ensures fileSize == Value(file, at + 8, at + 16) && hash == file[at + 16..at + 48]
  {
    var path := LittleEndian.Read(header, 0, 4);
    var permissions := LittleEndian.Read(header, 4, 4);
    var size := LittleEndian.Read(header, 8, 8);
    ValueOfPart(file, at, header, 0, 4);
    ValueOfPart(file, at, header, 4, 8);
    ValueOfPart(file, at, header, 8, 16);
    pathSize, mode, fileSize, hash := path.value, permissions.value, size.value, header[16..48];
    assert forall k :: 0 <= k < HASH_SIZE ==> hash[k] == header[16 + k];
    AtSlice(file, at + 16, hash);
  }

  method ReadHeader(file: seq<byte>, base: nat, length: nat, magic: Magic) returns (count: Option<nat>)
    requires Inside(file, base, length)
    ensures count == Announced(file, base, length, magic)
  {
    if length < HEADER_SIZE {
      return None;
    }
    var header := ReadExact(file, base, HEADER_SIZE);
    assert header.value[..8] == file[base..base + 8];
    if header.value[..8] != magic {
      return None;
    }
    count := LittleEndian.Read(header.value, 8, 4);
    ValueOfPart(file, base, header.value, 8, HEADER_SIZE);
    if count.value == 0 || count.value > MAX_COUNT {
      return None;
    }
  }

  /** ReadArchiveEntries: None instead of an error. */
  method ReadArchiveEntries(file: seq<byte>, base: nat, length: nat, magic: Magic)
    returns (entries: Option<seq<ArchiveEntry>>)
    requires Inside(file, base, length)
    ensures entries == ReadArchive(file, base, length, magic)
  {
    var count := ReadHeader(file, base, length, magic);
    if count.None? {
      return None;
    }
    var read := Reads([], HEADER_SIZE);
    for index := 0 to count.value
      invariant ReadEntries(file, base, length, index) == Some(read)
    {
      var next := NextEntry(file, base, length, read.next);
      if next.None? {
        NoneAfter(file, base, length, index + 1, count.value);
        return None;
      }
      read := Reads(read.entries + [next.value.entry], next.value.next);
    }
    if read.next != length {
      return None;
    }
    return Some(read.entries);
  }

  lemma {:induction false} NoneAfter(file: seq<byte>, base: nat, length: nat, n: nat, count: nat)
    requires Inside(file, base, length) && HEADER_SIZE <= length && n <= count
    requires ReadEntries(file, base, length, n).None?
    ensures ReadEntries(file, base, length, count).None?
    decreases count
  {
    if n < count {
      NoneAfter(file, base, length, n, count - 1);
    }
  }
}
