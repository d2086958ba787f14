/**
 The archive format of runtime bundles: safe paths, the layout of an entry (tools/embed_payloads.cc:198-225), and how
 one entry is read (src/payload.cc:382-425), with the constants of src/payload_format.h.
 */
module Payload {
  import opened Wrappers
  import opened Utf8
  import opened LittleEndian
  import opened Pieces
  import Glob

  const DOT: byte := '.' as int
  const HEADER_SIZE: nat := 12
  const ENTRY_HEADER_SIZE: nat := 48
  const HASH_SIZE: nat := 32
  const NAME_SIZE: nat := 16
  const FOOTER_ENTRY_SIZE: nat := 64
  const MAX_COUNT: nat := 100000
  const MAX_PATH: nat := 4096
  const PRIVATE_MODE: nat := 0x180

  type Hash = h: seq<byte> | |h| == HASH_SIZE witness seq(HASH_SIZE, i => 0)
  type Magic = m: seq<byte> | |m| == 8 witness seq(8, i => 0)

  // ----- Paths

  /** The components of a relative path: a trailing slash leaves an empty one, other empty pieces do not count. */
  function Components(path: seq<byte>): seq<seq<byte>> {
    Glob.Segments(path) + if path != [] && path[|path| - 1] == SLASH then [[]] else []
  }

  predicate Plain(component: seq<byte>) {
    component != [] && component != [DOT] && component != [DOT, DOT]
  }

  /** The first n components are plain. */
  predicate PlainUpTo(components: seq<seq<byte>>, n: nat)
    requires n <= |components|
  {
    n == 0 || (PlainUpTo(components, n - 1) && Plain(components[n - 1]))
  }

  /** Relative, and nothing in it leads elsewhere. */
  predicate Safe(path: seq<byte>) {
    path != [] && path[0] != SLASH && PlainUpTo(Components(path), |Components(path)|)
  }

  lemma {:induction false} PlainMeaning(components: seq<seq<byte>>, n: nat)
    requires n <= |components|
    ensures PlainUpTo(components, n) <==> forall i :: 0 <= i < n ==> Plain(components[i])
  {
    if n > 0 {
      PlainMeaning(components, n - 1);
    }
  }

  lemma {:induction false} NonEmptySegments(pieces: seq<seq<byte>>)
    ensures forall s :: s in Glob.NonEmpty(pieces) ==> s != []
  {
    if pieces != [] {
      NonEmptySegments(pieces[1..]);
    }
  }

  /** A safe path neither starts nor ends with a slash, and none of its segments stands for a directory or its parent. */
  lemma SafeMeaning(path: seq<byte>)
    ensures Safe(path)
       <==> && path != [] && path[0] != SLASH && path[|path| - 1] != SLASH
            && forall s :: s in Glob.Segments(path) ==> s != [DOT] && s != [DOT, DOT]
  {
    var components, segments := Components(path), Glob.Segments(path);
    PlainMeaning(components, |components|);
    NonEmptySegments(Glob.SplitAll(path));
    if path != [] && path[|path| - 1] == SLASH {
      assert !Plain(components[|segments|]);
    } else {
      assert components == segments;
      assert (forall i :: 0 <= i < |components| ==> Plain(components[i])) <==>
             (forall s :: s in segments ==> s != [DOT] && s != [DOT, DOT]) by {
        AllPlain(segments);
      }
    }
  }

  lemma AllPlain(segments: seq<seq<byte>>)
    requires forall s :: s in segments ==> s != []
    ensures (forall i :: 0 <= i < |segments| ==> Plain(segments[i])) <==>
            (forall s :: s in segments ==> s != [DOT] && s != [DOT, DOT])
  {
    if forall s :: s in segments ==> s != [DOT] && s != [DOT, DOT] {
      forall i | 0 <= i < |segments| ensures Plain(segments[i]) {
        assert segments[i] in segments;
      }
    }
    if forall i :: 0 <= i < |segments| ==> Plain(segments[i]) {
      forall s | s in segments ensures s != [DOT] && s != [DOT, DOT] {
        var i :| 0 <= i < |segments| && segments[i] == s;
        assert Plain(segments[i]);
      }
    }
  }

  method SafeDestination(path: seq<byte>) returns (safe: bool)
    ensures safe <==> Safe(path)
  {
    if path == [] || path[0] == SLASH {
      return false;
    }
    var parsed := Components(path);
    PlainMeaning(parsed, |parsed|);
    for i := 0 to |parsed|
      invariant PlainUpTo(parsed, i)
    {
      if parsed[i] == [DOT, DOT] || parsed[i] == [DOT] || parsed[i] == [] {
        return false;
      }
    }
    return true;
  }

  // ----- The format

  /** An entry with its contents. */
  datatype Member = Member(path: seq<byte>, mode: nat, hash: Hash, data: seq<byte>)

  datatype ArchiveEntry = ArchiveEntry(path: seq<byte>, mode: nat, size: nat, hash: Hash, dataOffset: nat)

  function MemberHeader(m: Member): (bytes: seq<byte>)
    ensures |bytes| == ENTRY_HEADER_SIZE
  {
    Encoded(|m.path|, 4) + Encoded(m.mode, 4) + Encoded(|m.data|, 8) + m.hash
  }

  function MemberBytes(m: Member): (bytes: seq<byte>)
    ensures |bytes| == ENTRY_HEADER_SIZE + |m.path| + |m.data|
  {
    MemberHeader(m) + m.path + m.data
  }

  function Layout(ms: seq<Member>): (pieces: seq<seq<byte>>)
    ensures |pieces| == |ms|
  {
    seq(|ms|, i requires 0 <= i < |ms| => MemberBytes(ms[i]))
  }

  function BundleBytes(magic: Magic, ms: seq<Member>): seq<byte> {
    magic + Encoded(|ms|, 4) + Spelled(Layout(ms), |ms|)
  }

  /** What the fields can hold. */
  predicate Fits(m: Member) {
    |m.path| < Power(4) && m.mode < Power(4) && |m.data| < Power(8)
  }

  /** What the reader accepts. */
  predicate Readable(m: Member) {
    0 < |m.path| <= MAX_PATH && Safe(m.path) && m.data != []
  }

  predicate Acceptable(ms: seq<Member>) {
    1 <= |ms| <= MAX_COUNT && forall i :: 0 <= i < |ms| ==> Readable(ms[i])
  }

  // ----- Reading one entry

  datatype Read = Read(entry: ArchiveEntry, next: nat)

  /** A stretch of a file. */
  predicate Inside(file: seq<byte>, base: nat, length: nat) {
    base + length <= |file|
  }

  /** The entry at the cursor of a payload that starts at base. */
  function ReadMember(file: seq<byte>, base: nat, length: nat, cursor: nat): (r: Option<Read>)
    requires Inside(file, base, length)
    ensures r.Some? ==> cursor < r.value.next <= length
  {
    if cursor > length || length - cursor < ENTRY_HEADER_SIZE then None
    else
      var at := base + cursor;
      ReadBody(file, base, length, cursor + ENTRY_HEADER_SIZE, Value(file, at, at + 4), Value(file, at + 4, at + 8),
               Value(file, at + 8, at + 16), file[at + 16..at + 48])
  }

  /** What follows an entry's header, given the fields of the header. */
  function ReadBody(
    file: seq<byte>, base: nat, length: nat, body: nat, pathSize: nat, mode: nat, size: nat, hash: Hash)
    : (r: Option<Read>)
    requires Inside(file, base, length) && body <= length
    ensures r.Some? ==> body < r.value.next <= length
  {
    if pathSize == 0 || pathSize > MAX_PATH || pathSize > length - body || size == 0 then None
    else
      var path, data := file[base + body..base + body + pathSize], body + pathSize;
      if !Safe(path) || size > length - data then None
      else Some(Read(ArchiveEntry(path, mode, size, hash, base + data), data + size))
  }

  /** The member an entry stands for. */
  function MemberOf(file: seq<byte>, e: ArchiveEntry): Member
    requires e.dataOffset + e.size <= |file|
  {
    Member(e.path, e.mode, e.hash, file[e.dataOffset..e.dataOffset + e.size])
  }

  function EntryOf(m: Member, dataOffset: nat): ArchiveEntry {
    ArchiveEntry(m.path, m.mode, |m.data|, m.hash, dataOffset)
  }

  lemma HeaderParts(file: seq<byte>, at: nat, m: Member)
    ensures At(file, at, MemberHeader(m)) <==>
              && At(file, at, Encoded(|m.path|, 4)) && At(file, at + 4, Encoded(m.mode, 4))
              && At(file, at + 8, Encoded(|m.data|, 8)) && At(file, at + 16, m.hash)
  {
    var path, mode, size := Encoded(|m.path|, 4), Encoded(m.mode, 4), Encoded(|m.data|, 8);
    TwoParts(file, at, path + mode + size, m.hash);
    TwoParts(file, at, path + mode, size);
    TwoParts(file, at, path, mode);
  }

  lemma HeaderFields(file: seq<byte>, at: nat, m: Member)
    requires At(file, at, MemberHeader(m)) && Fits(m)
    ensures Value(file, at, at + 4) == |m.path| && Value(file, at + 4, at + 8) == m.mode
    ensures Value(file, at + 8, at + 16) == |m.data| && file[at + 16..at + 48] == m.hash
  {
    HeaderParts(file, at, m);
    AtSlice(file, at + 16, m.hash);
    RoundTrip(|m.path|, file, at, 4);
    RoundTrip(m.mode, file, at + 4, 4);
    RoundTrip(|m.data|, file, at + 8, 8);
  }

  /** The three parts of a member. */
  lemma MemberParts(file: seq<byte>, at: nat, m: Member)
    ensures At(file, at, MemberBytes(m)) <==>
              && At(file, at, MemberHeader(m)) && At(file, at + ENTRY_HEADER_SIZE, m.path)
              && At(file, at + ENTRY_HEADER_SIZE + |m.path|, m.data)
  {
    TwoParts(file, at, MemberHeader(m) + m.path, m.data);
    TwoParts(file, at, MemberHeader(m), m.path);
  }

  /** What is read of a member at a cursor. */
  function ReadAt(m: Member, base: nat, cursor: nat): Read {
    Read(EntryOf(m, base + cursor + ENTRY_HEADER_SIZE + |m.path|), cursor + |MemberBytes(m)|)
  }

  /** What reading a member that starts at the cursor gives: nothing unless it is within the reader's limits. */
  function ReadOf(m: Member, base: nat, cursor: nat): Option<Read> {
    if Readable(m) then Some(ReadAt(m, base, cursor)) else None
  }

  lemma ReadWritten(file: seq<byte>, base: nat, length: nat, cursor: nat, m: Member)
    requires Inside(file, base, length) && cursor + |MemberBytes(m)| <= length && Fits(m)
    requires At(file, base + cursor, MemberBytes(m))
    ensures ReadMember(file, base, length, cursor) == ReadOf(m, base, cursor)
  {
    var body := cursor + ENTRY_HEADER_SIZE;
    MemberParts(file, base + cursor, m);
    BodyFollows(file, base, length, cursor, m);
    assert base + body == base + cursor + ENTRY_HEADER_SIZE;
    BodyWritten(file, base, length, body, m);
  }

  lemma BodyFollows(file: seq<byte>, base: nat, length: nat, cursor: nat, m: Member)
    requires Inside(file, base, length) && cursor + ENTRY_HEADER_SIZE <= length && Fits(m)
    requires At(file, base + cursor, MemberHeader(m))
    ensures ReadMember(file, base, length, cursor)
         == ReadBody(file, base, length, cursor + ENTRY_HEADER_SIZE, |m.path|, m.mode, |m.data|, m.hash)
  {
    HeaderFields(file, base + cursor, m);
  }

  lemma BodyWritten(file: seq<byte>, base: nat, length: nat, body: nat, m: Member)
    requires Inside(file, base, length) && body + |m.path| + |m.data| <= length
    requires At(file, base + body, m.path)
    ensures ReadBody(file, base, length, body, |m.path|, m.mode, |m.data|, m.hash) ==
            if Readable(m) then Some(Read(EntryOf(m, base + body + |m.path|), body + |m.path| + |m.data|)) else None
  {
    AtSlice(file, base + body, m.path);
  }

  lemma HeaderRead(file: seq<byte>, at: nat, m: Member)
    requires at + ENTRY_HEADER_SIZE <= |file|
    requires Value(file, at, at + 4) == |m.path| && Value(file, at + 4, at + 8) == m.mode
    requires Value(file, at + 8, at + 16) == |m.data| && file[at + 16..at + 48] == m.hash
    ensures At(file, at, MemberHeader(m)) && Fits(m)
  {
    ValueBound(file, at, at + 4);
    ValueBound(file, at + 4, at + 8);
    ValueBound(file, at + 8, at + 16);
    EncodedValue(file, at, 4);
    EncodedValue(file, at + 4, 4);
    EncodedValue(file, at + 8, 8);
    AtSlice(file, at + 16, m.hash);
    HeaderParts(file, at, m);
  }

  lemma BodyRead(
    file: seq<byte>, base: nat, length: nat, body: nat, pathSize: nat, mode: nat, size: nat, hash: Hash)
    requires Inside(file, base, length) && body <= length
    requires ReadBody(file, base, length, body, pathSize, mode, size, hash).Some?
    ensures var r := ReadBody(file, base, length, body, pathSize, mode, size, hash).value;
            && r.entry.dataOffset + r.entry.size == base + r.next <= |file|
            && r.next == body + pathSize + size
            && var m := MemberOf(file, r.entry);
               && Readable(m) && |m.path| == pathSize && m.mode == mode && |m.data| == size && m.hash == hash
               && At(file, base + body, m.path) && At(file, base + body + pathSize, m.data)
  {
  }

  /** Whatever is read, the bytes read are those of the member it stands for, which is within the limits. */
  lemma ReadIsWritten(file: seq<byte>, base: nat, length: nat, cursor: nat)
    requires Inside(file, base, length) && ReadMember(file, base, length, cursor).Some?
    ensures var r := ReadMember(file, base, length, cursor).value;
            && r.entry.dataOffset + r.entry.size == base + r.next <= |file|
            && var m := MemberOf(file, r.entry);
               && Readable(m) && Fits(m) && At(file, base + cursor, MemberBytes(m))
               && r == ReadOf(m, base, cursor).value
  {
    var r, at := ReadMember(file, base, length, cursor).value, base + cursor;
    BodyRead(file, base, length, cursor + ENTRY_HEADER_SIZE, Value(file, at, at + 4), Value(file, at + 4, at + 8),
             Value(file, at + 8, at + 16), file[at + 16..at + 48]);
    var m := MemberOf(file, r.entry);
    HeaderRead(file, at, m);
    MemberParts(file, at, m);
  }
}
