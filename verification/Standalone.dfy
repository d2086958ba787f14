/**
 Standalone bundles: an archive and a footer that names, measures and hashes it (src/payload.cc:317-360,
 tools/embed_payloads.cc:169-230 and 373-387). The hash function is a parameter.
 */
module Standalone {
  import opened Wrappers
  import opened Utf8
  import opened LittleEndian
  import opened Pieces
  import opened Payload
  import opened Bundle

  type HashFunction = seq<byte> -> Hash

  // ----- Writing

  /** An input file: what was measured and hashed when it was listed, and what is there when it is copied. */
  datatype BundleEntry = BundleEntry(destination: seq<byte>, size: nat, hash: Hash, data: seq<byte>)

  datatype Location = Location(offset: nat, length: nat, hash: Hash)

  function Packed(entries: seq<BundleEntry>): (ms: seq<Member>)
    ensures |ms| == |entries|
  {
    seq(|entries|, i requires 0 <= i < |entries| => PackedOne(entries[i]))
  }

  function PackedOne(e: BundleEntry): Member {
    Member(e.destination, PRIVATE_MODE, e.hash, e.data)
  }

  predicate Unchanged(entries: seq<BundleEntry>) {
    forall i :: 0 <= i < |entries| ==> |entries[i].data| == entries[i].size
  }

  predicate CanName(name: seq<byte>) {
    |name| < NAME_SIZE && forall i :: 0 <= i < |name| ==> name[i] != 0
  }

  function Padded(name: seq<byte>): (bytes: seq<byte>)
    requires |name| <= NAME_SIZE
    ensures |bytes| == NAME_SIZE
  {
    name + seq(NAME_SIZE - |name|, i => 0)
  }

  function FooterBytes(name: seq<byte>, offset: nat, length: nat, hash: Hash): (bytes: seq<byte>)
    requires |name| <= NAME_SIZE
    ensures |bytes| == FOOTER_ENTRY_SIZE
  {
    Padded(name) + Encoded(offset, 8) + Encoded(length, 8) + hash
  }

  /** The output file, and what the digest of the bundle at hand has taken in. */
  class Output {
    var stream: seq<byte>
    var digested: seq<byte>

    constructor ()
      ensures stream == [] && digested == []
    {
      stream, digested := [], [];
    }

    method Write(bytes: seq<byte>, digest: bool)
      modifies this
      ensures stream == old(stream) + bytes
      ensures digested == if digest then old(digested) + bytes else old(digested)
    {
      stream := stream + bytes;
      if digest {
        digested := digested + bytes;
      }
    }

    method WriteLittleEndian(value: nat, size: nat, digest: bool)
      modifies this
      ensures stream == old(stream) + Encoded(value, size)
      ensures digested == if digest then old(digested) + Encoded(value, size) else old(digested)
    {
      var bytes := LittleEndian.Write(value, size);
      Write(bytes, digest);
    }

    /** One entry; false when the file is no longer as long as it was. */
    method WriteEntry(e: BundleEntry) returns (ok: bool)
      modifies this
      ensures ok <==> |e.data| == e.size
      ensures ok ==> stream == old(stream) + MemberBytes(PackedOne(e))
      ensures ok ==> digested == old(digested) + MemberBytes(PackedOne(e))
      ensures old(stream) <= stream
    {
      WriteLittleEndian(|e.destination|, 4, true);
      WriteLittleEndian(PRIVATE_MODE, 4, true);
      WriteLittleEndian(e.size, 8, true);
      Write(e.hash, true);
      Write(e.destination, true);
      Write(e.data, true);
      Regroup(old(stream), e);
      Regroup(old(digested), e);
      return |e.data| == e.size;
    }

    /** All entries, one behind the other, after what the ghost parameters say is already there. */
    method WriteEntries(entries: seq<BundleEntry>, ghost start: seq<byte>, ghost head: seq<byte>) returns (ok: bool)
      requires stream == start + (head + []) && digested == head + []
      modifies this
      ensures ok <==> Unchanged(entries)
      ensures var all := Spelled(Layout(Packed(entries)), |entries|);
              ok ==> stream == start + (head + all) && digested == head + all
      ensures old(stream) <= stream
    {
      ghost var pieces := Layout(Packed(entries));
      for i := 0 to |entries|
        invariant stream == start + (head + Spelled(pieces, i)) && digested == head + Spelled(pieces, i)
        invariant forall j :: 0 <= j < i ==> |entries[j].data| == entries[j].size
      {
        ok := WriteEntry(entries[i]);
        if !ok {
          return;
        }
        LayoutAt(Packed(entries), i);
        Chain(start, head, Spelled(pieces, i), MemberBytes(PackedOne(entries[i])));
      }
      return true;
    }

    /** WriteBundle: None instead of an error. */
    method WriteBundle(magic: Magic, entries: seq<BundleEntry>, hashOf: HashFunction)
      returns (result: Option<Location>)
      modifies this
      ensures result.Some? <==> Unchanged(entries)
      ensures var bundle := BundleBytes(magic, Packed(entries));
              result.Some? ==>
                && stream == old(stream) + bundle
                && result.value == Location(|old(stream)|, |bundle|, hashOf(bundle))
      ensures old(stream) <= stream
    {
      var offset := |stream|;
      digested := [];
      Write(magic, true);
      WriteLittleEndian(|entries|, 4, true);
      ghost var head := magic + Encoded(|entries|, 4);
      ghost var start := old(stream);
      assert stream == start + (head + []) && digested == head + [];
      var ok := WriteEntries(entries, start, head);
      if !ok {
        return None;
      }
      return Some(Location(offset, |stream| - offset, hashOf(digested)));
    }

    /** WriteFooterEntry: false instead of the error. */
    method WriteFooterEntry(name: seq<byte>, offset: nat, length: nat, hash: Hash) returns (ok: bool)
      modifies this
      ensures ok <==> |name| < NAME_SIZE
      ensures ok ==> stream == old(stream) + FooterBytes(name, offset, length, hash)
      ensures !ok ==> stream == old(stream)
    {
      if |name| >= NAME_SIZE {
        return false;
      }
      Write(Padded(name), false);
      WriteLittleEndian(offset, 8, false);
      WriteLittleEndian(length, 8, false);
      Write(hash, false);
      RegroupFooter(old(stream), name, offset, length, hash);
      return true;
    }

    /** A standalone bundle: the archive, then its footer. */
    method WriteStandalone(name: seq<byte>, magic: Magic, entries: seq<BundleEntry>, hashOf: HashFunction)
      returns (ok: bool)
      requires stream == [] && PayloadMagic(name) == Some(magic)
      modifies this
      ensures ok <==> Unchanged(entries)
      ensures ok ==> stream == StandaloneBytes(name, magic, Packed(entries), hashOf)
    {
      var result := WriteBundle(magic, entries, hashOf);
      if result.None? {
        return false;
      }
      ok := WriteFooterEntry(name, result.value.offset, result.value.length, result.value.hash);
    }
  }

  lemma Regroup(before: seq<byte>, e: BundleEntry)
    ensures |e.data| == e.size ==>
              before + Encoded(|e.destination|, 4) + Encoded(PRIVATE_MODE, 4) + Encoded(e.size, 8) + e.hash
              + e.destination + e.data
              == before + MemberBytes(PackedOne(e))
  {
    var path, mode, size := Encoded(|e.destination|, 4), Encoded(PRIVATE_MODE, 4), Encoded(e.size, 8);
    assert before + path + mode + size + e.hash + e.destination + e.data
        == before + (path + mode + size + e.hash + e.destination + e.data);
  }

  lemma Chain(start: seq<byte>, head: seq<byte>, front: seq<byte>, next: seq<byte>)
    ensures start + (head + front) + next == start + (head + (front + next))
    ensures head + front + next == head + (front + next)
  {
  }

  lemma RegroupFooter(before: seq<byte>, name: seq<byte>, offset: nat, length: nat, hash: Hash)
    requires |name| <= NAME_SIZE
    ensures before + Padded(name) + Encoded(offset, 8) + Encoded(length, 8) + hash
         == before + FooterBytes(name, offset, length, hash)
  {
    var p, o, l := Padded(name), Encoded(offset, 8), Encoded(length, 8);
    assert before + p + o + l + hash == before + (p + o + l + hash);
  }

  // ----- Names

  const CUDA: seq<byte> := [0x63, 0x75, 0x64, 0x61]
  const ROCM: seq<byte> := [0x72, 0x6F, 0x63, 0x6D]

  function PayloadMagic(name: seq<byte>): Option<Magic> {
    if name == CUDA then Some([0x4C, 0x4C, 0x4D, 0x43, 0x55, 0x44, 0x30, 0x32])
    else if name == ROCM then Some([0x4C, 0x4C, 0x4D, 0x52, 0x4F, 0x43, 0x30, 0x32])
    else None
  }

  function StandaloneBytes(name: seq<byte>, magic: Magic, ms: seq<Member>, hashOf: HashFunction): seq<byte>
    requires |name| <= NAME_SIZE
  {
    var bundle := BundleBytes(magic, ms);
    bundle + FooterBytes(name, 0, |bundle|, hashOf(bundle))
  }

  // ----- Finding

  datatype Find = Absent | Refused | Found(location: Location)

  /** A file that ends with a footer for all that precedes it. */
  predicate HasFooter(file: seq<byte>, name: seq<byte>, hash: Hash)
    requires |name| <= NAME_SIZE
  {
    && FOOTER_ENTRY_SIZE + 8 <= |file|
    && At(file, |file| - FOOTER_ENTRY_SIZE, FooterBytes(name, 0, |file| - FOOTER_ENTRY_SIZE, hash))
  }

  /** What the footer says the hash is. */
  function FooterHash(file: seq<byte>): Hash
    requires HASH_SIZE <= |file|
  {
    file[|file| - HASH_SIZE..]
  }

  predicate IsBundle(file: seq<byte>, name: seq<byte>) {
    PayloadMagic(name).Some? && 8 <= |file| && file[..8] == PayloadMagic(name).value
  }

  predicate Verified(file: seq<byte>, verify: bool, hashOf: HashFunction)
    requires FOOTER_ENTRY_SIZE <= |file|
  {
    verify ==> hashOf(file[..|file| - FOOTER_ENTRY_SIZE]) == FooterHash(file)
  }

  /** Where the archive of a file that starts like a bundle is, unless its footer is wrong. */
  function LocationOf(file: seq<byte>, name: seq<byte>, verify: bool, hashOf: HashFunction): Find
    requires |name| <= NAME_SIZE
  {
    if && |file| >= FOOTER_ENTRY_SIZE + 8 && HasFooter(file, name, FooterHash(file))
       && Verified(file, verify, hashOf)
    then Found(Location(0, |file| - FOOTER_ENTRY_SIZE, FooterHash(file)))
    else Refused
  }

  lemma FooterParts(file: seq<byte>, at: nat, name: seq<byte>, offset: nat, length: nat, hash: Hash)
    requires |name| <= NAME_SIZE
    ensures At(file, at, FooterBytes(name, offset, length, hash)) <==>
              && At(file, at, Padded(name)) && At(file, at + 16, Encoded(offset, 8))
              && At(file, at + 24, Encoded(length, 8)) && At(file, at + 32, hash)
  {
    var p, o, l := Padded(name), Encoded(offset, 8), Encoded(length, 8);
    TwoParts(file, at, p + o + l, hash);
    TwoParts(file, at, p + o, l);
    TwoParts(file, at, p, o);
  }

  /** The footer's name field holds the name, followed by nothing but zeros. */
  method NameMatches(footer: seq<byte>, name: seq<byte>) returns (matches: bool)
    requires |footer| == FOOTER_ENTRY_SIZE && CanName(name)
    ensures matches <==> At(footer, 0, Padded(name))
  {
    var nameLength: nat := 0;
    while nameLength < NAME_SIZE && footer[nameLength] != 0
      invariant nameLength <= NAME_SIZE && forall k :: 0 <= k < nameLength ==> footer[k] != 0
    {
      nameLength := nameLength + 1;
    }
    NameLength(footer, name, nameLength);
    if nameLength == NAME_SIZE || footer[..nameLength] != name {
      return false;
    }
    for i := nameLength to NAME_SIZE
      invariant forall k :: nameLength <= k < i ==> footer[k] == 0
    {
      if footer[i] != 0 {
        assert Padded(name)[i] == 0;
        return false;
      }
    }
    return true;
  }

  lemma NameLength(footer: seq<byte>, name: seq<byte>, nameLength: nat)
    requires |footer| == FOOTER_ENTRY_SIZE && CanName(name) && nameLength <= NAME_SIZE
    requires forall k :: 0 <= k < nameLength ==> footer[k] != 0
    requires nameLength < NAME_SIZE ==> footer[nameLength] == 0
    ensures At(footer, 0, Padded(name)) ==> nameLength == |name| && footer[..nameLength] == name
    ensures footer[..nameLength] == name && (forall k :: nameLength <= k < NAME_SIZE ==> footer[k] == 0) ==>
              At(footer, 0, Padded(name))
  {
    var padded := Padded(name);
    assert forall k :: 0 <= k < |name| ==> padded[k] == name[k];
    assert forall k :: |name| <= k < NAME_SIZE ==> padded[k] == 0;
    if At(footer, 0, padded) {
      forall k | 0 <= k < NAME_SIZE ensures footer[k] == padded[k] {
        assert footer[0 + k] == padded[k];
      }
      var m := if nameLength < |name| then nameLength else |name|;
      assert footer[m] == 0 <==> m == nameLength;
      assert padded[m] == 0 <==> m == |name|;
    } else if footer[..nameLength] == name {
      assert forall k :: 0 <= k < |name| ==> footer[k] == footer[..nameLength][k];
    }
  }

  /** FindStandalonePayload; a refusal instead of an error. */
  method FindStandalonePayload(file: seq<byte>, name: seq<byte>, verify: bool, hashOf: HashFunction) returns (found: Find)
    requires |file| < Power(8)
    ensures PayloadMagic(name).None? ==> found == Refused
    ensures PayloadMagic(name).Some? && !IsBundle(file, name) ==> found == Absent
    ensures IsBundle(file, name) ==> found == LocationOf(file, name, verify, hashOf)
  {
    var magic := PayloadMagic(name);
    if magic.None? {
      return Refused;
    }
    if |file| < |magic.value| || file[..8] != magic.value {
      return Absent;
    }
    if |file| < FOOTER_ENTRY_SIZE + |magic.value| {
      return Refused;
    }
    var body := |file| - FOOTER_ENTRY_SIZE;
    var matches := FooterMatches(file, body, name);
    if !matches {
      return Refused;
    }
    var hash := file[body + 32..];
    assert hash == FooterHash(file);
    if verify && hashOf(file[..body]) != hash {
      return Refused;
    }
    return Found(Location(0, body, hash));
  }

  /** The name and the range in the footer are right. */
  method FooterMatches(file: seq<byte>, body: nat, name: seq<byte>) returns (matches: bool)
    requires body + FOOTER_ENTRY_SIZE == |file| < Power(8) && 8 <= body && PayloadMagic(name).Some?
    ensures matches <==> HasFooter(file, name, FooterHash(file))
  {
    var footer := file[body..];
    FooterIs(file, body, name);
    SamePart(file, body, footer, 0, Padded(name));
    var nameMatches := NameMatches(footer, name);
    if !nameMatches {
      return false;
    }
    FooterFields(file, body, footer);
    matches := FieldsMatch(footer, body);
  }

  lemma FooterFields(file: seq<byte>, body: nat, footer: seq<byte>)
    requires body + FOOTER_ENTRY_SIZE == |file| < Power(8) && footer == file[body..]
    ensures Value(footer, 16, 24) == 0 <==> At(file, body + 16, Encoded(0, 8))
    ensures Value(footer, 24, 32) == body <==> At(file, body + 24, Encoded(body, 8))
  {
    FieldIs(file, body + 16, footer, 16, 0);
    FieldIs(file, body + 24, footer, 24, body);
  }

  /** Whose hash is right is decided later; the rest of a footer is its name and its two numbers. */
  lemma FooterIs(file: seq<byte>, body: nat, name: seq<byte>)
    requires body + FOOTER_ENTRY_SIZE == |file| && 8 <= body && |name| <= NAME_SIZE
    ensures HasFooter(file, name, FooterHash(file)) <==>
              At(file, body, Padded(name)) && At(file, body + 16, Encoded(0, 8)) && At(file, body + 24, Encoded(body, 8))
  {
    FooterParts(file, body, name, 0, body, FooterHash(file));
    AtSlice(file, body + 32, FooterHash(file));
  }

  /** The bundle starts the file and ends where the footer begins. */
  method FieldsMatch(footer: seq<byte>, body: nat) returns (match_: bool)
    requires |footer| == FOOTER_ENTRY_SIZE
    ensures match_ <==> Value(footer, 16, 24) == 0 && Value(footer, 24, 32) == body
  {
    var offset := LittleEndian.Read(footer, 16, 8);
    var length := LittleEndian.Read(footer, 24, 8);
    match_ := offset.value == 0 && length.value == body;
  }

  lemma SamePart(file: seq<byte>, at: nat, part: seq<byte>, from: nat, bytes: seq<byte>)
    requires at <= |file| && part == file[at..] && from + |bytes| <= |part|
    ensures At(part, from, bytes) <==> At(file, at + from, bytes)
  {
    assert forall k {:trigger bytes[k]} :: 0 <= k < |bytes| ==> part[from + k] == file[at + from + k];
  }

  /** A field holds a value exactly when the value's bytes are there. */
  lemma FieldIs(file: seq<byte>, at: nat, footer: seq<byte>, from: nat, value: nat)
    requires from <= at && at - from <= |file| && footer == file[at - from..] && from + 8 <= |footer| && value < Power(8)
    ensures Value(footer, from, from + 8) == value <==> At(file, at, Encoded(value, 8))
  {
    SamePart(file, at - from, footer, from, Encoded(value, 8));
    EncodedValue(footer, from, 8);
    if At(footer, from, Encoded(value, 8)) {
      RoundTrip(value, footer, from, 8);
    }
  }

  // ----- Round trips

  /**
   A bundle is found exactly where the file is what precedes its footer and the footer that belongs to it, with the
   hash of what precedes it if that is verified.
   */
  lemma FoundMeaning(
    file: seq<byte>, name: seq<byte>, verify: bool, hashOf: HashFunction, length: nat, hash: Hash)
    requires |name| <= NAME_SIZE
    ensures LocationOf(file, name, verify, hashOf) == Found(Location(0, length, hash))
       <==> && 8 <= length <= |file| && file == file[..length] + FooterBytes(name, 0, length, hash)
            && (verify ==> hashOf(file[..length]) == hash)
  {
    if length + FOOTER_ENTRY_SIZE == |file| {
      FooterHashIs(file, name, length, hash);
      assert file[..length] + file[length..] == file;
      AtSlice(file, length, FooterBytes(name, 0, length, hash));
      assert file[length..] == file[length..length + FOOTER_ENTRY_SIZE];
    }
  }

  lemma FooterHashIs(file: seq<byte>, name: seq<byte>, length: nat, hash: Hash)
    requires |name| <= NAME_SIZE && length + FOOTER_ENTRY_SIZE == |file|
    ensures At(file, length, FooterBytes(name, 0, length, hash))
       <==> At(file, length, FooterBytes(name, 0, length, FooterHash(file))) && FooterHash(file) == hash
  {
    FooterParts(file, length, name, 0, length, hash);
    AtSlice(file, length + 32, hash);
  }

  /** Any change of the packed bytes that changes their hash is refused. */
  lemma CorruptionRefused(
    name: seq<byte>, magic: Magic, ms: seq<Member>, hashOf: HashFunction, changed: seq<byte>)
    requires PayloadMagic(name) == Some(magic) && |changed| == |BundleBytes(magic, ms)|
    requires hashOf(changed) != hashOf(BundleBytes(magic, ms))
    ensures var bundle := BundleBytes(magic, ms);
            LocationOf(changed + FooterBytes(name, 0, |bundle|, hashOf(bundle)), name, true, hashOf) == Refused
  {
    var bundle := BundleBytes(magic, ms);
    var file := changed + FooterBytes(name, 0, |bundle|, hashOf(bundle));
    var length := |file| - FOOTER_ENTRY_SIZE;
    assert file[..length] == changed;
    AtSlice(file, length, FooterBytes(name, 0, |bundle|, hashOf(bundle)));
    FooterParts(file, length, name, 0, length, hashOf(bundle));
    AtSlice(file, length + 32, hashOf(bundle));
  }

  /** What WriteStandalone writes is found, with its hash verified. */
  lemma StandaloneFound(name: seq<byte>, magic: Magic, ms: seq<Member>, hashOf: HashFunction)
    requires PayloadMagic(name) == Some(magic)
    ensures var file := StandaloneBytes(name, magic, ms, hashOf);
            && IsBundle(file, name) && |file| >= FOOTER_ENTRY_SIZE + 8
            && FooterHash(file) == hashOf(BundleBytes(magic, ms))
            && HasFooter(file, name, FooterHash(file)) && Verified(file, true, hashOf)
            && At(file, 0, BundleBytes(magic, ms)) && |file| == |BundleBytes(magic, ms)| + FOOTER_ENTRY_SIZE
    ensures forall verify :: LocationOf(StandaloneBytes(name, magic, ms, hashOf), name, verify, hashOf)
              == Found(Location(0, |BundleBytes(magic, ms)|, hashOf(BundleBytes(magic, ms))))
  {
    var bundle, file := BundleBytes(magic, ms), StandaloneBytes(name, magic, ms, hashOf);
    var footer := FooterBytes(name, 0, |bundle|, hashOf(bundle));
    assert At(file, 0, bundle + footer);
    TwoParts(file, 0, bundle, footer);
    FooterParts(file, |bundle|, name, 0, |bundle|, hashOf(bundle));
    AtSlice(file, |bundle| + 32, hashOf(bundle));
    AtSlice(file, 0, bundle);
    BundleParts(file, 0, magic, ms);
    AtSlice(file, 0, magic);
  }

  /**
   A standalone bundle is written, found and read back as the members it was made of, exactly when they are within the
   reader's limits: the writer itself does not enforce them.
   */
  lemma StandaloneRoundTrip(name: seq<byte>, magic: Magic, ms: seq<Member>, hashOf: HashFunction)
    requires PayloadMagic(name) == Some(magic) && AllFit(ms)
    ensures var file := StandaloneBytes(name, magic, ms, hashOf);
            && HasFooter(file, name, hashOf(BundleBytes(magic, ms)))
            && Inside(file, 0, |file| - FOOTER_ENTRY_SIZE)
            && ReadArchive(file, 0, |file| - FOOTER_ENTRY_SIZE, magic) ==
               if Acceptable(ms) then Some(Entries(ms, 0, |ms|)) else None
  {
    StandaloneFound(name, magic, ms, hashOf);
    ArchiveRoundTrip(StandaloneBytes(name, magic, ms, hashOf), 0, magic, ms);
  }
}
