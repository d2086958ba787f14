/**
 Entropy records and the tokens they align to: src/jsonl.cc:147-208, and the rule that lets records be published,
 src/entropy_cache.cc:150-168.
 */
module Records {
  import opened Wrappers
  import opened Utf8
  import opened Tokens
  import opened Pieces

  datatype EntropyRecord = EntropyRecord(position: nat, bytes: seq<byte>, entropy: Option<real>)

  /** The first piece carries a space that is not part of the source. */
  predicate HasDummyPrefix(source: seq<byte>, bytes: seq<byte>) {
    bytes != [] && bytes[0] == SPACE && !(bytes <= source) && bytes[1..] <= source
  }

  /** The bytes each record stands for in the source. */
  function PiecesOf(source: seq<byte>, records: seq<EntropyRecord>): (pieces: seq<seq<byte>>)
    ensures |pieces| == |records|
  {
    seq(|records|, i requires 0 <= i < |records| => Piece(source, records[i].bytes, i == 0))
  }

  function Piece(source: seq<byte>, bytes: seq<byte>, first: bool): seq<byte> {
    if first && HasDummyPrefix(source, bytes) then bytes[1..] else bytes
  }

  /** The bytes of the records as they are. */
  function Plain(records: seq<EntropyRecord>): (pieces: seq<seq<byte>>)
    ensures |pieces| == |records|
  {
    seq(|records|, i requires 0 <= i < |records| => records[i].bytes)
  }

  // ----- Alignment

  predicate Aligns(source: seq<byte>, records: seq<EntropyRecord>) {
    && (forall i :: 0 <= i < |records| ==> records[i].bytes != [])
    && Spelled(PiecesOf(source, records), |records|) == source
  }

  /** A token for each of the first n pieces that is not empty. */
  function TokensUpTo(records: seq<EntropyRecord>, pieces: seq<seq<byte>>, n: nat): seq<Token>
    requires n <= |pieces| == |records|
  {
    if n == 0 then []
    else if pieces[n - 1] == [] then TokensUpTo(records, pieces, n - 1)
    else
      TokensUpTo(records, pieces, n - 1)
      + [Token(|Spelled(pieces, n - 1)|, |Spelled(pieces, n)|, records[n - 1].entropy)]
  }

  /** The tokens are those of the records named by their indices, which are the ones with any bytes left. */
  ghost predicate TokensOf(
    records: seq<EntropyRecord>, pieces: seq<seq<byte>>, n: nat, tokens: seq<Token>, from: seq<nat>)
    requires n <= |pieces| == |records|
  {
    && |from| == |tokens|
    && (forall j, k :: 0 <= j < k < |from| ==> from[j] < from[k])
    && (forall j :: 0 <= j < |from| ==> from[j] < n && tokens[j] == TokenOf(records, pieces, from[j]))
    && (forall i :: 0 <= i < n ==> (i in from <==> pieces[i] != []))
  }

  /** The token of the record: behind the pieces before it, with its score. */
  function TokenOf(records: seq<EntropyRecord>, pieces: seq<seq<byte>>, i: nat): Token
    requires i < |pieces| == |records|
  {
    Token(|Spelled(pieces, i)|, |Spelled(pieces, i + 1)|, records[i].entropy)
  }

  /** It covers the piece in what all of them spell. */
  lemma TokenSpells(records: seq<EntropyRecord>, pieces: seq<seq<byte>>, i: nat)
    requires i < |pieces| == |records|
    ensures var token, all := TokenOf(records, pieces, i), Spelled(pieces, |pieces|);
            && token.start <= token.end <= |all| && token.entropy == records[i].entropy
            && all[..token.start] == Spelled(pieces, i) && all[token.start..token.end] == pieces[i]
  {
    SpelledPrefix(pieces, i, |pieces|);
    SpelledPrefix(pieces, i + 1, |pieces|);
    var all, a, b := Spelled(pieces, |pieces|), Spelled(pieces, i), Spelled(pieces, i + 1);
    assert all[..|b|] == b && b == a + pieces[i];
    assert all[|a|..|b|] == b[|a|..];
  }

  /** Each record with bytes left has one token, in its place, for those bytes and with its score. */
  lemma {:induction false} TokensListed(records: seq<EntropyRecord>, pieces: seq<seq<byte>>, n: nat)
    returns (from: seq<nat>)
    requires n <= |pieces| == |records|
    ensures TokensOf(records, pieces, n, TokensUpTo(records, pieces, n), from)
  {
    if n == 0 {
      from := [];
    } else {
      var front := TokensListed(records, pieces, n - 1);
      from := ListNext(records, pieces, n, front);
    }
  }

  lemma ListNext(records: seq<EntropyRecord>, pieces: seq<seq<byte>>, n: nat, from: seq<nat>) returns (more: seq<nat>)
    requires 0 < n <= |pieces| == |records|
    requires TokensOf(records, pieces, n - 1, TokensUpTo(records, pieces, n - 1), from)
    ensures TokensOf(records, pieces, n, TokensUpTo(records, pieces, n), more)
  {
    var before, next := TokensUpTo(records, pieces, n - 1), TokensUpTo(records, pieces, n);
    if pieces[n - 1] == [] {
      more := from;
      assert next == before;
    } else {
      assert next == before + [TokenOf(records, pieces, n - 1)];
      more := from + [n - 1];
      ListOne(records, pieces, n, before, from, next);
    }
  }

  lemma ListOne(
    records: seq<EntropyRecord>, pieces: seq<seq<byte>>, n: nat, tokens: seq<Token>, from: seq<nat>, next: seq<Token>)
    requires 0 < n <= |pieces| == |records| && TokensOf(records, pieces, n - 1, tokens, from)
    requires pieces[n - 1] != [] && next == tokens + [TokenOf(records, pieces, n - 1)]
    ensures TokensOf(records, pieces, n, next, from + [n - 1])
  {
    IndexOne(from, n - 1);
    TokenOne(records, pieces, n, tokens, from, next);
    MemberOne(pieces, n, from);
  }

  lemma TokenOne(
    records: seq<EntropyRecord>, pieces: seq<seq<byte>>, n: nat, tokens: seq<Token>, from: seq<nat>, next: seq<Token>)
    requires 0 < n <= |pieces| == |records| && |from| == |tokens|
    requires next == tokens + [TokenOf(records, pieces, n - 1)]
    requires forall j :: 0 <= j < |from| ==> from[j] < n - 1 && tokens[j] == TokenOf(records, pieces, from[j])
    ensures var more := from + [n - 1];
            forall j :: 0 <= j < |more| ==> more[j] < n && next[j] == TokenOf(records, pieces, more[j])
  {
  }

  lemma MemberOne(pieces: seq<seq<byte>>, n: nat, from: seq<nat>)
    requires 0 < n <= |pieces| && pieces[n - 1] != []
    requires forall i :: 0 <= i < n - 1 ==> (i in from <==> pieces[i] != [])
    ensures forall i :: 0 <= i < n ==> (i in from + [n - 1] <==> pieces[i] != [])
  {
  }

  lemma IndexOne(from: seq<nat>, last: nat)
    requires (forall j, k :: 0 <= j < k < |from| ==> from[j] < from[k]) && forall j :: 0 <= j < |from| ==> from[j] < last
    ensures var more := from + [last]; forall j, k :: 0 <= j < k < |more| ==> more[j] < more[k]
  {
  }

  /** Tokens that cover the bytes up to the end without gap or overlap. */
  ghost predicate Tiles(tokens: seq<Token>, end: nat) {
    && (if tokens == [] then end == 0 else tokens[0].start == 0 && tokens[|tokens| - 1].end == end)
    && (forall i :: 0 <= i < |tokens| ==> tokens[i].start < tokens[i].end)
    && (forall i, j :: 0 <= i < j < |tokens| && j == i + 1 ==> tokens[i].end == tokens[j].start)
  }

  lemma {:induction false} TokensTile(records: seq<EntropyRecord>, pieces: seq<seq<byte>>, n: nat)
    requires n <= |pieces| == |records|
    ensures Tiles(TokensUpTo(records, pieces, n), |Spelled(pieces, n)|)
  {
    if n > 0 {
      TokensTile(records, pieces, n - 1);
    }
  }

  lemma TilesOk(tokens: seq<Token>, end: nat)
    requires Tiles(tokens, end)
    ensures TokensOk(tokens) && SourceEnd(tokens) == end
  {
    forall i, j | 0 <= i < j < |tokens| ensures tokens[i].end <= tokens[j].start {
      TilesAscend(tokens, end, i, j);
    }
  }

  lemma {:induction false} TilesAscend(tokens: seq<Token>, end: nat, i: nat, j: nat)
    requires Tiles(tokens, end) && i < j < |tokens|
    ensures tokens[i].end <= tokens[j].start
    decreases j
  {
    assert tokens[j - 1].end == tokens[j].start;
    if i + 1 < j {
      TilesAscend(tokens, end, i, j - 1);
    }
  }

  function Align(source: seq<byte>, records: seq<EntropyRecord>): Option<seq<Token>> {
    if Aligns(source, records) then Some(TokensUpTo(records, PiecesOf(source, records), |records|)) else None
  }

  /**
   What aligns spells the source, or the source behind one space that a tokenizer has put there, unless the source
   begins with the first piece all the same.
   */
  lemma AlignsMeaning(source: seq<byte>, records: seq<EntropyRecord>)
    ensures Aligns(source, records)
       <==> && (forall i :: 0 <= i < |records| ==> records[i].bytes != [])
            && var all := Spelled(Plain(records), |records|);
               || all == source
               || (records != [] && all == [SPACE] + source && !(records[0].bytes <= source))
  {
    if records == [] || records[0].bytes == [] {
      assert records == [] ==> PiecesOf(source, records) == Plain(records);
    } else if HasDummyPrefix(source, records[0].bytes) {
      DropsPrefix(source, records);
    } else {
      KeepsPrefix(source, records);
    }
  }

  lemma FirstPiece(records: seq<EntropyRecord>)
    requires records != []
    ensures records[0].bytes <= Spelled(Plain(records), |records|)
  {
    SpelledFirst(Plain(records));
  }

  lemma DropsPrefix(source: seq<byte>, records: seq<EntropyRecord>)
    requires records != [] && HasDummyPrefix(source, records[0].bytes)
    ensures var all := Spelled(Plain(records), |records|);
            && all != source && (Spelled(PiecesOf(source, records), |records|) == source <==> all == [SPACE] + source)
  {
    FirstPiece(records);
    SpelledDropped(Plain(records), PiecesOf(source, records), |records|);
    var all := Spelled(Plain(records), |records|);
    assert all == [all[0]] + all[1..] && all[0] == SPACE;
  }

  lemma KeepsPrefix(source: seq<byte>, records: seq<EntropyRecord>)
    requires records != [] && records[0].bytes != [] && !HasDummyPrefix(source, records[0].bytes)
    ensures PiecesOf(source, records) == Plain(records)
    ensures Spelled(Plain(records), |records|) == [SPACE] + source ==> records[0].bytes <= source
  {
    FirstPiece(records);
    if Spelled(Plain(records), |records|) == [SPACE] + source {
      BehindSpace(records[0].bytes, source);
    }
  }

  lemma BehindSpace(first: seq<byte>, source: seq<byte>)
    requires first != [] && first <= [SPACE] + source
    ensures first[0] == SPACE && first[1..] <= source
  {
    var all := [SPACE] + source;
    assert first == all[..|first|];
    assert first[1..] == source[..|first| - 1];
  }

  /** Dropping the first byte of the first piece drops the first byte of all that they spell. */
  lemma {:induction false} SpelledDropped(a: seq<seq<byte>>, b: seq<seq<byte>>, n: nat)
    requires 0 < n <= |a| == |b| && a[0] != [] && b[0] == a[0][1..] && forall i :: 0 < i < |a| ==> a[i] == b[i]
    ensures Spelled(a, n) != [] && Spelled(b, n) == Spelled(a, n)[1..]
  {
    if n == 1 {
      assert Spelled(a, 1) == a[0] && Spelled(b, 1) == b[0];
    } else {
      SpelledDropped(a, b, n - 1);
    }
  }

  /** AlignTokens: None instead of an error. */
  method AlignTokens(source: seq<byte>, records: seq<EntropyRecord>) returns (tokens: Option<seq<Token>>)
    ensures tokens == Align(source, records)
    ensures tokens.Some? ==> Tiles(tokens.value, |source|)
  {
    ghost var pieces := PiecesOf(source, records);
    var offset: nat := 0;
    var found: seq<Token> := [];
    for i := 0 to |records|
      invariant Aligned(source, records, pieces, i, offset, found)
    {
      var bytes := records[i].bytes;
      if bytes == [] {
        return None;
      }
      if i == 0 && bytes[0] == SPACE && !(bytes <= source) && bytes[1..] <= source {
        bytes := bytes[1..];
      }
      assert bytes == pieces[i];
      AlignedStep(source, records, pieces, i, offset, found);
      if bytes != [] {
        var end := offset + |bytes|;
        if end > |source| || source[offset..end] != bytes {
          return None;
        }
        found := found + [Token(offset, end, records[i].entropy)];
        offset := end;
      }
    }
    AlignedEnd(source, records, pieces, offset, found);
    if offset != |source| {
      return None;
    }
    return Some(found);
  }

  /** Up to record i, the records have spelled the source up to the offset, and the tokens found are right. */
  ghost predicate Aligned(
    source: seq<byte>, records: seq<EntropyRecord>, pieces: seq<seq<byte>>, i: nat, offset: nat, found: seq<Token>)
  {
    && i <= |records| && pieces == PiecesOf(source, records)
    && offset <= |source| && Spelled(pieces, i) == source[..offset]
    && (forall j :: 0 <= j < i ==> records[j].bytes != [])
    && found == TokensUpTo(records, pieces, i)
  }

  lemma AlignedStep(
    source: seq<byte>, records: seq<EntropyRecord>, pieces: seq<seq<byte>>, i: nat, offset: nat, found: seq<Token>)
    requires Aligned(source, records, pieces, i, offset, found) && i < |records| && records[i].bytes != []
    ensures pieces[i] == [] ==> Aligned(source, records, pieces, i + 1, offset, found)
    ensures var end := offset + |pieces[i]|;
            if end <= |source| && source[offset..end] == pieces[i]
            then pieces[i] != [] ==>
              Aligned(source, records, pieces, i + 1, end, found + [Token(offset, end, records[i].entropy)])
            else !Aligns(source, records)
  {
    NextPiece(source, pieces, i, offset);
  }

  lemma AlignedEnd(
    source: seq<byte>, records: seq<EntropyRecord>, pieces: seq<seq<byte>>, offset: nat, found: seq<Token>)
    requires Aligned(source, records, pieces, |records|, offset, found)
    ensures Align(source, records) == if offset == |source| then Some(found) else None
    ensures offset == |source| ==> Tiles(found, |source|)
  {
    if offset == |source| {
      assert source[..offset] == source;
    }
    TokensTile(records, pieces, |records|);
  }

  // ----- The dummy prefix

  /** The records after NormalizeDummyPrefix: the space goes, unless it is all the first piece has. */
  function Normalized(source: seq<byte>, records: seq<EntropyRecord>): seq<EntropyRecord> {
    if records != [] && HasDummyPrefix(source, records[0].bytes) && |records[0].bytes| > 1
    then records[0 := records[0].(bytes := records[0].bytes[1..])]
    else records
  }

  method NormalizeDummyPrefix(source: seq<byte>, records: array<EntropyRecord>) returns (changed: bool)
    modifies records
    ensures records[..] == Normalized(source, old(records[..]))
    ensures changed <==> records[..] != old(records[..])
  {
    if records.Length == 0 {
      return false;
    }
    var bytes := records[0].bytes;
    if bytes == [] || bytes[0] != SPACE || bytes <= source || !(bytes[1..] <= source) {
      return false;
    }
    if |bytes| == 1 {
      return false;
    }
    assert |bytes[1..]| < |bytes|;
    records[0] := records[0].(bytes := bytes[1..]);
    assert records[..][0] != old(records[..])[0];
    return true;
  }

  /** Normalizing changes nothing about the tokens, nor whether the records align. */
  lemma AlignNormalized(source: seq<byte>, records: seq<EntropyRecord>)
    ensures Align(source, Normalized(source, records)) == Align(source, records)
  {
    var n := Normalized(source, records);
    if n != records {
      assert PiecesOf(source, n) == PiecesOf(source, records);
      forall k | 0 <= k <= |records|
        ensures TokensUpTo(n, PiecesOf(source, n), k) == TokensUpTo(records, PiecesOf(source, records), k)
      {
        SameEntropies(n, records, PiecesOf(source, records), k);
      }
      assert forall i :: 0 <= i < |n| ==> (n[i].bytes == [] <==> records[i].bytes == []);
    }
  }

  lemma {:induction false} SameEntropies(
    a: seq<EntropyRecord>, b: seq<EntropyRecord>, pieces: seq<seq<byte>>, n: nat)
    requires |a| == |b| == |pieces| && n <= |a|
    requires forall i :: 0 <= i < |a| ==> a[i].entropy == b[i].entropy
    ensures TokensUpTo(a, pieces, n) == TokensUpTo(b, pieces, n)
  {
    if n > 0 {
      SameEntropies(a, b, pieces, n - 1);
    }
  }

  // ----- Completeness

  predicate Scored(record: EntropyRecord, i: nat) {
    && record.position == i && record.bytes != []
    && (record.entropy.None? ==> i == 0)
    && (record.entropy.Some? ==> record.entropy.value >= 0.0)
  }

  predicate AllScored(records: seq<EntropyRecord>) {
    forall i :: 0 <= i < |records| ==> Scored(records[i], i)
  }

  /** Records in order, with a score on all but perhaps the first, whose bytes spell the source. */
  predicate Complete(source: seq<byte>, records: seq<EntropyRecord>) {
    AllScored(records) && Spelled(Plain(records), |records|) == source
  }

  method IsComplete(source: seq<byte>, records: seq<EntropyRecord>) returns (complete: bool)
    ensures complete <==> Complete(source, records)
  {
    ghost var pieces := Plain(records);
    var offset: nat := 0;
    for i := 0 to |records|
      invariant offset <= |source| && Spelled(pieces, i) == source[..offset]
      invariant forall j :: 0 <= j < i ==> Scored(records[j], j)
    {
      var record := records[i];
      NextPiece(source, pieces, i, offset);
      if || record.position != i || record.bytes == []
         || (record.entropy.None? && i != 0)
         || (record.entropy.Some? && record.entropy.value < 0.0)
         || |record.bytes| > |source| - offset
         || source[offset..offset + |record.bytes|] != record.bytes
      {
        return false;
      }
      offset := offset + |record.bytes|;
    }
    assert offset == |source| ==> source[..offset] == source;
    return offset == |source|;
  }

  /**
   Records that align to the source and carry valid scores are complete once normalized, except exactly when the
   first piece is nothing but the dummy prefix.
   */
  lemma NormalizedComplete(source: seq<byte>, records: seq<EntropyRecord>)
    requires AllScored(records) && Aligns(source, records)
    ensures Complete(source, Normalized(source, records))
       <==> !(records != [] && records[0].bytes == [SPACE] && HasDummyPrefix(source, [SPACE]))
  {
    var n := Normalized(source, records);
    if records != [] {
      assert Scored(records[0], 0);
      var bytes := records[0].bytes;
      if HasDummyPrefix(source, bytes) && |bytes| == 1 {
        assert bytes == [SPACE];
        SpelledPrefix(Plain(n), 1, |n|);
        assert Spelled(Plain(n), 1) == bytes;
      } else {
        assert Plain(n) == PiecesOf(source, records);
        forall i | 0 <= i < |n| ensures Scored(n[i], i) {
          assert Scored(records[i], i);
        }
      }
    }
  }

  /** Complete records align: their first piece begins the source, so none of it is a dummy prefix. */
  lemma CompleteAligns(source: seq<byte>, records: seq<EntropyRecord>)
    requires Complete(source, records)
    ensures Aligns(source, records)
  {
    assert forall i :: 0 <= i < |records| ==> Scored(records[i], i);
    if records != [] {
      var pieces := Plain(records);
      SpelledPrefix(pieces, 1, |pieces|);
      assert Spelled(pieces, 1) == records[0].bytes;
      assert pieces == PiecesOf(source, records);
    }
  }
}
