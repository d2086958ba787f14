/** Byte strings laid out one behind the other. */
module Pieces {
  import opened Utf8

  /** What the first n pieces spell. */
  function Spelled(pieces: seq<seq<byte>>, n: nat): seq<byte>
    requires n <= |pieces|
  {
    if n == 0 then [] else Spelled(pieces, n - 1) + pieces[n - 1]
  }

  lemma SpelledFirst(pieces: seq<seq<byte>>)
    requires pieces != []
    ensures Spelled(pieces, 1) == pieces[0] && pieces[0] <= Spelled(pieces, |pieces|)
  {
    var none: seq<byte> := [];
    assert Spelled(pieces, 1) == none + pieces[0];
    SpelledPrefix(pieces, 1, |pieces|);
  }

  lemma {:induction false} SpelledPrefix(pieces: seq<seq<byte>>, i: nat, n: nat)
    requires i <= n <= |pieces|
    ensures Spelled(pieces, i) <= Spelled(pieces, n)
    decreases n
  {
    if i < n {
      SpelledPrefix(pieces, i, n - 1);
    }
  }

  /** The bytes stand at the offset. */
  predicate At(file: seq<byte>, at: nat, bytes: seq<byte>) {
    at + |bytes| <= |file| && forall k :: 0 <= k < |bytes| ==> file[at + k] == bytes[k]
  }

  lemma AtSlice(file: seq<byte>, at: nat, bytes: seq<byte>)
    ensures At(file, at, bytes) <==> at + |bytes| <= |file| && file[at..at + |bytes|] == bytes
  {
    if at + |bytes| <= |file| && file[at..at + |bytes|] == bytes {
      forall k | 0 <= k < |bytes| ensures file[at + k] == bytes[k] {
        assert file[at..at + |bytes|][k] == bytes[k];
      }
    }
  }

  lemma TwoParts(file: seq<byte>, at: nat, a: seq<byte>, b: seq<byte>)
    ensures At(file, at, a + b) <==> At(file, at, a) && At(file, at + |a|, b)
  {
    var both := a + b;
    if At(file, at, both) {
      forall k | 0 <= k < |a| ensures file[at + k] == a[k] {
        assert both[k] == a[k];
      }
      forall k | 0 <= k < |b| ensures file[at + |a| + k] == b[k] {
        assert both[|a| + k] == b[k];
      }
    } else if At(file, at, a) && At(file, at + |a|, b) {
      forall k | 0 <= k < |both| ensures file[at + k] == both[k] {
        if |a| <= k {
          assert both[k] == b[k - |a|];
        }
      }
    }
  }

  /** What stands at the beginning. */
  lemma PrefixAt(file: seq<byte>, at: nat, all: seq<byte>, part: seq<byte>)
    requires At(file, at, all) && part <= all
    ensures At(file, at, part)
  {
    forall k | 0 <= k < |part| ensures file[at + k] == part[k] {
      assert all[k] == part[k];
    }
  }

  /** Each piece is found behind those before it. */
  lemma PieceAt(file: seq<byte>, at: nat, pieces: seq<seq<byte>>, i: nat)
    requires At(file, at, Spelled(pieces, |pieces|)) && i < |pieces|
    ensures |Spelled(pieces, i)| + |pieces[i]| == |Spelled(pieces, i + 1)| <= |Spelled(pieces, |pieces|)|
    ensures At(file, at + |Spelled(pieces, i)|, pieces[i])
  {
    SpelledPrefix(pieces, i + 1, |pieces|);
    PrefixAt(file, at, Spelled(pieces, |pieces|), Spelled(pieces, i + 1));
    TwoParts(file, at, Spelled(pieces, i), pieces[i]);
  }

  /**
   The next piece is found at the offset exactly when the pieces up to it still spell a prefix of the source.
   */
  lemma NextPiece(source: seq<byte>, pieces: seq<seq<byte>>, i: nat, offset: nat)
    requires i < |pieces| && offset <= |source| && Spelled(pieces, i) == source[..offset]
    ensures (offset + |pieces[i]| <= |source| && source[offset..offset + |pieces[i]|] == pieces[i])
       <==> Spelled(pieces, i + 1) <= source
    ensures Spelled(pieces, i + 1) <= source ==> Spelled(pieces, i + 1) == source[..offset + |pieces[i]|]
    ensures Spelled(pieces, |pieces|) == source ==> Spelled(pieces, i + 1) <= source
  {
    SpelledPrefix(pieces, i + 1, |pieces|);
    var end := offset + |pieces[i]|;
    if end <= |source| {
      assert source[..end] == source[..offset] + source[offset..end];
      if Spelled(pieces, i + 1) <= source {
        assert source[..end] == Spelled(pieces, i + 1);
        assert source[offset..end] == source[..end][offset..];
      }
    }
  }
}
