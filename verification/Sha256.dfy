/**
 Hashing a message in chunks: class Sha256 of src/sha256.h:198-257 against sections 5.1.1, 5.2.1, 5.3.3 and 6.2 of
 FIPS 180-4. The compression of a block is a parameter here; Sha256Block has the one the program uses.
 */
module Sha256 {
  import opened LittleEndian
  import opened Sha256Block

  type Octets = seq<bv8>
  type Compression = (State, Block) -> State

  const BLOCK: nat := 64

  const INITIAL: State := [
    0x6a09e667, 0xbb67ae85, 0x3c6ef372, 0xa54ff53a, 0x510e527f, 0x9b05688c, 0x1f83d9ab, 0x5be0cd19]

  // ----- The standard

  /** The hash value after the first n blocks of a message. */
  function Blocks(f: Compression, m: Octets, n: nat): State
    requires BLOCK * n <= |m|
  {
    if n == 0 then INITIAL else f(Blocks(f, m, n - 1), BlockAt(m, n - 1))
  }

  function BlockAt(m: Octets, i: nat): Block
    requires BLOCK * i + BLOCK <= |m|
  {
    m[BLOCK * i..BLOCK * i + BLOCK]
  }

  function Zeros(n: nat): (zeros: Octets)
    ensures |zeros| == n
  {
    seq(n, i => 0)
  }

  /** The length of a message in bits as eight octets, most significant first, modulo 2^64. */
  function LengthOctets(size: nat): (octets: Octets)
    ensures |octets| == 8
  {
    seq(8, i requires 0 <= i < 8 => LengthOctet(size, i))
  }

  function LengthOctet(size: nat, i: nat): bv8
    requires i < 8
  {
    (Shifted(size * 8, 7 - i) % 256) as bv8
  }

  /** They are the low eight bytes of the number of bits, the other way round. */
  lemma LengthMeaning(size: nat, i: nat)
    requires i < 8
    ensures LengthOctets(size)[i] == Encoded(size * 8, 8)[7 - i] as bv8
  {
  }

  /** How many zeros the padding has: as few as make the padded message a number of blocks. */
  function ZeroCount(size: nat): nat {
    (55 - (size as int)) % 64
  }

  function Padded(m: Octets): Octets {
    m + [0x80] + Zeros(ZeroCount(|m|)) + LengthOctets(|m|)
  }

  lemma PaddedLength(m: Octets)
    ensures |Padded(m)| == |m| + 9 + ZeroCount(|m|) && |Padded(m)| % BLOCK == 0 && m <= Padded(m)
  {
  }

  /** Fewer zeros would not do. */
  lemma FewestZeros(size: nat, k: nat)
    requires k < ZeroCount(size)
    ensures (size + 9 + k) % BLOCK != 0
  {
    var z := ZeroCount(size);
    assert (size + 9 + z) % BLOCK == 0;
    assert 0 < z - k < BLOCK;
  }

  function OctetOf(word: bv32, i: nat): bv8
    requires i < 4
  {
    ByteAt(word, if i == 0 then 24 else if i == 1 then 16 else if i == 2 then 8 else 0)
  }

  function ByteAt(word: bv32, shift: bv6): bv8
    requires shift <= 32
  {
    ((word >> shift) & 0xFF) as bv8
  }

  /** The hash value as octets. */
  function Output(h: State): (octets: Octets)
    ensures |octets| == 32
  {
    seq(32, i requires 0 <= i < 32 => OctetOf(h[i / 4], i % 4))
  }

  /** Read as big-endian words, they are the hash value again. */
  lemma OutputMeaning(h: State, i: nat)
    requires i < 8
    ensures var o := Output(h); WordOf(o[4 * i], o[4 * i + 1], o[4 * i + 2], o[4 * i + 3]) == h[i]
  {
    OctetsOfWord(h[i]);
    OutputAt(h, i, 0);
    OutputAt(h, i, 1);
    OutputAt(h, i, 2);
    OutputAt(h, i, 3);
  }

  lemma OutputAt(h: State, i: nat, k: nat)
    requires i < 8 && k < 4
    ensures Output(h)[4 * i + k] == OctetOf(h[i], k)
  {
    assert (4 * i + k) / 4 == i && (4 * i + k) % 4 == k;
  }

  /** The loop of Finish that writes the hash value out. */
  method WriteOutput(h: State) returns (octets: Octets)
    ensures octets == Output(h)
  {
    octets := [];
    for i := 0 to 8
      invariant |octets| == 4 * i && forall k :: 0 <= k < 4 * i ==> octets[k] == Output(h)[k]
    {
      OutputAt(h, i, 0);
      OutputAt(h, i, 1);
      OutputAt(h, i, 2);
      OutputAt(h, i, 3);
      var word := h[i];
      octets := octets + [ByteAt(word, 24), ByteAt(word, 16), ByteAt(word, 8), ByteAt(word, 0)];
    }
  }

  lemma OctetsOfWord(word: bv32)
    ensures WordOf(OctetOf(word, 0), OctetOf(word, 1), OctetOf(word, 2), OctetOf(word, 3)) == word
  {
  }

  function Digest(f: Compression, m: Octets): Octets {
    PaddedLength(m);
    Output(Blocks(f, Padded(m), |Padded(m)| / BLOCK))
  }

  // ----- Blocks of a growing message

  lemma {:induction false} BlocksPrefix(f: Compression, m: Octets, longer: Octets, n: nat)
    requires m <= longer && BLOCK * n <= |m|
    ensures Blocks(f, longer, n) == Blocks(f, m, n)
  {
    if n > 0 {
      BlocksPrefix(f, m, longer, n - 1);
      assert BlockAt(longer, n - 1) == BlockAt(m, n - 1);
    }
  }

  /** The state holds the whole blocks of a message, and the rest is what remains of it. */
  ghost predicate Absorbed(f: Compression, m: Octets, state: State, rest: Octets) {
    && |rest| < BLOCK && |rest| <= |m| && (|m| - |rest|) % BLOCK == 0
    && m[|m| - |rest|..] == rest
    && state == Blocks(f, m, (|m| - |rest|) / BLOCK)
  }

  /** The zeros between the padding byte and the length, in this block or up to its end and in the next. */
  lemma ZerosToCome(f: Compression, m: Octets, state: State, rest: Octets)
    requires Absorbed(f, m, state, rest)
    ensures |rest| < 56 ==> ZeroCount(|m|) == 56 - (|rest| + 1)
    ensures |rest| >= 56 ==> ZeroCount(|m|) == BLOCK - (|rest| + 1) + 56
  {
  }

  lemma AbsorbMore(f: Compression, m: Octets, state: State, rest: Octets, more: Octets)
    requires Absorbed(f, m, state, rest) && |rest + more| < BLOCK
    ensures Absorbed(f, m + more, state, rest + more)
  {
    var n := (|m| - |rest|) / BLOCK;
    BlocksPrefix(f, m, m + more, n);
    assert (m + more)[|m| - |rest|..] == rest + more;
  }

  lemma AbsorbBlock(f: Compression, m: Octets, state: State, rest: Octets, more: Octets)
    requires Absorbed(f, m, state, rest) && |rest + more| == BLOCK
    ensures Absorbed(f, m + more, f(state, rest + more), [])
  {
    var n, all := (|m| - |rest|) / BLOCK, m + more;
    assert |all| == BLOCK * n + BLOCK;
    BlocksPrefix(f, m, all, n);
    assert BlockAt(all, n) == rest + more;
    assert Blocks(f, all, n + 1) == f(Blocks(f, all, n), BlockAt(all, n));
    assert |all| / BLOCK == n + 1;
  }

  /** Padding begun and completed is the padding. */
  lemma JoinPadding(m: Octets, before: Octets, begun: Octets, zeros: nat)
    requires |before + begun| > |m| && |before + begun| + zeros == |m| + 1 + ZeroCount(|m|)
    requires before + begun == m + [0x80] + Zeros(|before + begun| - |m| - 1)
    ensures before + (begun + Zeros(zeros) + LengthOctets(|m|)) == Padded(m)
  {
    var first := |before + begun| - |m| - 1;
    assert before + (begun + Zeros(zeros) + LengthOctets(|m|)) == before + begun + Zeros(zeros) + LengthOctets(|m|);
    assert Zeros(first) + Zeros(zeros) == Zeros(first + zeros);
    assert m + [0x80] + Zeros(first) + Zeros(zeros) == m + [0x80] + (Zeros(first) + Zeros(zeros));
  }

  // ----- The class

  class Hasher {
    const compress: Compression
    var state: State
    const buffer: array<bv8>
    var totalSize: nat
    var bufferSize: nat
    ghost var message: Octets

    ghost predicate Valid()
      reads this, buffer
    {
      && buffer.Length == BLOCK && bufferSize < BLOCK && totalSize == |message|
      && Absorbed(compress, message, state, buffer[..bufferSize])
    }

    constructor (f: Compression)
      ensures Valid() && fresh(buffer) && message == [] && compress == f
    {
      compress, state, buffer, totalSize, bufferSize, message := f, INITIAL, new bv8[64], 0, 0, [];
    }

    /** memcpy into the buffer. */
    method Fill(data: Octets)
      requires buffer.Length == BLOCK && bufferSize + |data| <= BLOCK
      modifies this`bufferSize, buffer
      ensures bufferSize == old(bufferSize) + |data|
      ensures buffer[..bufferSize] == old(buffer[..bufferSize]) + data
    {
      for i := 0 to |data|
        invariant bufferSize == old(bufferSize)
        invariant buffer[..bufferSize] == old(buffer[..bufferSize])
        invariant buffer[bufferSize..bufferSize + i] == data[..i]
      {
        buffer[bufferSize + i] := data[i];
        assert buffer[bufferSize..bufferSize + i + 1] == data[..i] + [data[i]];
      }
      bufferSize := bufferSize + |data|;
      assert data[..|data|] == data;
    }

    /** Whole blocks straight from the caller's data. */
    method CompressBlocks(data: Octets, count: nat, ghost before: Octets)
      requires BLOCK * count <= |data| && Absorbed(compress, before, state, [])
      modifies this`state
      ensures Absorbed(compress, before + data[..BLOCK * count], state, [])
    {
      assert before + data[..0] == before;
      for i := 0 to count
        invariant Absorbed(compress, before + data[..BLOCK * i], state, [])
      {
        var block := data[BLOCK * i..BLOCK * i + BLOCK];
        AbsorbBlock(compress, before + data[..BLOCK * i], state, [], block);
        assert [] + block == block;
        assert before + data[..BLOCK * i] + block == before + data[..BLOCK * (i + 1)];
        state := compress(state, block);
      }
    }

    /** Update: however a message is cut into chunks, the hasher has taken in their concatenation. */
    method Update(bytes: Octets)
      requires Valid()
      modifies this, buffer
      ensures Valid() && message == old(message) + bytes
    {
      if bytes == [] {
        assert message + bytes == message;
        return;
      }
      totalSize := totalSize + |bytes|;
      ghost var taken := message;
      message := message + bytes;
      if bufferSize == 0 {
        FinishUpdate(bytes, taken);
        return;
      }
      var copied := if |bytes| < BLOCK - bufferSize then |bytes| else BLOCK - bufferSize;
      TopUp(bytes, copied, taken);
      if copied < |bytes| || bufferSize == 0 {
        assert taken + bytes[..copied] + bytes[copied..] == message;
        FinishUpdate(bytes[copied..], taken + bytes[..copied]);
      } else {
        assert bytes[..copied] == bytes;
      }
    }

    /** Takes bytes into a buffer that has begun, and compresses it when they fill it. */
    method TopUp(bytes: Octets, copied: nat, ghost taken: Octets)
      requires buffer.Length == BLOCK && 0 < bufferSize < BLOCK && copied <= |bytes|
      requires bufferSize + copied <= BLOCK && Absorbed(compress, taken, state, buffer[..bufferSize])
      modifies this`state, this`bufferSize, buffer
      ensures bufferSize == if old(bufferSize) + copied == BLOCK then 0 else old(bufferSize) + copied
      ensures Absorbed(compress, taken + bytes[..copied], state, buffer[..bufferSize])
    {
      ghost var rest := buffer[..bufferSize];
      Fill(bytes[..copied]);
      if bufferSize < BLOCK {
        AbsorbMore(compress, taken, state, rest, bytes[..copied]);
      } else {
        AbsorbBlock(compress, taken, state, rest, bytes[..copied]);
        assert buffer[..BLOCK] == buffer[..];
        state := compress(state, buffer[..]);
        bufferSize := 0;
        assert buffer[..0] == [];
      }
    }

    /** The part of Update after the buffer: whole blocks, then what is left goes to the buffer. */
    method FinishUpdate(data0: Octets, ghost taken: Octets)
      requires buffer.Length == BLOCK && bufferSize == 0 && totalSize == |message| && message == taken + data0
      requires Absorbed(compress, taken, state, [])
      modifies this`state, this`bufferSize, buffer
      ensures Valid()
    {
      var data := data0;
      var blocks := |data| / BLOCK;
      ghost var before := taken;
      if blocks > 0 {
        CompressBlocks(data, blocks, taken);
        before := taken + data[..BLOCK * blocks];
        data := data[BLOCK * blocks..];
      }
      assert before + data == message;
      AbsorbMore(compress, before, state, [], data);
      assert [] + data == data;
      assert buffer[..0] == [];
      if |data| > 0 {
        Fill(data);
      }
    }

    /** Zeros up to a limit. */
    method PadTo(limit: nat)
      requires buffer.Length == BLOCK && bufferSize <= limit <= BLOCK
      modifies this`bufferSize, buffer
      ensures bufferSize == limit
      ensures buffer[..bufferSize] == old(buffer[..bufferSize]) + Zeros(limit - old(bufferSize))
    {
      ghost var start := old(bufferSize);
      while bufferSize < limit
        invariant start <= bufferSize <= limit
        invariant buffer[..start] == old(buffer[..bufferSize])
        invariant forall k :: start <= k < bufferSize ==> buffer[k] == 0
      {
        buffer[bufferSize] := 0;
        bufferSize := bufferSize + 1;
      }
      assert buffer[start..limit] == Zeros(limit - start);
      assert buffer[..limit] == buffer[..start] + buffer[start..limit];
    }

    /** The length behind the padding. */
    method WriteLength(size: nat)
      requires buffer.Length == BLOCK
      modifies buffer
      ensures buffer[..] == old(buffer[..56]) + LengthOctets(size)
    {
      for index := 0 to 8
        invariant buffer[..56] == old(buffer[..56])
        invariant forall k :: 0 <= k < index ==> buffer[56 + k] == LengthOctet(size, k)
      {
        buffer[56 + index] := (Shifted(size * 8, 7 - index) % 256) as bv8;
      }
      assert buffer[56..] == LengthOctets(size);
      assert buffer[..] == buffer[..56] + buffer[56..];
    }

    /** The length does not fit behind the padding byte: zeros to the end of the block, which is compressed. */
    method Overflow(ghost m: Octets, ghost rest: Octets)
      requires buffer.Length == BLOCK && bufferSize <= BLOCK && buffer[..bufferSize] == rest + [0x80]
      requires Absorbed(compress, m, state, rest)
      modifies this`state, this`bufferSize, buffer
      ensures bufferSize == 0
      ensures Absorbed(compress, m + ([0x80] + Zeros(BLOCK - old(bufferSize))), state, [])
    {
      ghost var more := [0x80] + Zeros(BLOCK - bufferSize);
      PadTo(BLOCK);
      assert buffer[..BLOCK] == buffer[..];
      assert rest + more == buffer[..];
      AbsorbBlock(compress, m, state, rest, more);
      state := compress(state, buffer[..]);
      bufferSize := 0;
    }

    /** Finish: the digest of the whole message, padded once. */
    method Finish() returns (digest: Octets)
      requires Valid()
      modifies this, buffer
      ensures digest == Digest(compress, old(message))
    {
      ghost var m, rest := message, buffer[..bufferSize];
      Fill([0x80]);
      ZerosToCome(compress, m, state, rest);
      if bufferSize > 56 {
        ghost var more := [0x80] + Zeros(BLOCK - bufferSize);
        Overflow(m, rest);
        digest := Close(m, m + more, [], []);
      } else {
        digest := Close(m, m, rest, [0x80]);
      }
    }

    /** The last block: zeros and the length. */
    method Close(ghost m: Octets, ghost before: Octets, ghost rest: Octets, ghost begun: Octets)
      returns (digest: Octets)
      requires buffer.Length == BLOCK && totalSize == |m| && bufferSize <= 56
      requires Absorbed(compress, before, state, rest) && buffer[..bufferSize] == rest + begun
      requires |before + begun| > |m| && |before + begun| + 56 - bufferSize == |m| + 1 + ZeroCount(|m|)
      requires before + begun == m + [0x80] + Zeros(|before + begun| - |m| - 1)
      modifies this, buffer
      ensures digest == Digest(compress, m)
    {
      ghost var zeros := 56 - bufferSize;
      ghost var more := begun + Zeros(zeros) + LengthOctets(|m|);
      PadTo(56);
      WriteLength(totalSize);
      assert buffer[..] == rest + more;
      AbsorbBlock(compress, before, state, rest, more);
      JoinPadding(m, before, begun, zeros);
      state := compress(state, buffer[..]);
      digest := WriteOutput(state);
    }
  }

  /** Chunks do not matter: the digest is that of the message they make up. */
  method HashChunks(f: Compression, chunks: seq<Octets>) returns (digest: Octets)
    ensures digest == Digest(f, Joined(chunks, |chunks|))
  {
    var hasher := new Hasher(f);
    for i := 0 to |chunks|
      invariant hasher.Valid() && fresh(hasher) && fresh(hasher.buffer)
      invariant hasher.message == Joined(chunks, i) && hasher.compress == f
    {
      hasher.Update(chunks[i]);
    }
    digest := hasher.Finish();
  }

  function Joined(chunks: seq<Octets>, n: nat): Octets
    requires n <= |chunks|
  {
    if n == 0 then [] else Joined(chunks, n - 1) + chunks[n - 1]
  }
}
