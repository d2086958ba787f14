/** SHA-256 with the program's portable compression: src/sha256.h:26-101 and 259-270. */
module Sha256Hash {
  import opened Sha256Block
  import opened Sha256

  /** The constants of section 4.2.2 of FIPS 180-4. */
  const ROUND_CONSTANTS: Constants := CONSTANTS_0 + CONSTANTS_16 + CONSTANTS_32 + CONSTANTS_48

  type Sixteen = k: seq<bv32> | |k| == 16 witness seq(16, i => 0)

  const CONSTANTS_0: Sixteen := [
    0x428a2f98, 0x71374491, 0xb5c0fbcf, 0xe9b5dba5, 0x3956c25b, 0x59f111f1, 0x923f82a4, 0xab1c5ed5,
    0xd807aa98, 0x12835b01, 0x243185be, 0x550c7dc3, 0x72be5d74, 0x80deb1fe, 0x9bdc06a7, 0xc19bf174]

  const CONSTANTS_16: Sixteen := [
    0xe49b69c1, 0xefbe4786, 0x0fc19dc6, 0x240ca1cc, 0x2de92c6f, 0x4a7484aa, 0x5cb0a9dc, 0x76f988da,
    0x983e5152, 0xa831c66d, 0xb00327c8, 0xbf597fc7, 0xc6e00bf3, 0xd5a79147, 0x06ca6351, 0x14292967]

  const CONSTANTS_32: Sixteen := [
    0x27b70a85, 0x2e1b2138, 0x4d2c6dfc, 0x53380d13, 0x650a7354, 0x766a0abb, 0x81c2c92e, 0x92722c85,
    0xa2bfe8a1, 0xa81a664b, 0xc24b8b70, 0xc76c51a3, 0xd192e819, 0xd6990624, 0xf40e3585, 0x106aa070]

  const CONSTANTS_48: Sixteen := [
    0x19a4c116, 0x1e376c08, 0x2748774c, 0x34b0bcb5, 0x391c0cb3, 0x4ed8aa4a, 0x5b9cca4f, 0x682e6ff3,
    0x748f82ee, 0x78a5636f, 0x84c87814, 0x8cc70208, 0x90befffa, 0xa4506ceb, 0xbef9a3f7, 0xc67178f2]

  // ----- Where the constants come from

  type Primes = p: seq<nat> | |p| == 16 witness seq(16, i => 0)

  const PRIMES_0: Primes := [2, 3, 5, 7, 11, 13, 17, 19, 23, 29, 31, 37, 41, 43, 47, 53]
  const PRIMES_16: Primes := [59, 61, 67, 71, 73, 79, 83, 89, 97, 101, 103, 107, 109, 113, 127, 131]
  const PRIMES_32: Primes := [137, 139, 149, 151, 157, 163, 167, 173, 179, 181, 191, 193, 197, 199, 211, 223]
  const PRIMES_48: Primes := [227, 229, 233, 239, 241, 251, 257, 263, 269, 271, 277, 281, 283, 293, 307, 311]

  /** k holds the first 32 bits of the fractional part of the cube root of p. */
  predicate CubeRootBits(k: bv32, p: nat, whole: nat) {
    var c := whole * 0x1_0000_0000 + k as nat;
    c * c * c <= p * 0x1_0000_0000_0000_0000_0000_0000 < (c + 1) * (c + 1) * (c + 1)
  }

  ghost predicate IsCubeRoot(k: bv32, p: nat) {
    exists whole: nat :: CubeRootBits(k, p, whole)
  }

  ghost predicate CubeRoots(ks: seq<bv32>, primes: seq<nat>, n: nat)
    requires n <= |ks| == |primes|
  {
    n == 0 || (CubeRoots(ks, primes, n - 1) && IsCubeRoot(ks[n - 1], primes[n - 1]))
  }

  lemma {:induction false} CubeRootsJoin(a: seq<bv32>, p: seq<nat>, b: seq<bv32>, q: seq<nat>, n: nat)
    requires |a| == |p| && n <= |b| == |q| && CubeRoots(a, p, |a|) && CubeRoots(b, q, n)
    ensures CubeRoots(a + b, p + q, |a| + n)
  {
    if n > 0 {
      CubeRootsJoin(a, p, b, q, n - 1);
    } else {
      CubeRootsFront(a, p, b, q, |a|);
    }
  }

  lemma {:induction false} CubeRootsFront(a: seq<bv32>, p: seq<nat>, b: seq<bv32>, q: seq<nat>, n: nat)
    requires n <= |a| == |p| && |b| == |q| && CubeRoots(a, p, n)
    ensures CubeRoots(a + b, p + q, n)
  {
    if n > 0 {
      CubeRootsFront(a, p, b, q, n - 1);
    }
  }

  lemma CubeRootsFrom0()
    ensures forall i :: 0 <= i < 4 ==> IsCubeRoot(CONSTANTS_0[i], PRIMES_0[i])
  {
    assert CubeRootBits(CONSTANTS_0[0], 2, 1);
    assert CubeRootBits(CONSTANTS_0[1], 3, 1);
    assert CubeRootBits(CONSTANTS_0[2], 5, 1);
    assert CubeRootBits(CONSTANTS_0[3], 7, 1);
  }

  lemma CubeRootsFrom4()
    ensures forall i :: 4 <= i < 8 ==> IsCubeRoot(CONSTANTS_0[i], PRIMES_0[i])
  {
    assert CubeRootBits(CONSTANTS_0[4], 11, 2);
    assert CubeRootBits(CONSTANTS_0[5], 13, 2);
    assert CubeRootBits(CONSTANTS_0[6], 17, 2);
    assert CubeRootBits(CONSTANTS_0[7], 19, 2);
  }

  lemma CubeRootsFrom8()
    ensures forall i :: 8 <= i < 12 ==> IsCubeRoot(CONSTANTS_0[i], PRIMES_0[i])
  {
    assert CubeRootBits(CONSTANTS_0[8], 23, 2);
    assert CubeRootBits(CONSTANTS_0[9], 29, 3);
    assert CubeRootBits(CONSTANTS_0[10], 31, 3);
    assert CubeRootBits(CONSTANTS_0[11], 37, 3);
  }

  lemma CubeRootsFrom12()
    ensures forall i :: 12 <= i < 16 ==> IsCubeRoot(CONSTANTS_0[i], PRIMES_0[i])
  {
    assert CubeRootBits(CONSTANTS_0[12], 41, 3);
    assert CubeRootBits(CONSTANTS_0[13], 43, 3);
    assert CubeRootBits(CONSTANTS_0[14], 47, 3);
    assert CubeRootBits(CONSTANTS_0[15], 53, 3);
  }

  lemma CubeRootsFrom16()
    ensures forall i :: 0 <= i < 4 ==> IsCubeRoot(CONSTANTS_16[i], PRIMES_16[i])
  {
    assert CubeRootBits(CONSTANTS_16[0], 59, 3);
    assert CubeRootBits(CONSTANTS_16[1], 61, 3);
    assert CubeRootBits(CONSTANTS_16[2], 67, 4);
    assert CubeRootBits(CONSTANTS_16[3], 71, 4);
  }

  lemma CubeRootsFrom20()
    ensures forall i :: 4 <= i < 8 ==> IsCubeRoot(CONSTANTS_16[i], PRIMES_16[i])
  {
    assert CubeRootBits(CONSTANTS_16[4], 73, 4);
    assert CubeRootBits(CONSTANTS_16[5], 79, 4);
    assert CubeRootBits(CONSTANTS_16[6], 83, 4);
    assert CubeRootBits(CONSTANTS_16[7], 89, 4);
  }

  lemma CubeRootsFrom24()
    ensures forall i :: 8 <= i < 12 ==> IsCubeRoot(CONSTANTS_16[i], PRIMES_16[i])
  {
    assert CubeRootBits(CONSTANTS_16[8], 97, 4);
    assert CubeRootBits(CONSTANTS_16[9], 101, 4);
    assert CubeRootBits(CONSTANTS_16[10], 103, 4);
    assert CubeRootBits(CONSTANTS_16[11], 107, 4);
  }

  lemma CubeRootsFrom28()
    ensures forall i :: 12 <= i < 16 ==> IsCubeRoot(CONSTANTS_16[i], PRIMES_16[i])
  {
    assert CubeRootBits(CONSTANTS_16[12], 109, 4);
    assert CubeRootBits(CONSTANTS_16[13], 113, 4);
    assert CubeRootBits(CONSTANTS_16[14], 127, 5);
    assert CubeRootBits(CONSTANTS_16[15], 131, 5);
  }

  lemma CubeRootsFrom32()
    ensures forall i :: 0 <= i < 4 ==> IsCubeRoot(CONSTANTS_32[i], PRIMES_32[i])
  {
    assert CubeRootBits(CONSTANTS_32[0], 137, 5);
    assert CubeRootBits(CONSTANTS_32[1], 139, 5);
    assert CubeRootBits(CONSTANTS_32[2], 149, 5);
    assert CubeRootBits(CONSTANTS_32[3], 151, 5);
  }

  lemma CubeRootsFrom36()
    ensures forall i :: 4 <= i < 8 ==> IsCubeRoot(CONSTANTS_32[i], PRIMES_32[i])
  {
    assert CubeRootBits(CONSTANTS_32[4], 157, 5);
    assert CubeRootBits(CONSTANTS_32[5], 163, 5);
    assert CubeRootBits(CONSTANTS_32[6], 167, 5);
    assert CubeRootBits(CONSTANTS_32[7], 173, 5);
  }

  lemma CubeRootsFrom40()
    ensures forall i :: 8 <= i < 12 ==> IsCubeRoot(CONSTANTS_32[i], PRIMES_32[i])
  {
    assert CubeRootBits(CONSTANTS_32[8], 179, 5);
    assert CubeRootBits(CONSTANTS_32[9], 181, 5);
    assert CubeRootBits(CONSTANTS_32[10], 191, 5);
    assert CubeRootBits(CONSTANTS_32[11], 193, 5);
  }

  lemma CubeRootsFrom44()
    ensures forall i :: 12 <= i < 16 ==> IsCubeRoot(CONSTANTS_32[i], PRIMES_32[i])
  {
    assert CubeRootBits(CONSTANTS_32[12], 197, 5);
    assert CubeRootBits(CONSTANTS_32[13], 199, 5);
    assert CubeRootBits(CONSTANTS_32[14], 211, 5);
    assert CubeRootBits(CONSTANTS_32[15], 223, 6);
  }

  lemma CubeRootsFrom48()
    ensures forall i :: 0 <= i < 4 ==> IsCubeRoot(CONSTANTS_48[i], PRIMES_48[i])
  {
    assert CubeRootBits(CONSTANTS_48[0], 227, 6);
    assert CubeRootBits(CONSTANTS_48[1], 229, 6);
    assert CubeRootBits(CONSTANTS_48[2], 233, 6);
    assert CubeRootBits(CONSTANTS_48[3], 239, 6);
  }

  lemma CubeRootsFrom52()
    ensures forall i :: 4 <= i < 8 ==> IsCubeRoot(CONSTANTS_48[i], PRIMES_48[i])
  {
    assert CubeRootBits(CONSTANTS_48[4], 241, 6);
    assert CubeRootBits(CONSTANTS_48[5], 251, 6);
    assert CubeRootBits(CONSTANTS_48[6], 257, 6);
    assert CubeRootBits(CONSTANTS_48[7], 263, 6);
  }

  lemma CubeRootsFrom56()
    ensures forall i :: 8 <= i < 12 ==> IsCubeRoot(CONSTANTS_48[i], PRIMES_48[i])
  {
    assert CubeRootBits(CONSTANTS_48[8], 269, 6);
    assert CubeRootBits(CONSTANTS_48[9], 271, 6);
    assert CubeRootBits(CONSTANTS_48[10], 277, 6);
    assert CubeRootBits(CONSTANTS_48[11], 281, 6);
  }

  lemma CubeRootsFrom60()
    ensures forall i :: 12 <= i < 16 ==> IsCubeRoot(CONSTANTS_48[i], PRIMES_48[i])
  {
    assert CubeRootBits(CONSTANTS_48[12], 283, 6);
    assert CubeRootBits(CONSTANTS_48[13], 293, 6);
    assert CubeRootBits(CONSTANTS_48[14], 307, 6);
    assert CubeRootBits(CONSTANTS_48[15], 311, 6);
  }

  /** The constants are the cube roots of the first 64 primes, as section 4.2.2 of FIPS 180-4 says. */
  lemma ConstantsAreCubeRoots()
    ensures CubeRoots(ROUND_CONSTANTS, PRIMES_0 + PRIMES_16 + PRIMES_32 + PRIMES_48, 64)
  {
    CubeRootsOf0();
    CubeRootsOf16();
    CubeRootsOf32();
    CubeRootsOf48();
    CubeRootsJoin(CONSTANTS_0, PRIMES_0, CONSTANTS_16, PRIMES_16, 16);
    CubeRootsJoin(CONSTANTS_0 + CONSTANTS_16, PRIMES_0 + PRIMES_16, CONSTANTS_32, PRIMES_32, 16);
    CubeRootsJoin(
      CONSTANTS_0 + CONSTANTS_16 + CONSTANTS_32, PRIMES_0 + PRIMES_16 + PRIMES_32, CONSTANTS_48, PRIMES_48, 16);
  }

  lemma {:induction false} AllCubeRoots(ks: seq<bv32>, primes: seq<nat>, n: nat)
    requires n <= |ks| == |primes| && forall i :: 0 <= i < n ==> IsCubeRoot(ks[i], primes[i])
    ensures CubeRoots(ks, primes, n)
  {
    if n > 0 {
      AllCubeRoots(ks, primes, n - 1);
    }
  }

  lemma CubeRootsOf0()
    ensures CubeRoots(CONSTANTS_0, PRIMES_0, 16)
  {
    CubeRootsFrom0();
    CubeRootsFrom4();
    CubeRootsFrom8();
    CubeRootsFrom12();
    AllCubeRoots(CONSTANTS_0, PRIMES_0, 16);
  }

  lemma CubeRootsOf16()
    ensures CubeRoots(CONSTANTS_16, PRIMES_16, 16)
  {
    CubeRootsFrom16();
    CubeRootsFrom20();
    CubeRootsFrom24();
    CubeRootsFrom28();
    AllCubeRoots(CONSTANTS_16, PRIMES_16, 16);
  }

  lemma CubeRootsOf32()
    ensures CubeRoots(CONSTANTS_32, PRIMES_32, 16)
  {
    CubeRootsFrom32();
    CubeRootsFrom36();
    CubeRootsFrom40();
    CubeRootsFrom44();
    AllCubeRoots(CONSTANTS_32, PRIMES_32, 16);
  }

  lemma CubeRootsOf48()
    ensures CubeRoots(CONSTANTS_48, PRIMES_48, 16)
  {
    CubeRootsFrom48();
    CubeRootsFrom52();
    CubeRootsFrom56();
    CubeRootsFrom60();
    AllCubeRoots(CONSTANTS_48, PRIMES_48, 16);
  }

  /** k holds the first 32 bits of the fractional part of the square root of p. */
  predicate SquareRootBits(k: bv32, p: nat, whole: nat) {
    var c := whole * 0x1_0000_0000 + k as nat;
    c * c <= p * 0x1_0000_0000_0000_0000 < (c + 1) * (c + 1)
  }

  ghost predicate IsSquareRoot(k: bv32, p: nat) {
    exists whole: nat :: SquareRootBits(k, p, whole)
  }

  /** The initial hash value holds the square roots of the first eight primes, as section 5.3.3 of FIPS 180-4 says. */
  lemma InitialIsSquareRoots()
    ensures forall i :: 0 <= i < 8 ==> IsSquareRoot(INITIAL[i], PRIMES_0[i])
  {
    assert SquareRootBits(INITIAL[0], 2, 1);
    assert SquareRootBits(INITIAL[1], 3, 1);
    assert SquareRootBits(INITIAL[2], 5, 2);
    assert SquareRootBits(INITIAL[3], 7, 2);
    assert SquareRootBits(INITIAL[4], 11, 3);
    assert SquareRootBits(INITIAL[5], 13, 3);
    assert SquareRootBits(INITIAL[6], 17, 4);
    assert SquareRootBits(INITIAL[7], 19, 4);
  }

  /** The compression of the standard. */
  function Standard(h: State, block: Block): State {
    Compress(ROUND_CONSTANTS, h, block)
  }

  /** CompressPortable on one block is the standard's compression. */
  method CompressPortable(state: State, block: Block) returns (next: State)
    ensures next == Standard(state, block)
  {
    next := CompressOne(ROUND_CONSTANTS, state, block);
  }

  /** The digest of a message handed over in chunks. */
  method Hash(chunks: seq<Octets>) returns (digest: Octets)
    ensures digest == Digest(Standard, Joined(chunks, |chunks|))
  {
    digest := HashChunks(Standard, chunks);
  }
}
