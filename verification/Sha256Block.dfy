/**
 The compression of one block, as sections 4.1.2 and 6.2.2 of FIPS 180-4 define it and as src/sha256.h:26-101 computes
 it.
 */
module Sha256Block {
  type State = h: seq<bv32> | |h| == 8 witness seq(8, i => 0)
  type Block = b: seq<bv8> | |b| == 64 witness seq(64, i => 0)
  type Constants = k: seq<bv32> | |k| == 64 witness seq(64, i => 0)

  datatype Working = Working(a: bv32, b: bv32, c: bv32, d: bv32, e: bv32, f: bv32, g: bv32, h: bv32)

  // ----- The functions of section 4.1.2

  function Rotr(x: bv32, n: nat): bv32
    requires n <= 32
  {
    (x >> n) | (x << (32 - n))
  }

  function Ch(x: bv32, y: bv32, z: bv32): bv32 {
    (x & y) ^ (!x & z)
  }

  function Maj(x: bv32, y: bv32, z: bv32): bv32 {
    (x & y) ^ (x & z) ^ (y & z)
  }

  function BigSigma0(x: bv32): bv32 {
    Rotr(x, 2) ^ Rotr(x, 13) ^ Rotr(x, 22)
  }

  function BigSigma1(x: bv32): bv32 {
    Rotr(x, 6) ^ Rotr(x, 11) ^ Rotr(x, 25)
  }

  function SmallSigma0(x: bv32): bv32 {
    Rotr(x, 7) ^ Rotr(x, 18) ^ (x >> 3)
  }

  function SmallSigma1(x: bv32): bv32 {
    Rotr(x, 17) ^ Rotr(x, 19) ^ (x >> 10)
  }

  // ----- The computation of section 6.2.2

  /** The bytes of a word, the most significant first. */
  function WordOf(a: bv8, b: bv8, c: bv8, d: bv8): bv32 {
    ((a as bv32) << 24) | ((b as bv32) << 16) | ((c as bv32) << 8) | (d as bv32)
  }

  /** The message schedule. */
  function Schedule(block: Block, t: nat): bv32
    requires t < 64
  {
    if t < 16 then WordOf(block[4 * t], block[4 * t + 1], block[4 * t + 2], block[4 * t + 3])
    else
      Sum4(SmallSigma1(Schedule(block, t - 2)), Schedule(block, t - 7), SmallSigma0(Schedule(block, t - 15)),
           Schedule(block, t - 16))
  }

  /** Addition of words is modulo 2^32. */
  function Sum4(a: bv32, b: bv32, c: bv32, d: bv32): bv32 {
    a + b + c + d
  }

  function Sum5(a: bv32, b: bv32, c: bv32, d: bv32, e: bv32): bv32 {
    a + b + c + d + e
  }

  function Add(a: bv32, b: bv32): bv32 {
    a + b
  }

  function First(v: Working, k: bv32, w: bv32): bv32 {
    Sum5(v.h, BigSigma1(v.e), Ch(v.e, v.f, v.g), k, w)
  }

  function Second(v: Working): bv32 {
    Add(BigSigma0(v.a), Maj(v.a, v.b, v.c))
  }

  function Round(v: Working, k: bv32, w: bv32): Working {
    Turn(v, First(v, k, w), Second(v))
  }

  function Turn(v: Working, t1: bv32, t2: bv32): Working {
    Working(Add(t1, t2), v.a, v.b, v.c, Add(v.d, t1), v.e, v.f, v.g)
  }

  function Start(h: State): Working {
    Working(h[0], h[1], h[2], h[3], h[4], h[5], h[6], h[7])
  }

  /** The working variables after t rounds. */
  function Rounds(k: Constants, h: State, block: Block, t: nat): Working
    requires t <= 64
  {
    if t == 0 then Start(h) else Round(Rounds(k, h, block, t - 1), k[t - 1], Schedule(block, t - 1))
  }

  function Sum(h: State, v: Working): State {
    [Add(h[0], v.a), Add(h[1], v.b), Add(h[2], v.c), Add(h[3], v.d), Add(h[4], v.e), Add(h[5], v.f),
     Add(h[6], v.g), Add(h[7], v.h)]
  }

  /** The hash value after one more block. */
  function Compress(k: Constants, h: State, block: Block): State {
    Sum(h, Rounds(k, h, block, 64))
  }

  // ----- The program's computation

  /** The program adds in another order. */
  lemma SumReversed(a: bv32, b: bv32, c: bv32, d: bv32)
    ensures d + c + b + a == Sum4(a, b, c, d)
  {
  }

  /** The words of a block: the first sixteen are its bytes, each other is made of four before it. */
  method ExpandWords(block: Block) returns (words: array<bv32>)
    ensures fresh(words) && words.Length == 64
    ensures forall t :: 0 <= t < 64 ==> words[t] == Schedule(block, t)
  {
    words := new bv32[64];
    for index := 0 to 16
      invariant forall t :: 0 <= t < index ==> words[t] == Schedule(block, t)
    {
      var word := FirstWord(block[index * 4], block[index * 4 + 1], block[index * 4 + 2], block[index * 4 + 3]);
      words[index] := word;
    }
    for index := 16 to 64
      invariant forall t :: 0 <= t < index ==> words[t] == Schedule(block, t)
    {
      var word := NextWord(words[index - 16], words[index - 15], words[index - 7], words[index - 2]);
      words[index] := word;
    }
  }

  method FirstWord(a: bv8, b: bv8, c: bv8, d: bv8) returns (word: bv32)
    ensures word == WordOf(a, b, c, d)
  {
    word := ((a as bv32) << 24) | ((b as bv32) << 16) | ((c as bv32) << 8) | (d as bv32);
  }

  method NextWord(w16: bv32, w15: bv32, w7: bv32, w2: bv32) returns (word: bv32)
    ensures word == Sum4(SmallSigma1(w2), w7, SmallSigma0(w15), w16)
  {
    var sigma0 := Rotr(w15, 7) ^ Rotr(w15, 18) ^ (w15 >> 3);
    var sigma1 := Rotr(w2, 17) ^ Rotr(w2, 19) ^ (w2 >> 10);
    assert sigma0 == SmallSigma0(w15) && sigma1 == SmallSigma1(w2);
    SumReversed(sigma1, w7, sigma0, w16);
    word := w16 + sigma0 + w7 + sigma1;
  }

  method Choice(e: bv32, f: bv32, g: bv32) returns (choice: bv32)
    ensures choice == Ch(e, f, g)
  {
    choice := (e & f) ^ (!e & g);
  }

  method Majority(a: bv32, b: bv32, c: bv32) returns (majority: bv32)
    ensures majority == Maj(a, b, c)
  {
    majority := (a & b) ^ (a & c) ^ (b & c);
  }

  method UpperSums(a: bv32, e: bv32) returns (sum0: bv32, sum1: bv32)
    ensures sum0 == BigSigma0(a) && sum1 == BigSigma1(e)
  {
    sum0 := Rotr(a, 2) ^ Rotr(a, 13) ^ Rotr(a, 22);
    sum1 := Rotr(e, 6) ^ Rotr(e, 11) ^ Rotr(e, 25);
  }

  /** The two sums of a round. */
  method RoundSums(v: Working, constant: bv32, word: bv32) returns (first: bv32, second: bv32)
    ensures first == First(v, constant, word)
    ensures second == Second(v)
  {
    var choice := Choice(v.e, v.f, v.g);
    var majority := Majority(v.a, v.b, v.c);
    var sum0, sum1 := UpperSums(v.a, v.e);
    first := Sum5(v.h, sum1, choice, constant, word);
    second := Add(sum0, majority);
  }

  /** One round on the working variables. */
  method NextRound(v: Working, constant: bv32, word: bv32) returns (next: Working)
    ensures next == Round(v, constant, word)
  {
    var first, second := RoundSums(v, constant, word);
    next := Rotate(v, first, second);
  }

  /** The working variables move up by one. */
  method Rotate(v: Working, first: bv32, second: bv32) returns (next: Working)
    ensures next == Turn(v, first, second)
  {
    var a, b, c, d, e, f, g, h := v.a, v.b, v.c, v.d, v.e, v.f, v.g, v.h;
    h := g;
    g := f;
    f := e;
    e := Add(d, first);
    d := c;
    c := b;
    b := a;
    a := Add(first, second);
    next := Working(a, b, c, d, e, f, g, h);
  }

  /** CompressPortable for one block. */
  method CompressOne(k: Constants, state: State, block: Block) returns (next: State)
    ensures next == Compress(k, state, block)
  {
    var words := ExpandWords(block);
    var v := Working(state[0], state[1], state[2], state[3], state[4], state[5], state[6], state[7]);
    for index := 0 to 64
      invariant forall t :: 0 <= t < 64 ==> words[t] == Schedule(block, t)
      invariant v == Rounds(k, state, block, index)
    {
      v := NextRound(v, k[index], words[index]);
    }
    next := Sum(state, v);
  }
}
