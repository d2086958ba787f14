/** Bytes and the tolerant UTF-8 reader of src/glob.cc. */
module Utf8 {
  /** An unsigned byte; the masks and shifts of the program are written as remainders and products. */
  type byte = b: int | 0 <= b < 256 witness 0

  const SPACE: byte := ' ' as int
  const SLASH: byte := '/' as int

  /** A value read at some position, and the position just past it. */
  datatype Decoded = Decoded(value: nat, next: nat)

  /** UTF8-tail in section 4 of RFC 3629. */
  predicate IsTail(b: byte) {
    0x80 <= b <= 0xBF
  }

  /** The bytes at i spell the production UTF8-2 in section 4 of RFC 3629. */
  predicate IsTwo(text: seq<byte>, i: nat) {
    && i + 2 <= |text|
    && 0xC2 <= text[i] <= 0xDF
    && IsTail(text[i + 1])
  }

  /** UTF8-3: four lead-byte families, two of which narrow the second byte. */
  predicate IsThree(text: seq<byte>, i: nat) {
    && i + 3 <= |text|
    && (|| (text[i] == 0xE0 && 0xA0 <= text[i + 1] <= 0xBF)
        || (0xE1 <= text[i] <= 0xEC && IsTail(text[i + 1]))
        || (text[i] == 0xED && 0x80 <= text[i + 1] <= 0x9F)
        || (0xEE <= text[i] <= 0xEF && IsTail(text[i + 1])))
    && IsTail(text[i + 2])
  }

  /** UTF8-4: three lead-byte families. */
  predicate IsFour(text: seq<byte>, i: nat) {
    && i + 4 <= |text|
    && (|| (text[i] == 0xF0 && 0x90 <= text[i + 1] <= 0xBF)
        || (0xF1 <= text[i] <= 0xF3 && IsTail(text[i + 1]))
        || (text[i] == 0xF4 && 0x80 <= text[i + 1] <= 0x8F))
    && IsTail(text[i + 2])
    && IsTail(text[i + 3])
  }

  /** The low bits of a byte: those below the power of two m. */
  function Low(b: byte, m: nat): nat
    requires m > 0
  {
    b % m
  }

  /** A byte outside every valid sequence reads as a lone surrogate, U+DC80 to U+DCFF. */
  function Escaped(b: byte): nat {
    var value: nat := b;
    if value < 0x80 then value else 0xDC00 + value
  }

  /** The character at position i: the valid multi-byte sequence there, or else that one byte. */
  function Decode(text: seq<byte>, i: nat): (d: Decoded)
    requires i < |text|
    ensures i < d.next <= |text|
    ensures forall k :: i < k < d.next ==> IsTail(text[k])
  {
    if IsTwo(text, i) then
      Decoded(Low(text[i], 32) * 64 + Low(text[i + 1], 64), i + 2)
    else if IsThree(text, i) then
      Decoded((Low(text[i], 16) * 64 + Low(text[i + 1], 64)) * 64 + Low(text[i + 2], 64), i + 3)
    else if IsFour(text, i) then
      Decoded(((Low(text[i], 8) * 64 + Low(text[i + 1], 64)) * 64 + Low(text[i + 2], 64)) * 64 + Low(text[i + 3], 64),
              i + 4)
    else
      Decoded(Escaped(text[i]), i + 1)
  }

  /** Unicode scalar values: every code point except the surrogates. */
  predicate IsScalar(c: nat) {
    c <= 0x10FFFF && !(0xD800 <= c <= 0xDFFF)
  }

  /** The encoding table in section 3 of RFC 3629. */
  function Encode(c: nat): (bytes: seq<byte>)
    requires IsScalar(c)
  {
    if c < 0x80 then [c]
    else if c < 0x800 then [0xC0 + c / 64, 0x80 + c % 64]
    else if c < 0x10000 then [0xE0 + c / 4096, 0x80 + c / 64 % 64, 0x80 + c % 64]
    else [0xF0 + c / 262144, 0x80 + c / 4096 % 64, 0x80 + c / 64 % 64, 0x80 + c % 64]
  }

  /** Base-64 digits of a character, which the encodings of two to four bytes carry. */
  lemma Digits(c: nat)
    ensures c == c / 64 * 64 + c % 64
    ensures c / 64 == c / 4096 * 64 + c / 64 % 64
    ensures c / 4096 == c / 262144 * 64 + c / 4096 % 64
  {
  }

  /** Tagged bytes carry their digits in the low bits. */
  lemma LowDigits(d: nat)
    ensures d < 32 ==> Low(0xC0 + d, 32) == d
    ensures d < 16 ==> Low(0xE0 + d, 16) == d
    ensures d < 8 ==> Low(0xF0 + d, 8) == d
    ensures d < 64 ==> Low(0x80 + d, 64) == d
  {
  }

  lemma DecodeTwo(c: nat, text: seq<byte>, i: nat)
    requires 0x80 <= c < 0x800 && i + 2 <= |text|
    requires text[i] == 0xC0 + c / 64 && text[i + 1] == 0x80 + c % 64
    ensures Decode(text, i) == Decoded(c, i + 2)
  {
    LowDigits(c / 64);
    LowDigits(c % 64);
  }

  lemma DecodeThree(c: nat, text: seq<byte>, i: nat)
    requires IsScalar(c) && 0x800 <= c < 0x10000 && i + 3 <= |text|
    requires text[i] == 0xE0 + c / 4096 && text[i + 1] == 0x80 + c / 64 % 64 && text[i + 2] == 0x80 + c % 64
    ensures Decode(text, i) == Decoded(c, i + 3)
  {
    var high, mid := c / 4096, c / 64 % 64;
    Digits(c);
    LowDigits(high);
    LowDigits(mid);
    LowDigits(c % 64);
    assert c == (high * 64 + mid) * 64 + c % 64;
    assert IsThree(text, i) && !IsTwo(text, i);
  }

  lemma DecodeFour(c: nat, text: seq<byte>, i: nat)
    requires 0x10000 <= c <= 0x10FFFF && i + 4 <= |text|
    requires text[i] == 0xF0 + c / 262144 && text[i + 1] == 0x80 + c / 4096 % 64
    requires text[i + 2] == 0x80 + c / 64 % 64 && text[i + 3] == 0x80 + c % 64
    ensures Decode(text, i) == Decoded(c, i + 4)
  {
    var top, high, mid := c / 262144, c / 4096 % 64, c / 64 % 64;
    Digits(c);
    LowDigits(top);
    LowDigits(high);
    LowDigits(mid);
    LowDigits(c % 64);
    assert c == ((top * 64 + high) * 64 + mid) * 64 + c % 64;
    assert IsFour(text, i) && !IsTwo(text, i) && !IsThree(text, i);
  }

  /** Wherever the encoding of a character stands in the text, the reader returns that character. */
  lemma DecodeEncoded(c: nat, text: seq<byte>, i: nat)
    requires IsScalar(c)
    requires i + |Encode(c)| <= |text| && text[i..i + |Encode(c)|] == Encode(c)
    ensures Decode(text, i) == Decoded(c, i + |Encode(c)|)
  {
    var e := Encode(c);
    forall k | 0 <= k < |e| ensures text[i + k] == e[k] {
      assert text[i..i + |e|][k] == e[k];
    }
    assert text[i + 0] == e[0];
    if 0x80 <= c < 0x800 {
      assert text[i + 1] == e[1];
      DecodeTwo(c, text, i);
    } else if 0x800 <= c < 0x10000 {
      assert text[i + 1] == e[1] && text[i + 2] == e[2];
      DecodeThree(c, text, i);
    } else if 0x10000 <= c {
      assert text[i + 1] == e[1] && text[i + 2] == e[2] && text[i + 3] == e[3];
      DecodeFour(c, text, i);
    }
  }

  /** The encoding of a character given by its base-64 digits, leading digit first. */
  lemma EncodeTwo(a: nat, b: nat)
    requires 2 <= a < 32 && b < 64
    ensures IsScalar(a * 64 + b) && Encode(a * 64 + b) == [0xC0 + a, 0x80 + b]
  {
    assert (a * 64 + b) / 64 == a && (a * 64 + b) % 64 == b;
  }

  lemma EncodeThree(a: nat, b: nat, c: nat)
    requires a < 16 && b < 64 && c < 64
    requires a == 0 ==> b >= 32
    requires a == 13 ==> b < 32
    ensures var v := (a * 64 + b) * 64 + c; IsScalar(v) && Encode(v) == [0xE0 + a, 0x80 + b, 0x80 + c]
  {
    var v := (a * 64 + b) * 64 + c;
    assert v / 64 == a * 64 + b && v % 64 == c;
    assert v / 4096 == a && v / 64 % 64 == b;
  }

  lemma EncodeFour(a: nat, b: nat, c: nat, d: nat)
    requires a < 5 && b < 64 && c < 64 && d < 64
    requires a == 0 ==> b >= 16
    requires a == 4 ==> b < 16
    ensures var v := ((a * 64 + b) * 64 + c) * 64 + d;
            IsScalar(v) && Encode(v) == [0xF0 + a, 0x80 + b, 0x80 + c, 0x80 + d]
  {
    var v := ((a * 64 + b) * 64 + c) * 64 + d;
    assert v / 64 == (a * 64 + b) * 64 + c && v % 64 == d;
    assert v / 4096 == a * 64 + b && v / 64 % 64 == c;
    assert v / 262144 == a && v / 4096 % 64 == b;
  }

  /** The reader answers a character other than a lone surrogate only where that character is encoded. */
  lemma EncodeDecoded(text: seq<byte>, i: nat)
    requires i < |text|
    ensures var d := Decode(text, i);
            if IsScalar(d.value) then text[i..d.next] == Encode(d.value)
            else d.next == i + 1 && text[i] >= 0x80 && d.value == Escaped(text[i])
  {
    if IsTwo(text, i) {
      UntagTwo(text, i);
    } else if IsThree(text, i) {
      UntagThree(text, i);
    } else if IsFour(text, i) {
      UntagFour(text, i);
    } else {
      assert text[i..i + 1] == [text[i]];
    }
  }

  lemma UntagTwo(text: seq<byte>, i: nat)
    requires IsTwo(text, i)
    ensures var d := Decode(text, i); IsScalar(d.value) && text[i..d.next] == Encode(d.value)
  {
    var a, b := Low(text[i], 32), Low(text[i + 1], 64);
    assert text[i] == 0xC0 + a && text[i + 1] == 0x80 + b;
    EncodeTwo(a, b);
    assert text[i..i + 2] == [text[i], text[i + 1]];
  }

  lemma UntagThree(text: seq<byte>, i: nat)
    requires IsThree(text, i) && !IsTwo(text, i)
    ensures var d := Decode(text, i); IsScalar(d.value) && text[i..d.next] == Encode(d.value)
  {
    var a, b, c := Low(text[i], 16), Low(text[i + 1], 64), Low(text[i + 2], 64);
    assert text[i] == 0xE0 + a && text[i + 1] == 0x80 + b && text[i + 2] == 0x80 + c;
    EncodeThree(a, b, c);
    assert text[i..i + 3] == [text[i], text[i + 1], text[i + 2]];
  }

  lemma UntagFour(text: seq<byte>, i: nat)
    requires IsFour(text, i) && !IsTwo(text, i) && !IsThree(text, i)
    ensures var d := Decode(text, i); IsScalar(d.value) && text[i..d.next] == Encode(d.value)
  {
    var a, b, c, e := Low(text[i], 8), Low(text[i + 1], 64), Low(text[i + 2], 64), Low(text[i + 3], 64);
    assert text[i] == 0xF0 + a && text[i + 1] == 0x80 + b && text[i + 2] == 0x80 + c && text[i + 3] == 0x80 + e;
    EncodeFour(a, b, c, e);
    assert text[i..i + 4] == [text[i], text[i + 1], text[i + 2], text[i + 3]];
  }

  /** The ranges the program tests on the assembled value are the ones the grammar puts on the second byte. */
  lemma RejectedThree(text: seq<byte>, i: nat)
    requires i + 3 <= |text| && 0xE0 <= text[i] <= 0xEF && IsTail(text[i + 1]) && IsTail(text[i + 2])
    ensures var value := (Low(text[i], 16) * 64 + Low(text[i + 1], 64)) * 64 + Low(text[i + 2], 64);
            IsThree(text, i) <==> !(value < 0x800 || 0xD800 <= value <= 0xDFFF)
  {
    assert Low(text[i], 16) == text[i] - 0xE0 && Low(text[i + 1], 64) == text[i + 1] - 0x80;
  }

  lemma RejectedFour(text: seq<byte>, i: nat)
    requires i + 4 <= |text| && 0xF0 <= text[i] <= 0xF4
    requires IsTail(text[i + 1]) && IsTail(text[i + 2]) && IsTail(text[i + 3])
    ensures var value := ((Low(text[i], 8) * 64 + Low(text[i + 1], 64)) * 64 + Low(text[i + 2], 64)) * 64
                         + Low(text[i + 3], 64);
            IsFour(text, i) <==> !(value < 0x10000 || value > 0x10FFFF)
  {
    assert Low(text[i], 8) == text[i] - 0xF0 && Low(text[i + 1], 64) == text[i + 1] - 0x80;
  }

  /** NextCodePoint: shifts in continuation bytes, then rejects overlong forms, surrogates and large values. */
  method NextCodePoint(text: seq<byte>, index: nat) returns (value: nat, next: nat)
    requires index < |text|
    ensures Decoded(value, next) == Decode(text, index)
  {
    var lead := text[index];
    var length := 1;
    value := lead;
    var escaped := if value < 0x80 then value else 0xDC00 + value;
    if 0xC2 <= lead <= 0xDF {
      length, value := 2, Low(lead, 32);
    } else if 0xE0 <= lead <= 0xEF {
      length, value := 3, Low(lead, 16);
    } else if 0xF0 <= lead <= 0xF4 {
      length, value := 4, Low(lead, 8);
    }
    if length == 1 || index + length > |text| {
      return escaped, index + 1;
    }
    ghost var start := value;
    var offset := 1;
    while offset < length
      invariant 1 <= offset <= length
      invariant forall k :: index < k < index + offset ==> IsTail(text[k])
      invariant offset == 1 ==> value == start
      invariant offset == 2 ==> value == start * 64 + Low(text[index + 1], 64)
      invariant offset == 3 ==> value == (start * 64 + Low(text[index + 1], 64)) * 64 + Low(text[index + 2], 64)
      invariant offset == 4 ==>
          value == ((start * 64 + Low(text[index + 1], 64)) * 64 + Low(text[index + 2], 64)) * 64 + Low(text[index + 3], 64)
    {
      var continuation := text[index + offset];
      if !(0x80 <= continuation < 0xC0) {
        return escaped, index + 1;
      }
      value := value * 64 + Low(continuation, 64);
      offset := offset + 1;
    }
    if length == 3 {
      RejectedThree(text, index);
    } else if length == 4 {
      RejectedFour(text, index);
    }
    if || (length == 3 && (value < 0x800 || 0xD800 <= value <= 0xDFFF))
       || (length == 4 && (value < 0x10000 || value > 0x10FFFF))
    {
      return escaped, index + 1;
    }
    next := index + length;
  }
}
