/** Integers as bytes, least significant first: src/payload.cc:211-223 and tools/embed_payloads.cc:68-76. */
module LittleEndian {
  import opened Wrappers
  import opened Utf8
  import opened Arithmetic
  import opened Pieces

  function Power(n: nat): nat
    ensures Power(n) > 0
  {
    if n == 0 then 1 else 256 * Power(n - 1)
  }

  /** The value of the bytes from one offset up to another. */
  function Value(input: seq<byte>, from: nat, end: nat): nat
    requires from <= end <= |input|
    decreases end - from
  {
    if from == end then 0 else input[from] + 256 * Value(input, from + 1, end)
  }

  /** The low n bytes of a value. */
  function Encoded(value: nat, n: nat): (bytes: seq<byte>)
    ensures |bytes| == n
  {
    seq(n, k requires 0 <= k => Shifted(value, k) % 256)
  }

  /** The value without its low k bytes. */
  function Shifted(value: nat, k: nat): nat
    decreases k
  {
    if k == 0 then value else Shifted(value / 256, k - 1)
  }

  lemma {:induction false} ValueBound(input: seq<byte>, from: nat, end: nat)
    requires from <= end <= |input|
    ensures Value(input, from, end) < Power(end - from)
    decreases end - from
  {
    if from < end {
      ValueBound(input, from + 1, end);
    }
  }

  /** What follows the lowest byte encodes the rest of the value. */
  lemma EncodedRest(value: nat, n: nat, k: nat)
    requires k + 1 < n
    ensures Encoded(value, n)[k + 1] == Encoded(value / 256, n - 1)[k]
  {
  }

  lemma EncodedTail(value: nat, input: seq<byte>, from: nat, n: nat)
    requires n > 0 && At(input, from, Encoded(value, n))
    ensures At(input, from + 1, Encoded(value / 256, n - 1))
  {
    var rest := Encoded(value / 256, n - 1);
    forall k | 0 <= k < |rest| ensures input[from + 1 + k] == rest[k] {
      EncodedRest(value, n, k);
      assert input[from + (k + 1)] == Encoded(value, n)[k + 1];
    }
  }

  /** Reading back what was written gives the value, cut to the width. */
  lemma {:induction false} ValueOfEncoded(value: nat, input: seq<byte>, from: nat, n: nat)
    requires At(input, from, Encoded(value, n))
    ensures Value(input, from, from + n) == value % Power(n)
    decreases n
  {
    if n > 0 {
      assert input[from] == Encoded(value, n)[0] == value % 256;
      EncodedTail(value, input, from, n);
      ValueOfEncoded(value / 256, input, from + 1, n - 1);
      CutInner(value, Power(n - 1));
    }
  }

  lemma CutInner(value: nat, p: nat)
    requires p > 0
    ensures value % (256 * p) == value % 256 + 256 * ((value / 256) % p)
  {
    var q, r := value / 256, value % 256;
    var qq, rr := q / p, q % p;
    assert q == p * qq + rr;
    assert value == 256 * q + r;
    calc {
      value;
      256 * (p * qq + rr) + r;
      (256 * p) * qq + (256 * rr + r);
    }
    DivisionUnique(value, 256 * p, qq, 256 * rr + r);
  }

  /** Values that fit the width survive. */
  lemma RoundTrip(value: nat, input: seq<byte>, from: nat, n: nat)
    requires At(input, from, Encoded(value, n)) && value < Power(n)
    ensures Value(input, from, from + n) == value
  {
    ValueOfEncoded(value, input, from, n);
    DivisionUnique(value, Power(n), 0, value);
  }

  lemma {:induction false} ValueOfPart(file: seq<byte>, at: nat, part: seq<byte>, from: nat, end: nat)
    requires At(file, at, part) && from <= end <= |part|
    ensures Value(part, from, end) == Value(file, at + from, at + end)
    decreases end - from
  {
    if from < end {
      ValueOfPart(file, at, part, from + 1, end);
      assert part[from] == file[at + from];
    }
  }

  /** Writing what was read gives the bytes back. */
  lemma {:induction false} EncodedValue(input: seq<byte>, from: nat, n: nat)
    requires from + n <= |input|
    ensures At(input, from, Encoded(Value(input, from, from + n), n))
    decreases n
  {
    if n > 0 {
      EncodedValue(input, from + 1, n - 1);
      var v := Value(input, from, from + n);
      assert v % 256 == input[from] && v / 256 == Value(input, from + 1, from + n);
      forall k | 0 <= k < n ensures input[from + k] == Encoded(v, n)[k] {
        if k > 0 {
          EncodedRest(v, n, k - 1);
          assert input[from + 1 + (k - 1)] == Encoded(v / 256, n - 1)[k - 1];
        }
      }
    }
  }

  /** Value, read from the end. */
  lemma {:induction false} ValueExtend(input: seq<byte>, from: nat, end: nat)
    requires from <= end < |input|
    ensures Value(input, from, end + 1) == Value(input, from, end) + input[end] * Power(end - from)
    decreases end - from
  {
    if from < end {
      ValueExtend(input, from + 1, end);
      var p := Power(end - from - 1);
      assert 256 * (input[end] * p) == input[end] * (256 * p);
    }
  }

  /** ReadLittleEndian: None instead of the truncation error. */
  method Read(input: seq<byte>, offset: nat, size: nat) returns (value: Option<nat>)
    ensures value == if offset + size <= |input| then Some(Value(input, offset, offset + size)) else None
  {
    if offset > |input| || |input| - offset < size {
      return None;
    }
    var total: nat, weight: nat := 0, 1;
    for index := 0 to size
      invariant total == Value(input, offset, offset + index) && weight == Power(index)
    {
      ValueExtend(input, offset, offset + index);
      total := total + input[offset + index] * weight;
      weight := 256 * weight;
    }
    return Some(total);
  }

  /** The bytes WriteLittleEndian computes. */
  method Write(value: nat, size: nat) returns (bytes: seq<byte>)
    ensures bytes == Encoded(value, size)
  {
    bytes := [];
    for index := 0 to size
      invariant |bytes| == index
      invariant forall k :: 0 <= k < index ==> bytes[k] == Encoded(value, size)[k]
    {
      bytes := bytes + [Shifted(value, index) % 256];
    }
  }
}
