/** Octets, big-endian integers and concatenation: the vocabulary shared by every wire format below. */
module Bytes {

  type byte = x: int | 0 <= x < 256

  const U64_MAX := 0xffff_ffff_ffff_ffff

  datatype Option<+T> = None | Some(value: T)

  datatype Result<+T, +E> = Ok(value: T) | Err(error: E)

  function Min(a: int, b: int): int {
    if a < b then a else b
  }

  // ---- Big-endian integers -------------------------------------------------------------------

  function Power256(n: nat): (p: nat)
    ensures p > 0
  {
    if n == 0 then 1 else 256 * Power256(n - 1)
  }

  /** The `size` low-order octets of `value`, most significant first. */
  function BigEndian(value: nat, size: nat): (b: seq<byte>)
    ensures |b| == size
  {
    if size == 0 then [] else BigEndian(value / 256, size - 1) + [value % 256]
  }

  function FromBigEndian(b: seq<byte>): nat {
    if b == [] then 0 else 256 * FromBigEndian(b[..|b| - 1]) + b[|b| - 1]
  }

  lemma {:induction false} FromBigEndianBound(b: seq<byte>)
    ensures FromBigEndian(b) < Power256(|b|)
  {
    if b != [] {
      FromBigEndianBound(b[..|b| - 1]);
    }
  }

  /** Reading back an appended integer loses exactly the octets that did not fit. */
  lemma {:induction false} ReadAppended(value: nat, size: nat)
    requires value < Power256(size)
    ensures FromBigEndian(BigEndian(value, size)) == value
  {
    if size > 0 {
      ReadAppended(value / 256, size - 1);
      var b := BigEndian(value, size);
      assert b[..|b| - 1] == BigEndian(value / 256, size - 1);
    }
  }

  /** Every octet string is the encoding of the integer read from it. */
  lemma {:induction false} AppendRead(b: seq<byte>)
    ensures BigEndian(FromBigEndian(b), |b|) == b
  {
    if b != [] {
      AppendRead(b[..|b| - 1]);
      assert FromBigEndian(b) / 256 == FromBigEndian(b[..|b| - 1]);
      assert b == b[..|b| - 1] + [b[|b| - 1]];
    }
  }

  /** `value >> (8 * count)`. */
  function ShiftRight(value: nat, count: nat): nat {
    if count == 0 then value else ShiftRight(value, count - 1) / 256
  }

  lemma {:induction false} ShiftHalves(value: nat, count: nat)
    ensures ShiftRight(value / 256, count) == ShiftRight(value, count + 1)
  {
    if count > 0 {
      ShiftHalves(value, count - 1);
    }
  }

  /** Most significant first: octet `i` of `size` is the value shifted right by the octets behind it. */
  lemma {:induction false} BigEndianOctet(value: nat, size: nat, i: nat)
    requires i < size
    ensures BigEndian(value, size)[i] == ShiftRight(value, size - 1 - i) % 256
  {
    if i < size - 1 {
      BigEndianOctet(value / 256, size - 1, i);
      ShiftHalves(value, size - 2 - i);
    }
  }

  /** The shifting loop of Append16, Append32 and Append64. */
  method AppendBigEndian(output: seq<byte>, value: nat, size: nat) returns (extended: seq<byte>)
    ensures extended == output + BigEndian(value, size)
  {
    extended := output;
    var index := size;
    while index != 0
      invariant 0 <= index <= size
      invariant extended == output + BigEndian(ShiftRight(value, index), size - index)
    {
      index := index - 1;
      extended := extended + [ShiftRight(value, index) % 256];
    }
  }

  /** The accumulating loop of Read64. */
  method ReadBigEndian(b: seq<byte>) returns (value: nat)
    ensures value == FromBigEndian(b) < Power256(|b|)
  {
    value := 0;
    var index := 0;
    while index < |b|
      invariant 0 <= index <= |b|
      invariant value == FromBigEndian(b[..index])
    {
      assert b[..index + 1][..index] == b[..index];
      value := value * 256 + b[index];
      index := index + 1;
    }
    assert b[..|b|] == b;
    FromBigEndianBound(b);
  }

  // ---- Concatenation -------------------------------------------------------------------------

  function Flatten(parts: seq<seq<byte>>): seq<byte> {
    if parts == [] then [] else parts[0] + Flatten(parts[1..])
  }

  lemma {:induction false} FlattenAppend(a: seq<seq<byte>>, b: seq<seq<byte>>)
    ensures Flatten(a + b) == Flatten(a) + Flatten(b)
  {
    if a == [] {
      assert a + b == b;
    } else {
      assert (a + b)[1..] == a[1..] + b;
      FlattenAppend(a[1..], b);
    }
  }

  lemma Associate<T>(a: seq<T>, b: seq<T>, c: seq<T>)
    ensures a + (b + c) == a + b + c
  {
  }

  lemma DropTwice<T>(s: seq<T>, i: nat, j: nat)
    requires i + j <= |s|
    ensures s[i..][j..] == s[i + j..]
  {
  }
}
