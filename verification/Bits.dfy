/** Bit strings, most significant bit first, of numbers and of octets. */
module Bits {
  import opened Bytes

  type bit = x: int | 0 <= x < 2

  function Power2(n: nat): (p: nat)
    ensures p > 0
  {
    if n == 0 then 1 else 2 * Power2(n - 1)
  }

  /** The `n` low-order bits of `value`, most significant first. */
  function ToBits(value: nat, n: nat): (b: seq<bit>)
    ensures |b| == n
  {
    if n == 0 then [] else ToBits(value / 2, n - 1) + [value % 2]
  }

  function Value(b: seq<bit>): nat {
    if b == [] then 0 else 2 * Value(b[..|b| - 1]) + b[|b| - 1]
  }

  lemma {:induction false} ValueOfBits(value: nat, n: nat)
    requires value < Power2(n)
    ensures Value(ToBits(value, n)) == value
  {
    if n > 0 {
      ValueOfBits(value / 2, n - 1);
      assert ToBits(value, n)[..n - 1] == ToBits(value / 2, n - 1);
    }
  }

  lemma {:induction false} BitsOfValue(b: seq<bit>)
    ensures ToBits(Value(b), |b|) == b && Value(b) < Power2(|b|)
  {
    if b != [] {
      BitsOfValue(b[..|b| - 1]);
      assert Value(b) / 2 == Value(b[..|b| - 1]);
      assert b == b[..|b| - 1] + [b[|b| - 1]];
    }
  }

  /** `value >> n`. */
  function Halve(value: nat, n: nat): nat {
    if n == 0 then value else Halve(value / 2, n - 1)
  }

  lemma {:induction false} PrefixBits(value: nat, n: nat, k: nat)
    requires k <= n
    ensures ToBits(value, n)[..k] == ToBits(Halve(value, n - k), k)
  {
    if k < n {
      PrefixBits(value / 2, n - 1, k);
      assert ToBits(value, n)[..k] == ToBits(value / 2, n - 1)[..k];
    } else {
      assert ToBits(value, n)[..n] == ToBits(value, n);
    }
  }

  // ---- Octets --------------------------------------------------------------------------------

  function OctetBits(b: seq<byte>): (bits: seq<bit>)
    ensures |bits| == 8 * |b|
  {
    if b == [] then [] else ToBits(b[0], 8) + OctetBits(b[1..])
  }

  /** `(data[bit / 8] >> (7 - bit % 8)) & 1`. */
  function BitAt(data: seq<byte>, index: nat): bit
    requires index < 8 * |data|
  {
    Halve(data[index / 8], 7 - index % 8) % 2
  }

  lemma BitOfValue(value: nat, n: nat, i: nat)
    requires i < n
    ensures ToBits(value, n)[i] == Halve(value, n - 1 - i) % 2
  {
    PrefixBits(value, n, i + 1);
    assert ToBits(value, n)[i] == ToBits(value, n)[..i + 1][i];
  }

  lemma {:induction false} BitOfOctets(b: seq<byte>, i: nat)
    requires i < 8 * |b|
    ensures OctetBits(b)[i] == BitAt(b, i)
  {
    if i < 8 {
      BitOfValue(b[0], 8, i);
    } else {
      BitOfOctets(b[1..], i - 8);
      assert b[1..][(i - 8) / 8] == b[i / 8];
    }
  }

  lemma BitOfSlice(data: seq<byte>, offset: nat, length: nat, i: nat)
    requires offset + length <= |data| && i < 8 * length
    ensures BitAt(data, 8 * offset + i) == OctetBits(data[offset..offset + length])[i]
  {
    BitOfOctets(data[offset..offset + length], i);
    assert (8 * offset + i) / 8 == offset + i / 8 && (8 * offset + i) % 8 == i % 8;
  }
}
