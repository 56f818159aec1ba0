/** Prefix integers of HPACK (section 5.1 of RFC 7541), as read by src/core/control/base/H2.cpp. */
module HpackInteger {
  import opened Bytes

  const U32_MAX := 0xffff_ffff

  /** The low-order bits of the first octet that belong to the integer: 2^N - 1. */
  type PrefixMask = m: int | m == 15 || m == 31 || m == 63 || m == 127 witness 15

  /** Octets after the prefix: base-128 digits, least significant first, the last one below 128. */
  datatype Groups = Truncated | Groups(value: nat, count: nat)

  function ReadGroups(b: seq<byte>): (g: Groups)
    ensures g.Groups? ==> 1 <= g.count <= |b|
  {
    if b == [] then Truncated
    else if b[0] < 128 then Groups(b[0], 1)
    else
      match ReadGroups(b[1..])
      case Truncated => Truncated
      case Groups(v, n) => Groups(b[0] - 128 + 128 * v, n + 1)
  }

  function WriteGroups(value: nat): seq<byte> {
    if value < 128 then [value] else [128 + value % 128] + WriteGroups(value / 128)
  }

  /** `octet & mask`, which for a mask of low-order ones is the octet modulo `mask + 1`. */
  function LowBits(octet: nat, mask: PrefixMask): (low: nat)
    ensures low <= mask
  {
    if octet <= mask then octet else LowBits(octet - mask - 1, mask)
  }

  /** The integer at the start of `b` and its size: any sum that fits 32 bits and takes at most five digits. */
  function IntegerAt(b: seq<byte>, mask: PrefixMask): (r: Option<(nat, nat)>)
    ensures r.Some? ==> 1 <= r.value.1 <= |b| && r.value.0 <= U32_MAX
  {
    if b == [] then None
    else if LowBits(b[0], mask) < mask then Some((LowBits(b[0], mask), 1))
    else
      match ReadGroups(b[1..])
      case Truncated => None
      case Groups(v, n) => if mask + v <= U32_MAX && n <= 5 then Some((mask + v, 1 + n)) else None
  }

  /** The encoder of section 5.1 of RFC 7541; `flags` is the bit above the prefix, set or clear. */
  function EncodeInteger(value: nat, mask: PrefixMask, flags: nat): (b: seq<byte>)
    requires flags == 0 || flags == mask + 1
  {
    if value < mask then [flags + value] else [flags + mask] + WriteGroups(value - mask)
  }

  lemma {:induction false} GroupsRoundTrip(value: nat, rest: seq<byte>)
    ensures ReadGroups(WriteGroups(value) + rest) == Groups(value, |WriteGroups(value)|)
  {
    var b := WriteGroups(value) + rest;
    if value >= 128 {
      GroupsRoundTrip(value / 128, rest);
      assert b[1..] == WriteGroups(value / 128) + rest;
    }
  }

  lemma GroupsAreShort(value: nat)
    requires value <= U32_MAX
    ensures |WriteGroups(value)| <= 5
  {
    var a := value / 128;
    var b := a / 128;
    var c := b / 128;
    var d := c / 128;
    assert d < 128;
    assert |WriteGroups(d)| == 1;
    assert |WriteGroups(c)| <= 2;
    assert |WriteGroups(b)| <= 3;
    assert |WriteGroups(a)| <= 4;
  }

  lemma PrefixBits(flags: nat, low: nat, mask: PrefixMask)
    requires (flags == 0 || flags == mask + 1) && low <= mask
    ensures LowBits(flags + low, mask) == low
  {
  }

  /** Every 32-bit value survives the round trip, whatever follows it. */
  lemma IntegerRoundTrip(value: nat, mask: PrefixMask, flags: nat, rest: seq<byte>)
    requires value <= U32_MAX && (flags == 0 || flags == mask + 1)
    ensures var e := EncodeInteger(value, mask, flags); IntegerAt(e + rest, mask) == Some((value, |e|))
  {
    var e := EncodeInteger(value, mask, flags);
    PrefixBits(flags, if value < mask then value else mask, mask);
    if value >= mask {
      GroupsRoundTrip(value - mask, rest);
      GroupsAreShort(value - mask);
      assert (e + rest)[1..] == WriteGroups(value - mask) + rest;
    }
  }

  /** `value << (7 * n)`. */
  function ShiftLeft(value: nat, n: nat): nat {
    if n == 0 then value else 128 * ShiftLeft(value, n - 1)
  }

  /** `value >> (7 * n)`. */
  function ShiftRight7(value: nat, n: nat): nat {
    if n == 0 then value else ShiftRight7(value / 128, n - 1)
  }

  /** The low seven bits of the octets, least significant first. */
  function DigitSum(b: seq<byte>): nat {
    if b == [] then 0 else b[0] % 128 + 128 * DigitSum(b[1..])
  }

  /** The digits end with the first octet below 128. */
  lemma {:induction false} DigitsEnd(b: seq<byte>, n: nat)
    requires n < |b| && b[n] < 128 && forall i :: 0 <= i < n ==> b[i] >= 128
    ensures ReadGroups(b) == Groups(DigitSum(b[..n + 1]), n + 1)
  {
    if n > 0 {
      assert b[1..][n - 1] == b[n];
      assert forall i :: 0 <= i < n - 1 ==> b[1..][i] == b[i + 1];
      DigitsEnd(b[1..], n - 1);
      assert b[..n + 1][1..] == b[1..][..n];
    } else {
      assert b[..1][1..] == [];
    }
  }

  lemma {:induction false} DigitsGoOn(b: seq<byte>, n: nat)
    requires n <= |b| && forall i :: 0 <= i < n ==> b[i] >= 128
    ensures ReadGroups(b).Groups? ==> ReadGroups(b).count > n
  {
    if n > 0 {
      assert forall i :: 0 <= i < n - 1 ==> b[1..][i] == b[i + 1];
      DigitsGoOn(b[1..], n - 1);
    }
  }

  /** Behind a full prefix, digits that end within five octets are read if the sum fits, and no others are. */
  lemma DigitsAreLimited(b: seq<byte>, mask: PrefixMask, n: nat)
    requires b != [] && LowBits(b[0], mask) == mask && n < |b| && forall i :: 1 <= i < n ==> b[i] >= 128
    ensures n >= 1 && b[n] < 128 ==>
      var sum := mask + DigitSum(b[1..n + 1]);
      IntegerAt(b, mask) == if n <= 5 && sum <= 0xffff_ffff then Some((sum, 1 + n)) else None
    ensures n == 6 ==> IntegerAt(b, mask) == None
  {
    if n >= 1 {
      assert forall i :: 0 <= i < n - 1 ==> b[1..][i] == b[i + 1];
      assert b[1..][n - 1] == b[n];
      DigitsGoOn(b[1..], n - 1);
      if b[n] < 128 {
        DigitsEnd(b[1..], n - 1);
        assert b[1..][..n] == b[1..n + 1];
      }
    }
  }

  lemma {:induction false} ShiftSum(a: nat, b: nat, n: nat)
    ensures ShiftLeft(a + 128 * b, n) == ShiftLeft(a, n) + ShiftLeft(b, n + 1)
  {
    if n > 0 {
      ShiftSum(a, b, n - 1);
    }
  }

  /** The overflow test of the loop is exact: no room for the digit means the sum does not fit. */
  lemma {:induction false} OverflowTest(room: nat, digit: nat, n: nat)
    ensures digit > ShiftRight7(room, n) <==> ShiftLeft(digit, n) > room
  {
    if n > 0 {
      OverflowTest(room / 128, digit, n - 1);
    }
  }

  /** After `n` digits worth `sum`, the whole is what the rest says, shifted past them. */
  ghost predicate Continues(all: Groups, rest: Groups, n: nat, sum: nat) {
    match rest
    case Truncated => all.Truncated?
    case Groups(v, k) => all == Groups(sum + ShiftLeft(v, n), n + k)
  }

  lemma NextDigit(all: Groups, b: seq<byte>, n: nat, sum: nat)
    requires b != [] && Continues(all, ReadGroups(b), n, sum)
    ensures var digit := b[0] % 128;
      && (all.Groups? ==> all.value >= sum + ShiftLeft(digit, n))
      && (if b[0] < 128 then all == Groups(sum + ShiftLeft(digit, n), n + 1)
          else Continues(all, ReadGroups(b[1..]), n + 1, sum + ShiftLeft(digit, n)))
  {
    if b[0] >= 128 && ReadGroups(b[1..]).Groups? {
      ShiftSum(b[0] - 128, ReadGroups(b[1..]).value, n);
    }
  }

  /** `ReadHpackInteger`: `next` is meaningful when a value is returned. */
  method ReadInteger(data: seq<byte>, offset: nat, mask: PrefixMask) returns (r: Option<nat>, next: nat)
    requires offset <= |data|
    ensures next <= |data|
    ensures match IntegerAt(data[offset..], mask)
      case None => r == None
      case Some((v, n)) => r == Some(v) && next == offset + n && v <= U32_MAX
  {
    next := offset;
    if offset >= |data| {
      return None, next;
    }
    var value := LowBits(data[offset], mask);
    next := next + 1;
    if value < mask {
      return Some(value), next;
    }
    assert data[offset..][1..] == data[next..];
    r, next := ReadContinuation(data, next, value);
  }

  /** The loop: one base-128 digit a turn, at most five, refusing a digit that would overflow 32 bits. */
  method ReadContinuation(data: seq<byte>, offset: nat, prefix: nat) returns (r: Option<nat>, next: nat)
    requires offset <= |data| && prefix <= U32_MAX
    ensures next <= |data|
    ensures match ReadGroups(data[offset..])
      case Truncated => r == None
      case Groups(v, n) =>
        if prefix + v <= U32_MAX && n <= 5 then r == Some(prefix + v) && next == offset + n else r == None
  {
    ghost var all := ReadGroups(data[offset..]);
    var value, digits := prefix, 0;
    next := offset;
    while next < |data|
      invariant digits <= 5 && next == offset + digits <= |data|
      invariant prefix <= value <= U32_MAX
      invariant Continues(all, ReadGroups(data[next..]), digits, value - prefix)
    {
      var octet := data[next];
      if digits >= 5 {
        return None, next + 1;
      }
      NextDigit(all, data[next..], digits, value - prefix);
      assert data[next..][1..] == data[next + 1..];
      next := next + 1;
      var digit := octet % 128;
      OverflowTest(U32_MAX - value, digit, digits);
      if digit > ShiftRight7(U32_MAX - value, digits) {
        return None, next;
      }
      value := value + ShiftLeft(digit, digits);
      if octet < 128 {
        return Some(value), next;
      }
      digits := digits + 1;
    }
    return None, next;
  }
}
