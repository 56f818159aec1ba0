/** Address ranges, src/core/net/IpRange.cpp, from parsed addresses on. */
module IpRange {
  import opened Bytes
  import opened Bits

  datatype Family = Ipv4 | Ipv6

  datatype Address = Address(family: Family, bytes: seq<byte>) {
    predicate Valid() {
      |bytes| == if family.Ipv6? then 16 else 4
    }
  }

  datatype Range = Range(first: Address, last: Address)

  /** `std::lexicographical_compare` on the octets. */
  predicate BytesLess(a: seq<byte>, b: seq<byte>) {
    b != [] && (a == [] || a[0] < b[0] || (a[0] == b[0] && BytesLess(a[1..], b[1..])))
  }

  predicate Contains(r: Range, x: Address) {
    x.family == r.first.family && !BytesLess(x.bytes, r.first.bytes) && !BytesLess(r.last.bytes, x.bytes)
  }

  // ---- Bits ----------------------------------------------------------------------------------

  predicate BitsLess(a: seq<bit>, b: seq<bit>)
    requires |a| == |b|
  {
    a != [] && (a[0] < b[0] || (a[0] == b[0] && BitsLess(a[1..], b[1..])))
  }

  /** What is left of a number below its top bit. */
  function Low(x: nat, n: nat): (low: nat)
    requires n > 0 && x < Power2(n)
    ensures low < Power2(n - 1)
  {
    if x >= Power2(n - 1) then x - Power2(n - 1) else x
  }

  /** The bits of a number are also read from the top. */
  lemma {:induction false} TopBit(x: nat, n: nat)
    requires n > 0 && x < Power2(n)
    ensures ToBits(x, n) == [if x >= Power2(n - 1) then 1 else 0] + ToBits(Low(x, n), n - 1)
  {
    if n > 1 {
      TopBit(x / 2, n - 1);
      assert Power2(n - 1) == 2 * Power2(n - 2);
      assert Low(x, n) / 2 == Low(x / 2, n - 1) && Low(x, n) % 2 == x % 2;
    } else {
      assert ToBits(x / 2, 0) == [];
    }
  }

  lemma {:induction false} NumbersCompareByBits(x: nat, y: nat, n: nat)
    requires x < Power2(n) && y < Power2(n)
    ensures BitsLess(ToBits(x, n), ToBits(y, n)) <==> x < y
    ensures ToBits(x, n) == ToBits(y, n) <==> x == y
  {
    if n > 0 {
      TopBit(x, n);
      TopBit(y, n);
      hide ToBits;
      NumbersCompareByBits(Low(x, n), Low(y, n), n - 1);
      assert ToBits(x, n)[1..] == ToBits(Low(x, n), n - 1) && ToBits(y, n)[1..] == ToBits(Low(y, n), n - 1);
    }
  }

  /** Strings of bits compare by their first halves, then by their second. */
  lemma {:induction false} BitsLessAppend(a: seq<bit>, b: seq<bit>, c: seq<bit>, d: seq<bit>)
    requires |a| == |b| && |c| == |d|
    ensures BitsLess(a + c, b + d) <==> BitsLess(a, b) || (a == b && BitsLess(c, d))
  {
    if a == [] {
      assert a + c == c && b + d == d;
    } else {
      BitsLessAppend(a[1..], b[1..], c, d);
      assert (a + c)[1..] == a[1..] + c && (b + d)[1..] == b[1..] + d;
      assert a == b <==> a[0] == b[0] && a[1..] == b[1..];
    }
  }

  /** Comparing octets is comparing bits. */
  lemma {:induction false} BytesCompareByBits(a: seq<byte>, b: seq<byte>)
    requires |a| == |b|
    ensures BytesLess(a, b) <==> BitsLess(OctetBits(a), OctetBits(b))
  {
    if a != [] {
      BytesCompareByBits(a[1..], b[1..]);
      Octets();
      NumbersCompareByBits(a[0], b[0], 8);
      BitsLessAppend(ToBits(a[0], 8), ToBits(b[0], 8), OctetBits(a[1..]), OctetBits(b[1..]));
    }
  }

  lemma {:induction false} OneComparison(a: seq<bit>, b: seq<bit>)
    requires |a| == |b|
    ensures BitsLess(a, b) || BitsLess(b, a) <==> a != b
    ensures !(BitsLess(a, b) && BitsLess(b, a))
  {
    if a != [] {
      OneComparison(a[1..], b[1..]);
      assert a == b <==> a[0] == b[0] && a[1..] == b[1..];
    }
  }

  function Repeat(b: bit, n: nat): (bits: seq<bit>)
    ensures |bits| == n
  {
    seq(n, _ => b)
  }

  lemma {:induction false} ExtremesBound(x: seq<bit>)
    ensures !BitsLess(x, Repeat(0, |x|)) && !BitsLess(Repeat(1, |x|), x)
  {
    if x != [] {
      ExtremesBound(x[1..]);
      assert Repeat(0, |x|)[1..] == Repeat(0, |x| - 1) && Repeat(1, |x|)[1..] == Repeat(1, |x| - 1);
    }
  }

  lemma {:induction false} PrefixDecides(p: seq<bit>, a: seq<bit>, b: seq<bit>)
    requires |a| == |p|
    ensures !BitsLess(a + b, p + Repeat(0, |b|)) && !BitsLess(p + Repeat(1, |b|), a + b) <==> a == p
  {
    hide BitsLess, Repeat;
    BitsLessAppend(a, p, b, Repeat(0, |b|));
    BitsLessAppend(p, a, Repeat(1, |b|), b);
    ExtremesBound(b);
    OneComparison(a, p);
  }

  /** Between a prefix followed by zeros and the same followed by ones lie exactly the strings with that prefix. */
  lemma {:induction false} BetweenExtremes(p: seq<bit>, x: seq<bit>)
    requires |p| <= |x|
    ensures var n := |x| - |p|;
      !BitsLess(x, p + Repeat(0, n)) && !BitsLess(p + Repeat(1, n), x) <==> x[..|p|] == p
  {
    hide BitsLess, Repeat;
    assert x[..|p|] + x[|p|..] == x;
    PrefixDecides(p, x[..|p|], x[|p|..]);
  }

  // ---- CIDR blocks ---------------------------------------------------------------------------

  /** A range is the block of an address and a prefix: the prefix followed by all zeros and by all ones. */
  ghost predicate IsBlock(r: Range, a: Address, prefix: nat) {
    && r.first.family == r.last.family == a.family && |r.first.bytes| == |r.last.bytes| == |a.bytes|
    && prefix <= 8 * |a.bytes|
    && OctetBits(r.first.bytes) == OctetBits(a.bytes)[..prefix] + Repeat(0, 8 * |a.bytes| - prefix)
    && OctetBits(r.last.bytes) == OctetBits(a.bytes)[..prefix] + Repeat(1, 8 * |a.bytes| - prefix)
  }

  /** A block contains exactly the addresses of its family that share the prefix (section 3.1 of RFC 4632). */
  lemma BlockContains(r: Range, a: Address, prefix: nat, x: Address)
    requires a.Valid() && x.Valid() && IsBlock(r, a, prefix)
    ensures Contains(r, x) <==> x.family == a.family && OctetBits(x.bytes)[..prefix] == OctetBits(a.bytes)[..prefix]
  {
    if x.family == a.family {
      BytesCompareByBits(x.bytes, r.first.bytes);
      BytesCompareByBits(r.last.bytes, x.bytes);
      BetweenExtremes(OctetBits(a.bytes)[..prefix], OctetBits(x.bytes));
    }
  }

  lemma UpdateTail(top: bit, bits: seq<bit>, k: nat, b: bit)
    requires 0 < k <= |bits|
    ensures ([top] + bits)[k := b] == [top] + bits[k - 1 := b]
  {
  }

  /** Taking the weight of a set bit off a number clears that bit and no other. */
  lemma {:induction false} TakeBit(x: nat, n: nat, k: nat)
    requires k < n && x < Power2(n) && ToBits(x, n)[k] == 1
    ensures Power2(n - 1 - k) <= x && ToBits(x - Power2(n - 1 - k), n) == ToBits(x, n)[k := 0]
  {
    hide ToBits;
    TopBit(x, n);
    if k > 0 {
      TakeBit(Low(x, n), n - 1, k - 1);
      UpdateTail(if x >= Power2(n - 1) then 1 else 0, ToBits(Low(x, n), n - 1), k, 0);
    }
    TopBit(x - Power2(n - 1 - k), n);
  }

  /** Adding the weight of a clear bit sets that bit and no other. */
  lemma {:induction false} GiveBit(x: nat, n: nat, k: nat)
    requires k < n && x < Power2(n) && ToBits(x, n)[k] == 0
    ensures x + Power2(n - 1 - k) < Power2(n) && ToBits(x + Power2(n - 1 - k), n) == ToBits(x, n)[k := 1]
  {
    hide ToBits;
    TopBit(x, n);
    if k > 0 {
      GiveBit(Low(x, n), n - 1, k - 1);
      UpdateTail(if x >= Power2(n - 1) then 1 else 0, ToBits(Low(x, n), n - 1), k, 1);
    }
    TopBit(x + Power2(n - 1 - k), n);
  }

  lemma Octets()
    ensures Power2(8) == 256
  {
    assert Power2(4) == 16;
  }

  lemma NoChange(bits: seq<bit>, k: nat)
    requires k < |bits|
    ensures bits[k := bits[k]] == bits
  {
  }

  function WithBit(x: nat, n: nat, k: nat, value: bit): (y: nat)
    requires k < n && x < Power2(n)
    ensures y < Power2(n) && ToBits(y, n) == ToBits(x, n)[k := value]
  {
    if ToBits(x, n)[k] == value then
      NoChange(ToBits(x, n), k);
      x
    else if value == 0 then
      TakeBit(x, n, k);
      x - Power2(n - 1 - k)
    else
      GiveBit(x, n, k);
      x + Power2(n - 1 - k)
  }

  /** `x & ~mask` or `x | mask`, for the mask of bit `k`. */
  function Masked(x: byte, k: nat, value: bit): (y: byte)
    requires k < 8
    ensures ToBits(y, 8) == ToBits(x, 8)[k := value]
  {
    Octets();
    WithBit(x, 8, k, value)
  }

  /** Changing one bit of one octet changes one bit of the whole. */
  lemma {:induction false} ChangeOctet(b: seq<byte>, i: nat, y: byte, k: nat, value: bit)
    requires i < |b| && k < 8 && ToBits(y, 8) == ToBits(b[i], 8)[k := value]
    ensures OctetBits(b[i := y]) == OctetBits(b)[8 * i + k := value]
  {
    hide ToBits;
    if i == 0 {
      assert b[0 := y][1..] == b[1..];
    } else {
      ChangeOctet(b[1..], i - 1, y, k, value);
      assert b[i := y][1..] == b[1..][i - 1 := y];
    }
  }

  lemma {:induction false} BitsAppend(a: seq<byte>, b: seq<byte>)
    ensures OctetBits(a + b) == OctetBits(a) + OctetBits(b)
  {
    hide ToBits;
    if a == [] {
      assert a + b == b;
    } else {
      BitsAppend(a[1..], b);
      assert (a + b)[1..] == a[1..] + b;
    }
  }

  /** The first `n` bits kept, the next `m - n` overwritten, the rest kept. */
  function Overwritten(bits: seq<bit>, n: nat, m: nat, value: bit): seq<bit>
    requires n <= m <= |bits|
  {
    bits[..n] + Repeat(value, m - n) + bits[m..]
  }

  lemma OverwriteNext(bits: seq<bit>, n: nat, m: nat, value: bit)
    requires n <= m < |bits|
    ensures Overwritten(bits, n, m, value)[m := value] == Overwritten(bits, n, m + 1, value)
  {
  }

  lemma OverwriteToEnd(bits: seq<bit>, tail: seq<bit>, n: nat, value: bit)
    requires n <= |bits|
    ensures Overwritten(bits + tail, n, |bits|, value) == bits[..n] + Repeat(value, |bits| - n) + tail
  {
    assert (bits + tail)[..n] == bits[..n] && (bits + tail)[|bits|..] == tail;
  }

  lemma {:induction false} SplitBits(b: seq<byte>, size: nat, head: seq<bit>, tail: seq<bit>)
    requires size <= |b| && OctetBits(b) == head + tail && |head| == 8 * size
    ensures OctetBits(b[..size]) == head
  {
    hide OctetBits;
    BitsAppend(b[..size], b[size..]);
    assert b[..size] + b[size..] == b;
    assert OctetBits(b[..size]) == OctetBits(b)[..8 * size] && head == OctetBits(b)[..8 * size];
  }

  /** `octets[bit / 8] &= ~mask` or `octets[bit / 8] |= mask`. */
  method ChangeBit(octets: array<byte>, index: nat, value: bit)
    requires index < 8 * octets.Length
    modifies octets
    ensures OctetBits(octets[..]) == OctetBits(old(octets[..]))[index := value]
  {
    hide OctetBits, ToBits;
    var i, k := index / 8, index % 8;
    ghost var before := octets[..];
    octets[i] := Masked(octets[i], k, value);
    assert octets[..] == before[i := octets[i]];
    ChangeOctet(before, i, octets[i], k, value);
  }

  /** The range of `address/prefix`. */
  method Block(a: Address, prefix: nat) returns (r: Option<Range>)
    requires a.Valid()
    ensures r.None? <==> prefix > 8 * |a.bytes|
    ensures r.Some? ==> IsBlock(r.value, a, prefix)
  {
    hide OctetBits, Overwritten;
    var size := |a.bytes|;
    var width := size * 8;
    if prefix > width {
      return None;
    }
    var padding := seq(16 - size, _ => 0);
    var padded := a.bytes + padding;
    var first := new byte[16](i requires 0 <= i < 16 => padded[i]);
    var last := new byte[16](i requires 0 <= i < 16 => padded[i]);
    assert first[..] == padded && last[..] == padded;
    ghost var bits := OctetBits(padded);
    OverwriteNone(bits, prefix);
    var bit := prefix;
    while bit < width
      invariant prefix <= bit <= width
      invariant OctetBits(first[..]) == Overwritten(bits, prefix, bit, 0)
      invariant OctetBits(last[..]) == Overwritten(bits, prefix, bit, 1)
    {
      ChangeBit(first, bit, 0);
      ChangeBit(last, bit, 1);
      OverwriteNext(bits, prefix, bit, 0);
      OverwriteNext(bits, prefix, bit, 1);
      bit := bit + 1;
    }
    ExactBlock(a.bytes, padding, prefix, 0, first[..]);
    ExactBlock(a.bytes, padding, prefix, 1, last[..]);
    return Some(Range(Address(a.family, first[..size]), Address(a.family, last[..size])));
  }

  lemma OverwriteNone(bits: seq<bit>, n: nat)
    requires n <= |bits|
    ensures Overwritten(bits, n, n, 0) == bits == Overwritten(bits, n, n, 1)
  {
  }

  lemma {:induction false} ExactBlock(octets: seq<byte>, padding: seq<byte>, prefix: nat, value: bit, result: seq<byte>)
    requires |result| == |octets| + |padding| && prefix <= 8 * |octets|
    requires OctetBits(result) == Overwritten(OctetBits(octets + padding), prefix, 8 * |octets|, value)
    ensures OctetBits(result[..|octets|]) == OctetBits(octets)[..prefix] + Repeat(value, 8 * |octets| - prefix)
  {
    hide OctetBits, Overwritten, Repeat;
    BitsAppend(octets, padding);
    OverwriteToEnd(OctetBits(octets), OctetBits(padding), prefix, value);
    SplitBits(result, |octets|, OctetBits(octets)[..prefix] + Repeat(value, 8 * |octets| - prefix), OctetBits(padding));
  }

  // ---- Other ranges --------------------------------------------------------------------------

  lemma {:induction false} LastOctet(a: seq<byte>, b: seq<byte>, x: byte, y: byte)
    requires |a| == |b|
    ensures BytesLess(a + [x], b + [y]) <==> BytesLess(a, b) || (a == b && x < y)
  {
    if a == [] {
      assert a + [x] == [x] && b + [y] == [y];
    } else {
      LastOctet(a[1..], b[1..], x, y);
      assert (a + [x])[1..] == a[1..] + [x] && (b + [y])[1..] == b[1..] + [y];
      assert a == b <==> a[0] == b[0] && a[1..] == b[1..];
    }
  }

  /** Octets in network order compare like the numbers they spell. */
  lemma {:induction false} BytesCompareByValue(a: seq<byte>, b: seq<byte>)
    requires |a| == |b|
    ensures BytesLess(a, b) <==> FromBigEndian(a) < FromBigEndian(b)
  {
    if a != [] {
      var n := |a| - 1;
      BytesCompareByValue(a[..n], b[..n]);
      LastOctet(a[..n], b[..n], a[n], b[n]);
      assert a == a[..n] + [a[n]] && b == b[..n] + [b[n]];
      AppendRead(a[..n]);
      AppendRead(b[..n]);
    }
  }

  /** `first-last`, refused when the families differ or the ends are out of order. */
  function Between(first: Address, last: Address): Option<Range> {
    if first.family != last.family || BytesLess(last.bytes, first.bytes) then None else Some(Range(first, last))
  }

  /** A range of two addresses contains those of the family whose numbers lie between theirs, and is not empty. */
  lemma BetweenContains(first: Address, last: Address, x: Address)
    requires first.Valid() && last.Valid() && x.Valid()
    ensures var r := Between(first, last);
      && (r.Some? <==> first.family == last.family && FromBigEndian(first.bytes) <= FromBigEndian(last.bytes))
      && (r.Some? ==>
            && Contains(r.value, first) && Contains(r.value, last)
            && (Contains(r.value, x) <==>
                  && x.family == first.family
                  && FromBigEndian(first.bytes) <= FromBigEndian(x.bytes) <= FromBigEndian(last.bytes)))
  {
    if first.family == last.family {
      BytesCompareByValue(last.bytes, first.bytes);
      BytesCompareByValue(first.bytes, first.bytes);
      BytesCompareByValue(last.bytes, last.bytes);
      if x.family == first.family {
        BytesCompareByValue(x.bytes, first.bytes);
        BytesCompareByValue(last.bytes, x.bytes);
      }
    }
  }

  // ---- What a text means ---------------------------------------------------------------------

  /** A text split at its first dash, or else at its first slash, with whatever its parts parsed to. */
  datatype Form =
    | Dashed(first: Option<Address>, last: Option<Address>)
    | Single(address: Option<Address>)
    | Slashed(address: Option<Address>, prefix: Option<nat>)

  predicate Valid(a: Option<Address>) {
    a.Some? ==> a.value.Valid()
  }

  predicate ValidForm(f: Form) {
    match f
    case Dashed(first, last) => Valid(first) && Valid(last)
    case Single(a) => Valid(a)
    case Slashed(a, _) => Valid(a)
  }

  predicate Meaningful(f: Form) {
    match f
    case Dashed(first, last) =>
      && first.Some? && last.Some? && first.value.family == last.value.family
      && FromBigEndian(first.value.bytes) <= FromBigEndian(last.value.bytes)
    case Single(a) => a.Some?
    case Slashed(a, prefix) => a.Some? && prefix.Some? && prefix.value <= 8 * |a.value.bytes|
  }

  /** The addresses a text stands for. */
  predicate Covers(f: Form, x: Address)
    requires Meaningful(f)
  {
    match f
    case Dashed(first, last) =>
      && x.family == first.value.family
      && FromBigEndian(first.value.bytes) <= FromBigEndian(x.bytes) <= FromBigEndian(last.value.bytes)
    case Single(a) => x == a.value
    case Slashed(a, prefix) =>
      && x.family == a.value.family && |x.bytes| == |a.value.bytes|
      && OctetBits(x.bytes)[..prefix.value] == OctetBits(a.value.bytes)[..prefix.value]
  }

  /** A text is accepted exactly when it stands for addresses, and the range contains exactly those. */
  method TryParse(f: Form) returns (r: Option<Range>)
    requires ValidForm(f)
    ensures r.Some? <==> Meaningful(f)
    ensures r.Some? ==> forall x: Address :: x.Valid() ==> (Contains(r.value, x) <==> Covers(f, x))
  {
    hide BytesLess, OctetBits;
    match f
    case Dashed(first, last) =>
      if first.None? || last.None? {
        return None;
      }
      r := Between(first.value, last.value);
      forall x: Address | x.Valid()
        ensures r.Some? <==> Meaningful(f)
        ensures r.Some? ==> (Contains(r.value, x) <==> Covers(f, x))
      {
        BetweenContains(first.value, last.value, x);
      }
      BetweenContains(first.value, last.value, first.value);
    case Single(a) =>
      if a.None? {
        return None;
      }
      r := Some(Range(a.value, a.value));
      forall x: Address | x.Valid()
        ensures Contains(r.value, x) <==> x == a.value
      {
        SingleContains(a.value, x);
      }
    case Slashed(a, prefix) =>
      if a.None? || prefix.None? {
        return None;
      }
      r := Block(a.value, prefix.value);
      if r.Some? {
        forall x: Address | x.Valid()
          ensures Contains(r.value, x) <==> Covers(f, x)
        {
          BlockContains(r.value, a.value, prefix.value, x);
        }
      }
  }

  lemma SingleContains(a: Address, x: Address)
    requires a.Valid() && x.Valid()
    ensures Contains(Range(a, a), x) <==> x == a
  {
    if x.family == a.family {
      BytesCompareByValue(x.bytes, a.bytes);
      BytesCompareByValue(a.bytes, x.bytes);
      AppendRead(x.bytes);
      AppendRead(a.bytes);
    }
  }
}
