/** Huffman-coded strings of HPACK (section 5.2 of RFC 7541), as decoded by src/core/control/base/H2.cpp. */
module HpackHuffman {
  import opened Bytes
  import opened Bits
  import opened HpackHuffmanTable

  // ---- Padding -------------------------------------------------------------------------------

  function Ones(n: nat): (b: seq<bit>)
    ensures |b| == n
  {
    seq(n, _ => 1)
  }

  lemma {:induction false} OnesValue(n: nat)
    ensures Value(Ones(n)) == Power2(n) - 1 && ToBits(Power2(n) - 1, n) == Ones(n)
  {
    if n > 0 {
      OnesValue(n - 1);
      assert Ones(n)[..n - 1] == Ones(n - 1);
      BitsOfValue(Ones(n));
    }
  }

  // ---- Canonical codes are prefix-free -------------------------------------------------------

  /**
    * A canonical Huffman code: the codes of one length are consecutive, each length starts where the previous one
    * ends, and only thirty ones are left over. `order` finds the octet behind each code.
    */
  datatype Canon = Canon(codes: seq<Code>, bands: seq<Band>, order: seq<nat>) {
    ghost predicate Valid() {
      && |codes| == 256 && |bands| == 31 && |order| == 256
      && (forall j, k :: 5 <= j < 30 && k == j + 1 ==> bands[k].first == 2 * (bands[j].first + bands[j].count))
      && bands[30].first + bands[30].count == 0x3fff_ffff
      && (forall s :: 0 <= s < 256 ==> InBand(codes, bands, order, s))
    }

    lemma {:induction false} BandFits(length: nat)
      requires Valid() && 5 <= length <= 30
      ensures bands[length].first + bands[length].count <= Power2(length) - 1
      decreases 30 - length
    {
      if length == 30 {
        PowerThirty();
      } else {
        BandFits(length + 1);
      }
    }

    /** What lies in or after a band has every proper prefix after that prefix's band. */
    lemma {:induction false} PrefixIsBeyond(value: nat, length: nat, k: nat)
      requires Valid() && 5 <= k < length <= 30 && value >= bands[length].first
      ensures Halve(value, length - k) >= bands[k].first + bands[k].count
      decreases length
    {
      assert bands[length].first == 2 * (bands[length - 1].first + bands[length - 1].count);
      if k < length - 1 {
        PrefixIsBeyond(value / 2, length - 1, k);
      }
    }

    function Bits(s: nat): seq<bit>
      requires s < |codes|
    {
      ToBits(codes[s].bits, codes[s].length)
    }

    lemma BitsValue(s: nat)
      requires Valid() && s < 256
      ensures codes[s].bits < Power2(codes[s].length) && Value(Bits(s)) == codes[s].bits
    {
      assert InBand(codes, bands, order, s);
      BandFits(codes[s].length);
      ValueOfBits(codes[s].bits, codes[s].length);
    }

    /** A code is no proper prefix of anything in or after the band of a longer length. */
    lemma NotAPrefix(s: nat, value: nat, length: nat)
      requires Valid() && s < 256 && codes[s].length < length <= 30
      requires bands[length].first <= value < Power2(length)
      ensures !(Bits(s) <= ToBits(value, length))
    {
      assert InBand(codes, bands, order, s);
      var k := codes[s].length;
      if Bits(s) <= ToBits(value, length) {
        PrefixBits(value, length, k);
        assert Bits(s) == ToBits(Halve(value, length - k), k);
        PrefixIsBeyond(value, length, k);
        HalveFits(value, length, k);
        ValueOfBits(Halve(value, length - k), k);
        BitsValue(s);
      }
    }

    lemma NoCodeStartsAnother(s: nat, t: nat)
      requires Valid() && s < 256 && t < 256 && s != t
      ensures !(Bits(s) <= Bits(t))
    {
      assert InBand(codes, bands, order, s) && InBand(codes, bands, order, t);
      BitsValue(s);
      BitsValue(t);
      if codes[s].length < codes[t].length {
        NotAPrefix(s, codes[t].bits, codes[t].length);
      } else if codes[s].length == codes[t].length {
        SameLength(Bits(s), Bits(t));
      }
    }

    lemma NoCodeStartsOnes(s: nat)
      requires Valid() && s < 256
      ensures !(Bits(s) <= Ones(30))
    {
      assert InBand(codes, bands, order, s);
      OnesValue(30);
      PowerThirty();
      BitsValue(s);
      if codes[s].length < 30 {
        NotAPrefix(s, 0x3fff_ffff, 30);
      } else {
        SameLength(Bits(s), Ones(30));
      }
    }
  }

  lemma SameLength(a: seq<bit>, b: seq<bit>)
    requires |a| == |b|
    ensures a <= b ==> a == b
  {
  }

  lemma PowerThirty()
    ensures Power2(30) == 0x4000_0000
  {
    assert Power2(6) == 0x40 && Power2(12) == 0x1000 && Power2(18) == 0x4_0000;
    assert Power2(24) == 0x100_0000;
  }

  lemma {:induction false} HalveFits(value: nat, length: nat, k: nat)
    requires k <= length && value < Power2(length)
    ensures Halve(value, length - k) < Power2(k)
  {
    if k < length {
      HalveFits(value / 2, length - 1, k);
    }
  }

  /** A code book: the bit string of every octet. */
  type Book = seq<seq<bit>>

  /** No code starts another one, nor the thirty ones that mark the end of a string. */
  ghost predicate PrefixFree(book: Book) {
    && |book| == 256
    && (forall s :: 0 <= s < 256 ==> 0 < |book[s]| <= 30)
    && (forall s, t :: 0 <= s < 256 && 0 <= t < 256 && s != t ==> !(book[s] <= book[t]))
    && (forall s :: 0 <= s < 256 ==> !(book[s] <= Ones(30)))
  }

  // ---- The table of the repository -----------------------------------------------------------

  function Huffman(): (book: Book)
    ensures |book| == 256
  {
    var codes := Codes();
    seq(256, s requires 0 <= s < 256 => ToBits(codes[s].bits, codes[s].length))
  }

  lemma BandChain(length: nat)
    requires 5 <= length < 30
    ensures BandOf(length + 1).first == 2 * (BandOf(length).first + BandOf(length).count)
  {
  }

  lemma TableIsCanonical()
    ensures Canon(Codes(), Bands(), Order()).Valid()
  {
    forall s | 0 <= s < 256
      ensures InBand(Codes(), Bands(), Order(), s)
    {
      TableInBand(s);
    }
    forall j, k | 5 <= j < 30 && k == j + 1
      ensures Bands()[k].first == 2 * (Bands()[j].first + Bands()[j].count)
    {
      BandChain(j);
    }
  }

  lemma CanonIsPrefixFree(canon: Canon, book: Book)
    requires canon.Valid() && |book| == 256
    requires forall s :: 0 <= s < 256 ==> book[s] == canon.Bits(s)
    ensures PrefixFree(book)
  {
    forall s | 0 <= s < 256
      ensures 0 < |book[s]| <= 30 && !(book[s] <= Ones(30))
    {
      assert InBand(canon.codes, canon.bands, canon.order, s);
      canon.NoCodeStartsOnes(s);
    }
    forall s, t | 0 <= s < 256 && 0 <= t < 256 && s != t
      ensures !(book[s] <= book[t])
    {
      canon.NoCodeStartsAnother(s, t);
    }
  }

  lemma HuffmanIsPrefixFree()
    ensures PrefixFree(Huffman())
  {
    TableIsCanonical();
    CanonIsPrefixFree(Canon(Codes(), Bands(), Order()), Huffman());
  }

  // ---- Encoding and its unique decoding ------------------------------------------------------

  function Encoding(book: Book, text: seq<byte>): seq<bit>
    requires |book| == 256
  {
    if text == [] then [] else book[text[0]] + Encoding(book, text[1..])
  }

  /** The codes of the text followed by at most seven ones. */
  ghost predicate Encodes(book: Book, text: seq<byte>, bits: seq<bit>)
    requires |book| == 256
  {
    exists k :: 0 <= k <= 7 && bits == Padded(book, text, k)
  }

  function Padded(book: Book, text: seq<byte>, k: nat): seq<bit>
    requires |book| == 256
  {
    Encoding(book, text) + Ones(k)
  }

  lemma {:induction false} EncodingAppend(book: Book, text: seq<byte>, s: byte)
    requires |book| == 256
    ensures Encoding(book, text + [s]) == Encoding(book, text) + book[s]
  {
    if text == [] {
      assert [s][1..] == [];
    } else {
      assert (text + [s])[1..] == text[1..] + [s];
      EncodingAppend(book, text[1..], s);
    }
  }

  ghost predicate NoCodeStarts(book: Book, x: seq<bit>) {
    forall s :: 0 <= s < |book| ==> !(book[s] <= x)
  }

  lemma StartsOnes(x: seq<bit>, k: nat, rest: seq<bit>)
    requires k <= 30 && x + rest == Ones(k)
    ensures x <= Ones(30)
  {
    assert forall i :: 0 <= i < |x| ==> x[i] == (x + rest)[i] == 1;
  }

  lemma Comparable(a: seq<bit>, b: seq<bit>, c: seq<bit>, d: seq<bit>)
    requires a + b == c + d
    ensures a <= c || c <= a
    ensures a == c ==> b == d
  {
    if |a| <= |c| {
      assert a == (c + d)[..|a|] == c[..|a|];
    } else {
      assert c == (a + b)[..|c|] == a[..|c|];
    }
    if a == c {
      assert b == (a + b)[|a|..] && d == (c + d)[|c|..];
    }
  }

  lemma EncodingHead(book: Book, text: seq<byte>, left: seq<bit>)
    requires |book| == 256
    ensures Encoding(book, text) + left ==
            if text == [] then left else book[text[0]] + (Encoding(book, text[1..]) + left)
  {
    if text != [] {
      var a, b := book[text[0]], Encoding(book, text[1..]);
      assert a + b + left == a + (b + left);
    }
  }

  /** Two readings of the same bits agree octet by octet; what is left over is the padding. */
  lemma {:induction false} ReadingsAgree(book: Book, text: seq<byte>, left: seq<bit>, other: seq<byte>, k: nat)
    requires PrefixFree(book) && NoCodeStarts(book, left) && k <= 7
    requires Encoding(book, text) + left == Padded(book, other, k)
    ensures text == other && left == Ones(k)
  {
    EncodingHead(book, text, left);
    EncodingHead(book, other, Ones(k));
    if text != [] && other == [] {
      StartsOnes(book[text[0]], k, Encoding(book, text[1..]) + left);
    } else if text != [] {
      Comparable(book[text[0]], Encoding(book, text[1..]) + left, book[other[0]], Padded(book, other[1..], k));
      ReadingsAgree(book, text[1..], left, other[1..], k);
    }
  }

  // ---- The decoder ---------------------------------------------------------------------------

  /** `book` spells out the bits of `codes`. */
  ghost predicate Spells(book: Book, codes: seq<Code>) {
    && |book| == |codes| == 256
    && forall s :: 0 <= s < 256 ==> |book[s]| == codes[s].length && Value(book[s]) == codes[s].bits
  }

  lemma HuffmanSpellsTable()
    ensures Spells(Huffman(), Codes())
  {
    TableIsCanonical();
    var canon := Canon(Codes(), Bands(), Order());
    forall s | 0 <= s < 256
      ensures Value(canon.Bits(s)) == canon.codes[s].bits
    {
      canon.BitsValue(s);
    }
  }

  /** The search through the table: the first entry with this length and these bits. */
  method FindSymbol(codes: seq<Code>, ghost book: Book, code: nat, codeLength: nat, ghost current: seq<bit>)
    returns (found: Option<byte>)
    requires Spells(book, codes) && code == Value(current) && codeLength == |current|
    ensures found.Some? ==> book[found.value] == current
    ensures found.None? ==> forall s :: 0 <= s < 256 ==> book[s] != current
  {
    var symbol := 0;
    while symbol < 256
      invariant 0 <= symbol <= 256
      invariant forall s :: 0 <= s < symbol ==> book[s] != current
    {
      if codes[symbol].length == codeLength && codes[symbol].bits == code {
        SameValue(book[symbol], current);
        return Some(symbol);
      }
      symbol := symbol + 1;
    }
    return None;
  }

  lemma SameValue(a: seq<bit>, b: seq<bit>)
    requires |a| == |b| && Value(a) == Value(b)
    ensures a == b
  {
    BitsOfValue(a);
    BitsOfValue(b);
  }

  lemma ShorterPrefix(a: seq<bit>, x: seq<bit>, more: seq<bit>)
    requires |a| <= |x|
    ensures a <= x + more ==> a <= x
  {
  }

  lemma NoCodeStartsLonger(book: Book, x: seq<bit>, b: bit)
    requires NoCodeStarts(book, x) && forall s :: 0 <= s < |book| ==> book[s] != x + [b]
    ensures NoCodeStarts(book, x + [b])
  {
    forall s | 0 <= s < |book|
      ensures !(book[s] <= x + [b])
    {
      if |book[s]| == |x| + 1 {
        SameLength(book[s], x + [b]);
      } else if |book[s]| <= |x| {
        ShorterPrefix(book[s], x, [b]);
      }
    }
  }

  lemma NoCodeStartsWhole(book: Book, x: seq<bit>, rest: seq<bit>)
    requires PrefixFree(book) && NoCodeStarts(book, x) && |x| == 30
    ensures NoCodeStarts(book, x + rest)
  {
    forall s | 0 <= s < |book|
      ensures !(book[s] <= x + rest)
    {
      ShorterPrefix(book[s], x, rest);
    }
  }

  /** What was read so far is a text followed by bits that start no code. */
  ghost predicate ReadSoFar(book: Book, text: seq<byte>, current: seq<bit>, bits: seq<bit>)
    requires |book| == 256
  {
    Encoding(book, text) + current == bits && NoCodeStarts(book, current)
  }

  /** When thirty bits start no code, or the leftover is not padding, no text has this encoding. */
  lemma NothingElse(book: Book, text: seq<byte>, current: seq<bit>, bits: seq<bit>, other: seq<byte>)
    requires PrefixFree(book) && ReadSoFar(book, text, current, bits) && Encodes(book, other, bits)
    ensures other == text && |current| <= 7 && current == Ones(|current|)
  {
    var k :| 0 <= k <= 7 && bits == Padded(book, other, k);
    ReadingsAgree(book, text, current, other, k);
  }

  lemma ReadBit(book: Book, text: seq<byte>, current: seq<bit>, bits: seq<bit>, i: nat)
    requires |book| == 256 && i < |bits| && ReadSoFar(book, text, current, bits[..i])
    ensures Encoding(book, text) + (current + [bits[i]]) == bits[..i + 1]
  {
    assert Encoding(book, text) + (current + [bits[i]]) == Encoding(book, text) + current + [bits[i]];
  }

  /** A code is complete: the text grows and nothing is left over. */
  lemma ReadSymbol(book: Book, text: seq<byte>, s: byte, bits: seq<bit>)
    requires PrefixFree(book) && Encoding(book, text) + book[s] == bits
    ensures ReadSoFar(book, text + [s], [], bits)
  {
    EncodingAppend(book, text, s);
    assert Encoding(book, text + [s]) + [] == Encoding(book, text + [s]);
  }

  /**
    * `DecodeHpackString` on a Huffman-coded field: it returns the one text whose codes, followed by at most seven
    * ones, are the bits of the field, and nothing when there is no such text.
    */
  method DecodeHuffman(data: seq<byte>, offset: nat, length: nat) returns (r: Option<seq<byte>>)
    requires offset + length <= |data|
    ensures r.Some? ==> Encodes(Huffman(), r.value, OctetBits(data[offset..offset + length]))
    ensures forall text :: Encodes(Huffman(), text, OctetBits(data[offset..offset + length])) ==> r == Some(text)
  {
    ghost var bits := OctetBits(data[offset..offset + length]);
    HuffmanIsPrefixFree();
    HuffmanSpellsTable();
    r := DecodeBits(Codes(), Huffman(), data, offset, length, bits);
  }

  method DecodeBits(codes: seq<Code>, ghost book: Book, data: seq<byte>, offset: nat, length: nat, ghost bits: seq<bit>)
    returns (r: Option<seq<byte>>)
    requires PrefixFree(book) && Spells(book, codes)
    requires offset + length <= |data| && bits == OctetBits(data[offset..offset + length])
    ensures r.Some? ==> Encodes(book, r.value, bits)
    ensures forall text :: Encodes(book, text, bits) ==> r == Some(text)
  {
    assert |book| == 256;
    StartReading(book);
    hide ReadSoFar, PrefixFree, Spells, Encodes, OctetBits, BitAt;
    var result: seq<byte> := [];
    var code: nat, codeLength: nat := 0, 0;
    ghost var current: seq<bit> := [];
    assert bits[..0] == [];
    var endBit := (offset + length) * 8;
    var bitOffset := offset * 8;
    while bitOffset < endBit
      invariant offset * 8 <= bitOffset <= endBit
      invariant code == Value(current) && codeLength == |current| < 30
      invariant ReadSoFar(book, result, current, bits[..bitOffset - offset * 8])
    {
      ghost var i := bitOffset - offset * 8;
      BitOfSlice(data, offset, length, i);
      ReadBit(book, result, current, bits, i);
      var next := BitAt(data, bitOffset);
      NextValue(current, next);
      code := code * 2 + next;
      codeLength := codeLength + 1;
      var found := FindSymbol(codes, book, code, codeLength, current + [next]);
      if found.Some? {
        ReadSymbol(book, result, found.value, bits[..i + 1]);
        result := result + [found.value];
        code, codeLength, current := 0, 0, [];
      } else {
        NoCodeStartsLonger(book, current, next);
        current := current + [next];
        if codeLength == 30 {
          NoMoreTexts(book, result, current, bits, i + 1);
          return None;
        }
      }
      bitOffset := bitOffset + 1;
    }
    assert bits[..bitOffset - offset * 8] == bits;
    r := CheckPadding(book, result, code, codeLength, current, bits);
  }

  lemma StartReading(book: Book)
    requires PrefixFree(book)
    ensures ReadSoFar(book, [], [], [])
  {
    assert Encoding(book, []) + [] == [];
  }

  lemma NextValue(b: seq<bit>, x: bit)
    ensures Value(b + [x]) == 2 * Value(b) + x
  {
    assert (b + [x])[..|b|] == b;
  }

  lemma NoMoreTexts(book: Book, text: seq<byte>, current: seq<bit>, bits: seq<bit>, i: nat)
    requires PrefixFree(book) && i <= |bits| && ReadSoFar(book, text, current, bits[..i]) && |current| == 30
    ensures forall other :: !Encodes(book, other, bits)
  {
    var left := current + bits[i..];
    NoCodeStartsWhole(book, current, bits[i..]);
    assert Encoding(book, text) + left == Encoding(book, text) + current + bits[i..] == bits;
    forall other | Encodes(book, other, bits)
      ensures false
    {
      NothingElse(book, text, left, bits, other);
    }
  }

  /** At most seven bits may be left over, all ones. */
  method CheckPadding(ghost book: Book, result: seq<byte>, code: nat, codeLength: nat,
                      ghost current: seq<bit>, ghost bits: seq<bit>) returns (r: Option<seq<byte>>)
    requires PrefixFree(book) && ReadSoFar(book, result, current, bits)
    requires code == Value(current) && codeLength == |current|
    ensures r.Some? ==> Encodes(book, r.value, bits)
    ensures forall text :: Encodes(book, text, bits) ==> r == Some(text)
  {
    forall other | Encodes(book, other, bits)
      ensures other == result && |current| <= 7 && current == Ones(|current|)
    {
      NothingElse(book, result, current, bits, other);
    }
    if codeLength > 7 {
      return None;
    }
    OnesValue(codeLength);
    var expectedPadding := Power2(codeLength) - 1;
    if code != expectedPadding {
      return None;
    }
    SameValue(current, Ones(codeLength));
    assert bits == Padded(book, result, codeLength);
    return Some(result);
  }
}
