/** The representations of sections 5 and 6 of RFC 7541 as octets, and what the decoder of H2.cpp does with each. */
module HpackForms {
  import opened Bytes
  import opened Bits
  import opened HpackInteger
  import opened HpackHuffman
  import opened HpackTable
  import opened HpackDecoder

  // ---- Strings -------------------------------------------------------------------------------

  ghost predicate WritesHuffman(d: Dictionary, b: seq<byte>, text: Text, h: seq<byte>)
    requires |d.book| == 256
  {
    |h| <= U32_MAX && Encodes(d.book, text, OctetBits(h)) && b == EncodeInteger(|h|, 127, 128) + h
  }

  /** A string literal for a text, section 5.2: its octets, or their Huffman code with up to seven ones behind it. */
  ghost predicate Writes(d: Dictionary, b: seq<byte>, text: Text)
    requires |d.book| == 256
  {
    || (|text| <= U32_MAX && b == EncodeInteger(|text|, 127, 0) + text)
    || exists h: seq<byte> :: WritesHuffman(d, b, text, h)
  }

  lemma FieldReadsBack(length: nat, flags: nat, raw: seq<byte>, rest: seq<byte>)
    requires length == |raw| <= U32_MAX && (flags == 0 || flags == 128)
    ensures var e := EncodeInteger(length, 127, flags);
      && StringFieldAt(e + raw + rest) == Some(StringField(flags == 128, |e|, length))
      && (e + raw + rest)[|e|..|e| + length] == raw
  {
    var e := EncodeInteger(length, 127, flags);
    Associate(e, raw, rest);
    IntegerRoundTrip(length, 127, flags, raw + rest);
    assert (e + raw + rest)[0] == e[0];
  }

  /** Either way the text is read back and nothing behind it is touched. */
  lemma StringReadsBack(d: Dictionary, b: seq<byte>, text: Text, rest: seq<byte>)
    requires |d.book| == 256 && PrefixFree(d.book) && Writes(d, b, text)
    ensures TextAt(d, b + rest) == Some((text, |b|))
  {
    hide EncodeInteger, StringFieldAt, HuffmanText, Encodes, PrefixFree;
    if |text| <= U32_MAX && b == EncodeInteger(|text|, 127, 0) + text {
      FieldReadsBack(|text|, 0, text, rest);
    } else {
      var h :| WritesHuffman(d, b, text, h);
      FieldReadsBack(|h|, 128, h, rest);
      var found := HuffmanText(d.book, OctetBits(h));
      assert found.Some?;
      EncodingIsUnique(d.book, text, found.value, OctetBits(h));
    }
  }

  // ---- Literals ------------------------------------------------------------------------------

  /** Sections 6.2.1, 6.2.2 and 6.2.3. */
  datatype Form = WithIndexing | WithoutIndexing | NeverIndexed

  function Mask(form: Form): PrefixMask {
    if form.WithIndexing? then 63 else 15
  }

  /** The first octet of a form, its name index apart. */
  function Flag(form: Form): byte {
    match form
    case WithIndexing => 0x40
    case WithoutIndexing => 0x00
    case NeverIndexed => 0x10
  }

  /** The only form that changes the table. */
  function Stores(form: Form, f: Field): seq<Change> {
    if form.WithIndexing? then [Insert(f)] else []
  }

  lemma LiteralForm(d: Dictionary, form: Form, index: nat, tail: seq<byte>)
    requires |d.book| == 256 && index <= U32_MAX
    ensures var e := EncodeInteger(index, Mask(form), Flag(form));
      && RepresentationAt(d, e + tail) == LiteralAt(d, e + tail, form.WithIndexing?)
      && IntegerAt(e + tail, Mask(form)) == Some((index, |e|)) && (e + tail)[|e|..] == tail
  {
    hide LiteralAt;
    var e := EncodeInteger(index, Mask(form), Flag(form));
    IntegerRoundTrip(index, Mask(form), Flag(form), tail);
    assert (e + tail)[0] == e[0];
  }

  lemma NamedLiteral(d: Dictionary, form: Form, index: nat, v: seq<byte>, value: Text, rest: seq<byte>)
    requires d.Valid() && 1 <= index <= U32_MAX && Writes(d, v, value)
    ensures var b := EncodeInteger(index, Mask(form), Flag(form)) + v;
      RepresentationAt(d, b + rest) == Some((Literal(Numbered(index), value, form.WithIndexing?), |b|))
  {
    assert |d.book| == 256;
    hide EncodeInteger, RepresentationAt, IntegerAt, TextAt, Writes, PrefixFree;
    var e := EncodeInteger(index, Mask(form), Flag(form));
    Associate(e, v, rest);
    LiteralForm(d, form, index, v + rest);
    StringReadsBack(d, v, value, rest);
  }

  lemma SpelledLiteral(d: Dictionary, form: Form, n: seq<byte>, name: Text, v: seq<byte>, value: Text, rest: seq<byte>)
    requires d.Valid() && Writes(d, n, name) && Writes(d, v, value)
    ensures var b := [Flag(form)] + n + v;
      RepresentationAt(d, b + rest) == Some((Literal(Spelled(name), value, form.WithIndexing?), |b|))
  {
    assert |d.book| == 256;
    hide EncodeInteger, RepresentationAt, IntegerAt, TextAt, Writes, PrefixFree;
    Regroup(form, n, v, rest);
    LiteralForm(d, form, 0, n + (v + rest));
    StringReadsBack(d, n, name, v + rest);
    StringReadsBack(d, v, value, rest);
  }

  lemma Regroup(form: Form, n: seq<byte>, v: seq<byte>, rest: seq<byte>)
    ensures EncodeInteger(0, Mask(form), Flag(form)) == [Flag(form)]
    ensures [Flag(form)] + n + v + rest == [Flag(form)] + (n + (v + rest))
    ensures ([Flag(form)] + (n + (v + rest)))[1 + |n|..] == v + rest
  {
  }

  // ---- What each does to a block -------------------------------------------------------------

  /** What a representation at the head of a block does there. */
  lemma HeadOfBlock(d: Dictionary, t: Table, b: seq<byte>, rep: Representation, rest: seq<byte>)
    requires d.Valid() && b != [] && RepresentationAt(d, b + rest) == Some((rep, |b|))
    ensures DecodeBlock(d, t, b + rest) == match Perform(d.statics, t, rep)
                                           case None => Decoded(None, [])
                                           case Some(e) => After(e, DecodeBlock(d, Replay(t, e.changes), rest))
  {
    hide RepresentationAt, Perform, Replay;
    assert (b + rest)[|b|..] == rest;
  }

  /**
    * A literal with a spelled name yields the field in every state; the form with indexing, and no other, inserts it,
    * and the rest of the block is decoded in the table that results.
    */
  lemma SpelledField(d: Dictionary, t: Table, form: Form, n: seq<byte>, v: seq<byte>, f: Field, rest: seq<byte>)
    requires d.Valid() && Writes(d, n, f.name) && Writes(d, v, f.value)
    ensures DecodeBlock(d, t, [Flag(form)] + n + v + rest)
         == After(Effect([f], Stores(form, f)), DecodeBlock(d, Replay(t, Stores(form, f)), rest))
  {
    hide DecodeBlock, RepresentationAt, Replay, Writes, PrefixFree;
    SpelledLiteral(d, form, n, f.name, v, f.value, rest);
    HeadOfBlock(d, t, [Flag(form)] + n + v, Literal(Spelled(f.name), f.value, form.WithIndexing?), rest);
  }

  /** The same for a name given by its index in the tables; an index that names nothing ends the block. */
  lemma NamedField(d: Dictionary, t: Table, form: Form, index: nat, v: seq<byte>, value: Text, rest: seq<byte>)
    requires d.Valid() && 1 <= index <= U32_MAX && Writes(d, v, value)
    ensures DecodeBlock(d, t, EncodeInteger(index, Mask(form), Flag(form)) + v + rest)
         == match Lookup(d.statics, t.entries, index)
            case None => Decoded(None, [])
            case Some(g) =>
              var f := Field(g.name, value);
              After(Effect([f], Stores(form, f)), DecodeBlock(d, Replay(t, Stores(form, f)), rest))
  {
    hide DecodeBlock, RepresentationAt, Replay, Writes, PrefixFree, EncodeInteger;
    NamedLiteral(d, form, index, v, value, rest);
    HeadOfBlock(d, t, EncodeInteger(index, Mask(form), Flag(form)) + v,
                Literal(Numbered(index), value, form.WithIndexing?), rest);
  }

  /** An indexed field changes nothing; an index that names nothing ends the block. */
  lemma IndexedField(d: Dictionary, t: Table, index: nat, rest: seq<byte>)
    requires d.Valid() && index <= U32_MAX
    ensures DecodeBlock(d, t, EncodeInteger(index, 127, 128) + rest)
         == match Lookup(d.statics, t.entries, index)
            case None => Decoded(None, [])
            case Some(f) => After(Effect([f], []), DecodeBlock(d, t, rest))
  {
    hide DecodeBlock, Replay, PrefixFree, IntegerAt;
    var e := EncodeInteger(index, 127, 128);
    IntegerRoundTrip(index, 127, 128, rest);
    assert (e + rest)[0] == e[0];
    ReplayNone(t);
    HeadOfBlock(d, t, e, Indexed(index), rest);
  }

  /** A size update yields nothing and resizes the table; one over the limit of the settings ends the block. */
  lemma SizeUpdateField(d: Dictionary, t: Table, size: nat, rest: seq<byte>)
    requires d.Valid() && size <= U32_MAX
    ensures DecodeBlock(d, t, EncodeInteger(size, 31, 32) + rest)
         == if size > 4096 then Decoded(None, [])
            else After(Effect([], [Resize(size)]), DecodeBlock(d, Replay(t, [Resize(size)]), rest))
  {
    hide DecodeBlock, Replay, PrefixFree, IntegerAt;
    var e := EncodeInteger(size, 31, 32);
    IntegerRoundTrip(size, 31, 32, rest);
    assert (e + rest)[0] == e[0];
    HeadOfBlock(d, t, e, SizeUpdate(size), rest);
  }

  // ---- Across blocks -------------------------------------------------------------------------

  lemma LastOfBlock(d: Dictionary, t: Table, e: Effect)
    requires d.Valid()
    ensures After(e, DecodeBlock(d, t, [])) == Decoded(Some(e.fields), e.changes)
  {
    assert e.fields + [] == e.fields && e.changes + [] == e.changes;
  }

  /** A block of one literal. */
  lemma SpelledBlock(d: Dictionary, t: Table, form: Form, n: seq<byte>, v: seq<byte>, f: Field)
    requires d.Valid() && Writes(d, n, f.name) && Writes(d, v, f.value)
    ensures DecodeBlock(d, t, [Flag(form)] + n + v) == Decoded(Some([f]), Stores(form, f))
  {
    hide DecodeBlock, Replay, Writes, PrefixFree, After;
    SpelledField(d, t, form, n, v, f, []);
    LastOfBlock(d, Replay(t, Stores(form, f)), Effect([f], Stores(form, f)));
    assert [Flag(form)] + n + v + [] == [Flag(form)] + n + v;
  }

  /** The newest entry of a table. */
  lemma NewestEntry(t: Table, changes: seq<Change>, f: Field)
    requires changes != [] && changes[|changes| - 1] == Insert(f)
    ensures var u := Replay(t, changes);
      if Size(f) <= u.limit then u.entries != [] && u.entries[0] == f else u.entries == []
  {
    hide Replay;
    var before := Replay(t, changes[..|changes| - 1]);
    ReplayLast(t, changes);
    assert ([f] + before.entries)[0] == f;
  }

  lemma ReplayLast(t: Table, changes: seq<Change>)
    requires changes != []
    ensures Replay(t, changes) == Apply(Replay(t, changes[..|changes| - 1]), changes[|changes| - 1])
  {
  }

  /**
    * After any block whose last change to the table is the insertion of a field, the block of the one octet 0xBE
    * decodes to exactly that field; when the field is larger than the table, that block is rejected instead.
    */
  lemma InsertedIsFirstIndex(d: Dictionary, t: Table, b: seq<byte>, f: Field)
    requires d.Valid()
    requires var changes := DecodeBlock(d, t, b).changes; changes != [] && changes[|changes| - 1] == Insert(f)
    ensures var u := Replay(t, DecodeBlock(d, t, b).changes);
      DecodeBlock(d, u, [0xBE]) == if Size(f) <= u.limit then Decoded(Some([f]), []) else Decoded(None, [])
  {
    var changes := DecodeBlock(d, t, b).changes;
    hide DecodeBlock, Replay, PrefixFree, After;
    var u := Replay(t, changes);
    NewestEntry(t, changes, f);
    LastOfBlock(d, u, Effect([f], []));
    assert EncodeInteger(62, 127, 128) + [] == [0xBE];
    IndexedField(d, u, 62, []);
  }

  /** From octets to octets: a literal with indexing in one block, 0xBE in the next. */
  lemma StoredFieldComesBack(d: Dictionary, t: Table, form: Form, n: seq<byte>, v: seq<byte>, f: Field)
    requires d.Valid() && Writes(d, n, f.name) && Writes(d, v, f.value)
    ensures var u := Replay(t, DecodeBlock(d, t, [Flag(form)] + n + v).changes);
      && (form.WithIndexing? && Size(f) <= t.limit ==> DecodeBlock(d, u, [0xBE]) == Decoded(Some([f]), []))
      && (form.WithIndexing? && Size(f) > t.limit ==> DecodeBlock(d, u, [0xBE]) == Decoded(None, []))
      && (!form.WithIndexing? ==> u == t)
  {
    hide DecodeBlock, Replay, Writes, PrefixFree;
    SpelledBlock(d, t, form, n, v, f);
    ReplayNone(t);
    ReplayOne(t, Insert(f));
    if form.WithIndexing? {
      InsertedIsFirstIndex(d, t, [Flag(form)] + n + v, f);
    }
  }

  // ---- The static table ----------------------------------------------------------------------

  /** One octet for an entry of the static table. */
  lemma StaticBlock(d: Dictionary, t: Table, index: nat)
    requires d.Valid() && 1 <= index <= 61
    ensures DecodeBlock(d, t, [128 + index]) == Decoded(Some([d.statics[index]]), [])
  {
    hide DecodeBlock, PrefixFree, After;
    LastOfBlock(d, t, Effect([d.statics[index]], []));
    assert EncodeInteger(index, 127, 128) + [] == [128 + index];
    IndexedField(d, t, index, []);
  }

  lemma PseudoHeader(d: Dictionary, t: Table, index: nat, f: Field)
    requires d.Valid() && d.statics == StaticTable() && 1 <= index < 16 && Statics0()[index] == f
    ensures DecodeBlock(d, t, [128 + index]).fields == Some([f])
  {
    hide DecodeBlock, PrefixFree, Pair;
    StaticBlock(d, t, index);
  }

  /** The pseudo-headers of requests and responses, in every state. */
  lemma PseudoHeaders(d: Dictionary, t: Table)
    requires d.Valid() && d.statics == StaticTable()
    ensures DecodeBlock(d, t, [0x81]).fields == Some([Pair(":authority", "")])
    ensures DecodeBlock(d, t, [0x82]).fields == Some([Pair(":method", "GET")])
    ensures DecodeBlock(d, t, [0x83]).fields == Some([Pair(":method", "POST")])
    ensures DecodeBlock(d, t, [0x84]).fields == Some([Pair(":path", "/")])
    ensures DecodeBlock(d, t, [0x85]).fields == Some([Pair(":path", "/index.html")])
    ensures DecodeBlock(d, t, [0x86]).fields == Some([Pair(":scheme", "http")])
    ensures DecodeBlock(d, t, [0x87]).fields == Some([Pair(":scheme", "https")])
    ensures DecodeBlock(d, t, [0x88]).fields == Some([Pair(":status", "200")])
    ensures DecodeBlock(d, t, [0x89]).fields == Some([Pair(":status", "204")])
    ensures DecodeBlock(d, t, [0x8A]).fields == Some([Pair(":status", "206")])
    ensures DecodeBlock(d, t, [0x8B]).fields == Some([Pair(":status", "304")])
    ensures DecodeBlock(d, t, [0x8C]).fields == Some([Pair(":status", "400")])
    ensures DecodeBlock(d, t, [0x8D]).fields == Some([Pair(":status", "404")])
    ensures DecodeBlock(d, t, [0x8E]).fields == Some([Pair(":status", "500")])
  {
    hide DecodeBlock, PrefixFree, Pair, StaticTable;
    PseudoHeader(d, t, 1, Pair(":authority", ""));
    PseudoHeader(d, t, 2, Pair(":method", "GET"));
    PseudoHeader(d, t, 3, Pair(":method", "POST"));
    PseudoHeader(d, t, 4, Pair(":path", "/"));
    PseudoHeader(d, t, 5, Pair(":path", "/index.html"));
    PseudoHeader(d, t, 6, Pair(":scheme", "http"));
    PseudoHeader(d, t, 7, Pair(":scheme", "https"));
    PseudoHeader(d, t, 8, Pair(":status", "200"));
    PseudoHeader(d, t, 9, Pair(":status", "204"));
    PseudoHeader(d, t, 10, Pair(":status", "206"));
    PseudoHeader(d, t, 11, Pair(":status", "304"));
    PseudoHeader(d, t, 12, Pair(":status", "400"));
    PseudoHeader(d, t, 13, Pair(":status", "404"));
    PseudoHeader(d, t, 14, Pair(":status", "500"));
  }
}
