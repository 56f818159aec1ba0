/** The header decoder of src/core/control/base/H2.cpp: representations, section 6 of RFC 7541, and their effect. */
module HpackDecoder {
  import opened Bytes
  import opened Bits
  import opened HpackInteger
  import opened HpackHuffman
  import opened HpackHuffmanTable
  import opened HpackTable

  // ---- What a block says ---------------------------------------------------------------------

  /** The fixed data of the format: the static table and the Huffman code. */
  datatype Dictionary = Dictionary(statics: seq<Field>, book: Book) {
    ghost predicate Valid() {
      |statics| == 62 && PrefixFree(book)
    }
  }

  datatype StringField = StringField(huffman: bool, start: nat, length: nat)

  function StringFieldAt(b: seq<byte>): (r: Option<StringField>)
    ensures r.Some? ==> 1 <= r.value.start && r.value.start + r.value.length <= |b|
  {
    match IntegerAt(b, 127)
    case None => None
    case Some((length, n)) => if length > |b| - n then None else Some(StringField(b[0] >= 128, n, length))
  }

  /** The text with this encoding, if there is one; `EncodingIsUnique` says there is at most one. */
  ghost function HuffmanText(book: Book, bits: seq<bit>): (r: Option<Text>)
    requires |book| == 256
    ensures r.Some? ==> Encodes(book, r.value, bits)
    ensures r.None? ==> forall text :: !Encodes(book, text, bits)
  {
    if exists text :: Encodes(book, text, bits) then
      var text :| Encodes(book, text, bits);
      Some(text)
    else None
  }

  lemma EncodingIsUnique(book: Book, text: Text, other: Text, bits: seq<bit>)
    requires PrefixFree(book) && Encodes(book, text, bits) && Encodes(book, other, bits)
    ensures text == other
  {
    var j :| 0 <= j <= 7 && bits == Padded(book, text, j);
    var k :| 0 <= k <= 7 && bits == Padded(book, other, k);
    forall s | 0 <= s < |book|
      ensures !(book[s] <= Ones(j))
    {
      OnesGrow(book[s], j);
    }
    ReadingsAgree(book, text, Ones(j), other, k);
  }

  lemma OnesGrow(x: seq<bit>, j: nat)
    requires j <= 30
    ensures x <= Ones(j) ==> x <= Ones(30)
  {
  }

  ghost function TextOf(d: Dictionary, b: seq<byte>, f: StringField): Option<Text>
    requires |d.book| == 256 && f.start + f.length <= |b|
  {
    var raw := b[f.start..f.start + f.length];
    if f.huffman then HuffmanText(d.book, OctetBits(raw)) else Some(raw)
  }

  ghost function TextAt(d: Dictionary, b: seq<byte>): (r: Option<(Text, nat)>)
    requires |d.book| == 256
    ensures r.Some? ==> 1 <= r.value.1 <= |b|
  {
    match StringFieldAt(b)
    case None => None
    case Some(f) =>
      match TextOf(d, b, f)
      case None => None
      case Some(text) => Some((text, f.start + f.length))
  }

  datatype NameRef = Numbered(index: nat) | Spelled(name: Text)

  datatype Representation =
    | Indexed(index: nat) | SizeUpdate(size: nat) | Literal(name: NameRef, value: Text, store: bool)

  ghost function NameAt(d: Dictionary, b: seq<byte>, index: nat, n: nat): (r: Option<(NameRef, nat)>)
    requires |d.book| == 256 && n <= |b|
    ensures r.Some? ==> n <= r.value.1 <= |b|
  {
    if index != 0 then Some((Numbered(index), n))
    else
      match TextAt(d, b[n..])
      case None => None
      case Some((name, m)) => Some((Spelled(name), n + m))
  }

  ghost function LiteralAt(d: Dictionary, b: seq<byte>, store: bool): (r: Option<(Representation, nat)>)
    requires |d.book| == 256
    ensures r.Some? ==> 1 <= r.value.1 <= |b|
  {
    match IntegerAt(b, if store then 63 else 15)
    case None => None
    case Some((index, n)) =>
      match NameAt(d, b, index, n)
      case None => None
      case Some((name, k)) =>
        match TextAt(d, b[k..])
        case None => None
        case Some((value, m)) => Some((Literal(name, value, store), k + m))
  }

  /** The representation at the start of a block and its size. */
  ghost function RepresentationAt(d: Dictionary, b: seq<byte>): (r: Option<(Representation, nat)>)
    requires |d.book| == 256 && b != []
    ensures r.Some? ==> 1 <= r.value.1 <= |b|
  {
    if b[0] >= 128 then
      match IntegerAt(b, 127)
      case None => None
      case Some((index, n)) => Some((Indexed(index), n))
    else if 32 <= b[0] < 64 then
      match IntegerAt(b, 31)
      case None => None
      case Some((size, n)) => Some((SizeUpdate(size), n))
    else LiteralAt(d, b, b[0] >= 64)
  }

  // ---- What it does --------------------------------------------------------------------------

  function Lookup(statics: seq<Field>, entries: seq<Field>, index: nat): Option<Field>
    requires |statics| == 62
  {
    if index == 0 then None
    else if index < 62 then Some(statics[index])
    else if index - 62 < |entries| then Some(entries[index - 62])
    else None
  }

  datatype Effect = Effect(fields: seq<Field>, changes: seq<Change>)

  function Perform(statics: seq<Field>, t: Table, rep: Representation): Option<Effect>
    requires |statics| == 62
  {
    match rep
    case Indexed(index) =>
      (match Lookup(statics, t.entries, index)
       case None => None
       case Some(f) => Some(Effect([f], [])))
    case SizeUpdate(size) =>
      if size > DEFAULT_LIMIT then None else Some(Effect([], [Resize(size)]))
    case Literal(name, value, store) =>
      match NameOf(statics, t, name)
      case None => None
      case Some(text) => Some(Effect([Field(text, value)], if store then [Insert(Field(text, value))] else []))
  }

  function NameOf(statics: seq<Field>, t: Table, name: NameRef): Option<Text>
    requires |statics| == 62
  {
    match name
    case Spelled(text) => Some(text)
    case Numbered(index) =>
      match Lookup(statics, t.entries, index)
      case None => None
      case Some(f) => Some(f.name)
  }

  /** The fields of a block, unless it is rejected, and the table changes made either way. */
  datatype Decoded = Decoded(fields: Option<seq<Field>>, changes: seq<Change>)

  ghost function DecodeBlock(d: Dictionary, t: Table, b: seq<byte>): Decoded
    requires d.Valid()
    decreases |b|
  {
    if b == [] then Decoded(Some([]), [])
    else
      match RepresentationAt(d, b)
      case None => Decoded(None, [])
      case Some((rep, n)) =>
        match Perform(d.statics, t, rep)
        case None => Decoded(None, [])
        case Some(e) => After(e, DecodeBlock(d, Replay(t, e.changes), b[n..]))
  }

  function After(e: Effect, rest: Decoded): Decoded {
    Decoded(if rest.fields.Some? then Some(e.fields + rest.fields.value) else None, e.changes + rest.changes)
  }

  // ---- The decoder object --------------------------------------------------------------------

  function Ascii(s: string): Text {
    seq(|s|, i requires 0 <= i < |s| => s[i] as int % 256)
  }

  function Pair(name: string, value: string): Field {
    Field(Ascii(name), Ascii(value))
  }

  /** Appendix A of RFC 7541; index 0 is not used. */
  function StaticTable(): (statics: seq<Field>)
    ensures |statics| == 62
  {
    Statics0() + Statics16() + Statics32() + Statics48()
  }

  function Statics0(): (s: seq<Field>)
    ensures |s| == 16
  {
    [
      Pair("", ""), Pair(":authority", ""), Pair(":method", "GET"), Pair(":method", "POST"), Pair(":path", "/"),
      Pair(":path", "/index.html"), Pair(":scheme", "http"), Pair(":scheme", "https"), Pair(":status", "200"),
      Pair(":status", "204"), Pair(":status", "206"), Pair(":status", "304"), Pair(":status", "400"),
      Pair(":status", "404"), Pair(":status", "500"), Pair("accept-charset", "")
    ]
  }

  function Statics16(): (s: seq<Field>)
    ensures |s| == 16
  {
    [
      Pair("accept-encoding", "gzip, deflate"), Pair("accept-language", ""), Pair("accept-ranges", ""),
      Pair("accept", ""), Pair("access-control-allow-origin", ""), Pair("age", ""), Pair("allow", ""),
      Pair("authorization", ""), Pair("cache-control", ""), Pair("content-disposition", ""),
      Pair("content-encoding", ""), Pair("content-language", ""), Pair("content-length", ""),
      Pair("content-location", ""), Pair("content-range", ""), Pair("content-type", "")
    ]
  }

  function Statics32(): (s: seq<Field>)
    ensures |s| == 16
  {
    [
      Pair("cookie", ""), Pair("date", ""), Pair("etag", ""), Pair("expect", ""), Pair("expires", ""),
      Pair("from", ""), Pair("host", ""), Pair("if-match", ""), Pair("if-modified-since", ""),
      Pair("if-none-match", ""), Pair("if-range", ""), Pair("if-unmodified-since", ""), Pair("last-modified", ""),
      Pair("link", ""), Pair("location", ""), Pair("max-forwards", "")
    ]
  }

  function Statics48(): (s: seq<Field>)
    ensures |s| == 14
  {
    [
      Pair("proxy-authenticate", ""), Pair("proxy-authorization", ""), Pair("range", ""), Pair("referer", ""),
      Pair("refresh", ""), Pair("retry-after", ""), Pair("server", ""), Pair("set-cookie", ""),
      Pair("strict-transport-security", ""), Pair("transfer-encoding", ""), Pair("user-agent", ""),
      Pair("vary", ""), Pair("via", ""), Pair("www-authenticate", "")
    ]
  }

  /** `ReadHpackStringField`, with positions in the whole block. */
  method ReadStringField(data: seq<byte>, offset: nat) returns (r: Option<StringField>, next: nat)
    requires offset <= |data|
    ensures next <= |data|
    ensures match StringFieldAt(data[offset..])
      case None => r == None
      case Some(f) =>
        r == Some(StringField(f.huffman, offset + f.start, f.length)) && next == offset + f.start + f.length
  {
    next := offset;
    if offset >= |data| {
      return None, next;
    }
    var huffman := data[offset] >= 128;
    var length;
    length, next := ReadInteger(data, offset, 127);
    if length.None? || length.value > |data| - next {
      return None, next;
    }
    r := Some(StringField(huffman, next, length.value));
    next := next + length.value;
  }

  /** `DecodeHpackString`. */
  method DecodeString(codes: seq<Code>, ghost d: Dictionary, data: seq<byte>, f: StringField) returns (r: Option<Text>)
    requires PrefixFree(d.book) && Spells(d.book, codes) && f.start + f.length <= |data|
    ensures r == TextOf(d, data, f)
  {
    if !f.huffman {
      return Some(data[f.start..f.start + f.length]);
    }
    ghost var bits := OctetBits(data[f.start..f.start + f.length]);
    r := DecodeBits(codes, d.book, data, f.start, f.length, bits);
    assert HuffmanText(d.book, bits) == r;
  }

  /** A string field and its text. */
  method ReadText(codes: seq<Code>, ghost d: Dictionary, data: seq<byte>, offset: nat)
    returns (r: Option<Text>, next: nat)
    requires PrefixFree(d.book) && Spells(d.book, codes) && offset <= |data|
    ensures next <= |data|
    ensures match TextAt(d, data[offset..])
      case None => r == None
      case Some((text, n)) => r == Some(text) && next == offset + n
  {
    var field;
    field, next := ReadStringField(data, offset);
    if field.None? {
      return None, next;
    }
    var f := field.value;
    r := DecodeString(codes, d, data, f);
    assert data[offset..][f.start - offset..f.start - offset + f.length] == data[f.start..f.start + f.length];
  }

  class HeaderDecoder {
    const statics: seq<Field>
    const codes: seq<Code>
    ghost const d: Dictionary
    ghost var history: seq<Change>
    var entries: seq<Field>
    var size: nat
    var limit: nat

    ghost predicate Constants() {
      d.Valid() && d.statics == statics && Spells(d.book, codes)
    }

    /** The stored size is exact, the limits hold, and the entries are what the history says. */
    ghost predicate Valid()
      reads this
    {
      && Constants()
      && size == Total(entries) <= limit <= DEFAULT_LIMIT
      && Table(entries, limit) == Replay(NEW_TABLE, history)
    }

    constructor ()
      ensures Valid() && d == Dictionary(StaticTable(), Huffman())
      ensures Table(entries, limit) == NEW_TABLE && history == []
    {
      statics := StaticTable();
      codes := Codes();
      d := Dictionary(StaticTable(), Huffman());
      history, entries, size, limit := [], [], 0, DEFAULT_LIMIT;
      HuffmanIsPrefixFree();
      HuffmanSpellsTable();
    }

    /** `evictDynamicEntries`: the oldest entries go until the rest fits. */
    method Evict()
      requires size == Total(entries)
      modifies this`entries, this`size
      ensures entries == Fit(old(entries), limit) && size == Total(entries) <= limit
    {
      ghost var all := entries;
      while size > limit && entries != []
        invariant size == Total(entries)
        invariant Fit(entries, limit) == Fit(all, limit)
        decreases |entries|
      {
        TotalDropsOldest(entries);
        FitDropsOldest(entries, limit);
        size := size - Size(entries[|entries| - 1]);
        entries := entries[..|entries| - 1];
      }
      FitWhole(entries, limit);
    }

    /** `addDynamicEntry`. */
    method Add(f: Field)
      requires Valid()
      modifies this`entries, this`size, this`history
      ensures Valid() && history == old(history) + [Insert(f)]
      ensures Table(entries, limit) == Apply(old(Table(entries, limit)), Insert(f))
    {
      ghost var all := [f] + entries;
      if Size(f) > limit {
        entries := [];
        size := 0;
      } else {
        entries := [f] + entries;
        size := size + Size(f);
        Evict();
      }
      history := history + [Insert(f)];
      assert history[..|history| - 1] == old(history);
      assert entries == Fit(all, limit);
    }

    /** A dynamic table size update. */
    method Shrink(newLimit: nat)
      requires Valid() && newLimit <= DEFAULT_LIMIT
      modifies this`entries, this`size, this`history, this`limit
      ensures Valid() && history == old(history) + [Resize(newLimit)]
      ensures Table(entries, limit) == Apply(old(Table(entries, limit)), Resize(newLimit))
    {
      limit := newLimit;
      Evict();
      history := history + [Resize(newLimit)];
      assert history[..|history| - 1] == old(history);
    }

    method HeaderAt(index: nat) returns (r: Option<Field>)
      requires |statics| == 62
      ensures r == Lookup(statics, entries, index)
    {
      if index == 0 {
        return None;
      }
      if index < 62 {
        return Some(statics[index]);
      }
      var dynamicIndex := index - 62;
      if dynamicIndex >= |entries| {
        return None;
      }
      return Some(entries[dynamicIndex]);
    }

    /** What one representation yields and changes. */
    ghost predicate Performs(before: Table, rep: Representation, fields: Option<seq<Field>>, changes: seq<Change>)
      requires |statics| == 62
    {
      match Perform(statics, before, rep)
      case None => fields == None && changes == []
      case Some(e) => fields == Some(e.fields) && changes == e.changes
    }

    method DecodeSizeUpdate(maximumSize: nat) returns (fields: Option<seq<Field>>, ghost changes: seq<Change>)
      requires Valid()
      modifies this
      ensures Valid() && Performs(old(Table(entries, limit)), SizeUpdate(maximumSize), fields, changes)
      ensures history == old(history) + changes && Table(entries, limit) == Replay(old(Table(entries, limit)), changes)
    {
      hide Total, Fit, Replay, Apply;
      ReplayNone(Table(entries, limit));
      ReplayOne(Table(entries, limit), Resize(maximumSize));
      if maximumSize > DEFAULT_LIMIT {
        return None, [];
      }
      Shrink(maximumSize);
      return Some([]), [Resize(maximumSize)];
    }

    method DecodeLiteral(name: NameRef, value: Text, store: bool)
      returns (fields: Option<seq<Field>>, ghost changes: seq<Change>)
      requires Valid()
      modifies this
      ensures Valid() && Performs(old(Table(entries, limit)), Literal(name, value, store), fields, changes)
      ensures history == old(history) + changes && Table(entries, limit) == Replay(old(Table(entries, limit)), changes)
    {
      hide Total, Fit, Replay;
      ReplayNone(Table(entries, limit));
      var text: Text;
      match name {
        case Spelled(spelled) => text := spelled;
        case Numbered(index) =>
          var header := HeaderAt(index);
          if header.None? {
            return None, [];
          }
          text := header.value.name;
      }
      var field := Field(text, value);
      if store {
        ReplayOne(Table(entries, limit), Insert(field));
        Add(field);
        return Some([field]), [Insert(field)];
      }
      return Some([field]), [];
    }

    /** The effect of a representation. */
    method Execute(rep: Representation) returns (fields: Option<seq<Field>>, ghost changes: seq<Change>)
      requires Valid()
      modifies this
      ensures Valid() && Performs(old(Table(entries, limit)), rep, fields, changes)
      ensures history == old(history) + changes && Table(entries, limit) == Replay(old(Table(entries, limit)), changes)
    {
      hide Total, Fit, Replay;
      ReplayNone(Table(entries, limit));
      match rep {
        case Indexed(index) =>
          var header := HeaderAt(index);
          fields, changes := if header.None? then None else Some([header.value]), [];
        case SizeUpdate(size) => fields, changes := DecodeSizeUpdate(size);
        case Literal(name, value, store) => fields, changes := DecodeLiteral(name, value, store);
      }
    }

    method ReadName(block: seq<byte>, offset: nat, index: nat) returns (r: Option<NameRef>, next: nat)
      requires Constants() && offset <= |block|
      ensures next <= |block|
      ensures if index != 0 then r == Some(Numbered(index)) && next == offset
        else match TextAt(d, block[offset..])
          case None => r == None
          case Some((name, n)) => r == Some(Spelled(name)) && next == offset + n
    {
      if index != 0 {
        return Some(Numbered(index)), offset;
      }
      var spelled;
      spelled, next := ReadText(codes, d, block, offset);
      r := if spelled.None? then None else Some(Spelled(spelled.value));
    }

    /** The name index and the strings of a literal representation. */
    method ReadLiteral(block: seq<byte>, offset: nat, store: bool) returns (r: Option<Representation>, next: nat)
      requires Constants() && offset <= |block|
      ensures next <= |block|
      ensures match LiteralAt(d, block[offset..], store)
        case None => r == None
        case Some((rep, n)) => r == Some(rep) && next == offset + n
    {
      hide IntegerAt, TextAt;
      var nameIndex;
      nameIndex, next := ReadInteger(block, offset, if store then 63 else 15);
      if nameIndex.None? {
        return None, next;
      }
      DropTwice(block, offset, next - offset);
      var name;
      name, next := ReadName(block, next, nameIndex.value);
      if name.None? {
        return None, next;
      }
      DropTwice(block, offset, next - offset);
      var value;
      value, next := ReadText(codes, d, block, next);
      r := if value.None? then None else Some(Literal(name.value, value.value, store));
    }

    method ReadRepresentation(block: seq<byte>, offset: nat) returns (r: Option<Representation>, next: nat)
      requires Constants() && offset < |block|
      ensures next <= |block|
      ensures match RepresentationAt(d, block[offset..])
        case None => r == None
        case Some((rep, n)) => r == Some(rep) && next == offset + n
    {
      hide Total, Fit, Replay;
      var first := block[offset];
      assert block[offset..][0] == first;
      if first >= 128 {
        var index;
        index, next := ReadInteger(block, offset, 127);
        r := if index.None? then None else Some(Indexed(index.value));
      } else if 32 <= first < 64 {
        var maximumSize;
        maximumSize, next := ReadInteger(block, offset, 31);
        r := if maximumSize.None? then None else Some(SizeUpdate(maximumSize.value));
      } else {
        r, next := ReadLiteral(block, offset, first >= 64);
      }
    }

    /** One turn of the loop of `Decode`. */
    method DecodeOne(block: seq<byte>, offset: nat)
      returns (found: Option<seq<Field>>, ghost changes: seq<Change>, next: nat)
      requires Valid() && offset < |block|
      modifies this
      ensures Valid()
      ensures history == old(history) + changes && Table(entries, limit) == Replay(old(Table(entries, limit)), changes)
      ensures var r := DecodeBlock(d, old(Table(entries, limit)), block[offset..]);
        if found.None? then r == Decoded(None, []) && changes == []
        else
          && offset < next <= |block|
          && r == After(Effect(found.value, changes), DecodeBlock(d, Table(entries, limit), block[next..]))
    {
      hide Total, Fit, Replay, RepresentationAt;
      ReplayNone(Table(entries, limit));
      var rep;
      rep, next := ReadRepresentation(block, offset);
      if rep.None? {
        return None, [], next;
      }
      DropTwice(block, offset, next - offset);
      found, changes := Execute(rep.value);
    }

    /**
      * A block is decoded representation by representation; a rejected block keeps the table changes made before the
      * representation that was refused.
      */
    method Decode(block: seq<byte>) returns (fields: Option<seq<Field>>)
      requires Valid()
      modifies this
      ensures Valid()
      ensures var r := DecodeBlock(d, old(Table(entries, limit)), block);
        && fields == r.fields
        && history == old(history) + r.changes
        && Table(entries, limit) == Replay(old(Table(entries, limit)), r.changes)
    {
      hide Total, Fit, Replay, DecodeBlock, After;
      ghost var first := Table(entries, limit);
      ghost var whole := DecodeBlock(d, first, block);
      ghost var made: seq<Change> := [];
      var result: seq<Field> := [];
      var offset := 0;
      assert block[0..] == block && history + made == history;
      AfterNothing(whole);
      ReplayNone(first);
      while offset < |block|
        invariant offset <= |block| && Valid()
        invariant history == old(history) + made && Table(entries, limit) == Replay(first, made)
        invariant whole == After(Effect(result, made), DecodeBlock(d, Table(entries, limit), block[offset..]))
      {
        AfterEnd(Effect(result, made));
        var found, changes, next := DecodeOne(block, offset);
        if found.None? {
          return None;
        }
        AfterBoth(Effect(result, made), Effect(found.value, changes),
                  DecodeBlock(d, Table(entries, limit), block[next..]));
        ReplayBoth(first, made, changes);
        result := result + found.value;
        made := made + changes;
        offset := next;
      }
      AfterEnd(Effect(result, made));
      assert block[offset..] == [];
      NothingLeft(d, Table(entries, limit));
      return Some(result);
    }
  }

  lemma ReplayNone(t: Table)
    ensures Replay(t, []) == t
  {
  }

  lemma ReplayOne(t: Table, c: Change)
    ensures Replay(t, [c]) == Apply(t, c)
  {
    assert [c][..0] == [];
  }

  lemma NothingLeft(d: Dictionary, t: Table)
    requires d.Valid()
    ensures DecodeBlock(d, t, []) == Decoded(Some([]), [])
  {
  }

  lemma AfterNothing(rest: Decoded)
    ensures After(Effect([], []), rest) == rest
  {
    assert rest.fields.Some? ==> [] + rest.fields.value == rest.fields.value;
  }

  lemma AfterEnd(a: Effect)
    ensures After(a, Decoded(Some([]), [])) == Decoded(Some(a.fields), a.changes)
    ensures After(a, Decoded(None, [])) == Decoded(None, a.changes)
  {
    assert a.fields + [] == a.fields && a.changes + [] == a.changes;
  }

  lemma AfterBoth(a: Effect, b: Effect, rest: Decoded)
    ensures After(a, After(b, rest)) == After(Effect(a.fields + b.fields, a.changes + b.changes), rest)
  {
    if rest.fields.Some? {
      assert a.fields + (b.fields + rest.fields.value) == a.fields + b.fields + rest.fields.value;
    }
    assert a.changes + (b.changes + rest.changes) == a.changes + b.changes + rest.changes;
  }

  lemma {:induction false} ReplayBoth(t: Table, a: seq<Change>, b: seq<Change>)
    ensures Replay(Replay(t, a), b) == Replay(t, a + b)
  {
    if b == [] {
      assert a + b == a;
    } else {
      var n := |b| - 1;
      ReplayBoth(t, a, b[..n]);
      assert (a + b)[..|a + b| - 1] == a + b[..n];
    }
  }

  // ---- Dynamic indices -----------------------------------------------------------------------

  lemma {:induction false} InsertedSplit(changes: seq<Change>, m: nat)
    requires m <= |changes|
    ensures Inserted(changes) == Inserted(changes[m..]) + Inserted(changes[..m])
    decreases |changes|
  {
    var n := |changes| - 1;
    if m == |changes| {
      assert changes[m..] == [] && changes[..m] == changes;
    } else {
      InsertedSplit(changes[..n], m);
      assert changes[..n][m..] == changes[m..][..n - m] && changes[..n][..m] == changes[..m];
      assert changes[m..][n - m] == changes[n];
      assert |changes[m..]| - 1 == n - m;
    }
  }

  /**
    * The index just past the static table names the newest insertion, and each further index the one before it
    * (section 2.3.3 of RFC 7541), after any history; indices past the table name nothing.
    */
  lemma IndexIsRecency(statics: seq<Field>, changes: seq<Change>, k: nat)
    requires |statics| == 62
    ensures var entries := Replay(NEW_TABLE, changes).entries;
      && |entries| <= |Inserted(changes)|
      && Lookup(statics, entries, 62 + k) == if k < |entries| then Some(Inserted(changes)[k]) else None
  {
    var m := TableIsHistory(changes);
    InsertedSplit(changes, m);
  }
}
