/** Exactly which header blocks survive the 127-octet limit of the builder in src/core/control/base/H2.cpp. */
module HpackLimit {
  import opened Bytes
  import opened HpackInteger
  import opened HpackTable
  import opened HpackDecoder
  import opened HpackBuilder

  /** The one text of 127 octets that can be read back as itself, one octet late. */
  function Zeros(): (text: Text)
    ensures |text| == 127 && forall i :: 0 <= i < 127 ==> text[i] == 0
  {
    seq(127, _ => 0)
  }

  /** What follows can pass for the end of a text of 127 octets whose beginning passed for its length. */
  predicate Completes(text: Text, rest: seq<byte>) {
    && rest != [] && (rest[0] == 0 || rest[0] == 128)
    && (text == Zeros() || (|rest| >= 2 && (rest[0] == 128 || rest[1] == 128)))
  }

  /** A string of octets that goes on as it began: 128 several times, then 0, over and over. */
  ghost predicate Cycles(b: seq<byte>, p: nat) {
    && 0 < p && 127 + p < |b|
    && (forall i :: 1 <= i <= p ==> b[i] == if i < p then 128 else 0)
    && (forall i :: 1 <= i < 128 ==> b[i + p] == b[i])
  }

  lemma {:induction false} NeverTwoZeros(b: seq<byte>, p: nat, x: nat)
    requires Cycles(b, p) && 2 <= p && 1 <= x && x + 1 <= 127 + p
    ensures (b[x] == 0 || b[x] == 128) && (b[x] == 128 || b[x + 1] == 128)
    decreases x
  {
    if x > p {
      NeverTwoZeros(b, p, x - p);
      assert b[x - p + p] == b[x - p] && b[x - p + 1 + p] == b[x - p + 1];
    } else if x == p {
      assert b[1 + p] == b[1];
    }
  }

  lemma {:induction false} AllZeros(b: seq<byte>, x: nat)
    requires Cycles(b, 1) && 1 <= x <= 128
    ensures b[x] == 0
    decreases x
  {
    if x > 1 {
      AllZeros(b, x - 1);
      assert b[x - 1 + 1] == b[x - 1];
    }
  }

  /** A text read from `p` octets behind its place, over a length of zero, goes on as it began. */
  lemma {:induction false} ShiftedText(b: seq<byte>, text: Text, p: nat)
    requires |text| == 127 && 0 < p && 127 + p < |b| && b[1..128] == text && b[p + 1..p + 128] == text
    requires forall i :: 0 <= i < p ==> b[1..][i] == if i < p - 1 then 128 else 0
    ensures Cycles(b, p)
  {
    forall i | 1 <= i <= p
      ensures b[i] == if i < p then 128 else 0
    {
      assert b[1..][i - 1] == b[i];
    }
    forall i | 1 <= i < 128
      ensures b[i + p] == b[i]
    {
      assert b[1..128][i - 1] == b[i] && b[p + 1..p + 128][i - 1] == b[i + p];
    }
  }

  /** Reading a text of 127 octets back as itself takes octets behind it that complete it. */
  lemma {:induction false} LongTextReads(d: Dictionary, text: Text, rest: seq<byte>)
    requires |d.book| == 256 && |text| == 127
    ensures var r := TextAt(d, TextBytes(text) + rest);
      r.Some? && r.value.0 == text ==> Completes(text, rest) && r.value.1 >= 129
  {
    var b := TextBytes(text) + rest;
    LongText(d, text, rest);
    assert LowBits(b[0], 127) == 127 && b[0] < 128;
    var r := TextAt(d, b);
    if r.Some? && r.value.0 == text {
      var f := StringFieldAt(b).value;
      assert ReadGroups(b[1..]) == Groups(0, f.start - 1) && TextOf(d, b, f) == Some(b[f.start..f.start + 127]);
      ZeroGroups(b[1..]);
      hide Completes, Cycles, TextAt, StringFieldAt, TextOf;
      assert b[1..128] == text;
      ShiftedText(b, text, f.start - 1);
      CycleCompletes(text, rest, f.start - 1);
    }
  }

  lemma {:induction false} CycleCompletes(text: Text, rest: seq<byte>, p: nat)
    requires |text| == 127 && Cycles(TextBytes(text) + rest, p)
    ensures Completes(text, rest)
  {
    var b := TextBytes(text) + rest;
    assert rest[0] == b[128];
    if p == 1 {
      forall i | 0 <= i < 127
        ensures text[i] == 0
      {
        AllZeros(b, i + 1);
        assert text[i] == b[i + 1];
      }
      assert text == Zeros();
      AllZeros(b, 128);
    } else {
      assert rest[1] == b[129];
      NeverTwoZeros(b, p, 128);
    }
  }

  // ---- Blocks that are not read back ---------------------------------------------------------

  /** Whatever is in the dynamic table, these fields do not come out. */
  ghost predicate Fails(d: Dictionary, b: seq<byte>, fields: seq<Field>)
    requires d.Valid()
  {
    forall t: Table :: DecodeBlock(d, t, b).fields != Some(fields)
  }

  /** The first representation is a literal that is not this field. */
  ghost predicate Misread(d: Dictionary, b: seq<byte>, f: Field)
    requires |d.book| == 256 && b != []
  {
    match RepresentationAt(d, b)
    case None => true
    case Some((rep, _)) => rep.Literal? && (rep.value != f.value || (rep.name.Spelled? && rep.name.name != f.name))
  }

  lemma MisreadFails(d: Dictionary, b: seq<byte>, f: Field, fields: seq<Field>)
    requires d.Valid() && b != [] && Misread(d, b, f)
    ensures Fails(d, b, [f] + fields)
  {
    hide RepresentationAt, TextAt;
    forall t: Table
      ensures DecodeBlock(d, t, b).fields != Some([f] + fields)
    {
      assert ([f] + fields)[0] == f;
    }
  }

  lemma FailsLater(d: Dictionary, bytes: seq<byte>, rep: Representation, f: Field, rest: seq<byte>, fields: seq<Field>)
    requires d.Valid() && bytes != [] && !rep.SizeUpdate? && Fails(d, rest, fields)
    requires RepresentationAt(d, bytes + rest) == Some((rep, |bytes|))
    ensures Fails(d, bytes + rest, [f] + fields)
  {
    hide RepresentationAt;
    assert (bytes + rest)[|bytes|..] == rest;
    forall t: Table
      ensures DecodeBlock(d, t, bytes + rest).fields != Some([f] + fields)
    {
      if Perform(d.statics, t, rep).Some? {
        var e := Perform(d.statics, t, rep).value;
        var later := DecodeBlock(d, Replay(t, e.changes), rest).fields;
        assert later != Some(fields);
        if later.Some? {
          SameTail(e.fields[0], later.value, f, fields);
          assert e.fields == [e.fields[0]];
        }
      }
    }
  }

  lemma SameTail(x: Field, xs: seq<Field>, y: Field, ys: seq<Field>)
    ensures [x] + xs == [y] + ys ==> xs == ys
  {
    assert ([x] + xs)[1..] == xs && ([y] + ys)[1..] == ys;
  }

  lemma IndexedBeforeFailure(d: Dictionary, index: nat, f: Field, rest: seq<byte>, fields: seq<Field>)
    requires d.Valid() && index < 62 && Fails(d, rest, fields)
    ensures Fails(d, IndexedBytes(index) + rest, [f] + fields)
  {
    hide DecodeBlock;
    assert LowBits((IndexedBytes(index) + rest)[0], 127) == index;
    FailsLater(d, IndexedBytes(index), Indexed(index), f, rest, fields);
  }

  /** A field written as a literal with a numbered name: it fails by itself, or passes on the failure behind it. */
  lemma LiteralFails(d: Dictionary, index: nat, f: Field, rest: seq<byte>, fields: seq<Field>)
    requires d.Valid() && 1 <= index < 62 && |f.value| <= MAXIMUM_LENGTH
    requires if |f.value| == 127 then !Completes(f.value, rest) else Fails(d, rest, fields)
    ensures Fails(d, LiteralIndexedBytes(index, f.value) + rest, [f] + fields)
  {
    hide DecodeBlock, TextAt;
    if |f.value| == 127 {
      var b := LiteralIndexedBytes(index, f.value) + rest;
      assert LowBits(b[0], 63) == index;
      Tail(64 + index, TextBytes(f.value), rest);
      LongTextReads(d, f.value, rest);
      MisreadFails(d, b, f, fields);
    } else {
      hide RepresentationAt;
      ShortLiteralIndexed(d, index, f.value, rest);
      FailsLater(d, LiteralIndexedBytes(index, f.value), LiteralIndexed(index, f.value), f, rest, fields);
    }
  }

  // ---- Extra headers -------------------------------------------------------------------------

  /** The first string of 127 octets in the header is all zeros, and what follows the header stands right behind it. */
  predicate Masks(f: Field) {
    if |f.name| == 127 then f.name == Zeros() && f.value == [] else f.value == Zeros()
  }

  /** The first string of 127 octets is all zeros and stands right before the zero octet of a further extra header. */
  predicate MaskedExtra(extra: seq<Field>) {
    && extra != []
    && if |extra[0].name| == 127 || |extra[0].value| == 127 then |extra| > 1 && Masks(extra[0])
       else MaskedExtra(extra[1..])
  }

  predicate MaskedTail(r: Request) {
    if |r.contentType| == 127 then r.contentType == Zeros() && r.extra != [] else MaskedExtra(r.extra)
  }

  predicate Masked(r: Request) {
    Fits(r.(contentType := [], extra := []), 126) && MaskedTail(r)
  }

  lemma ExtraStart(extra: seq<Field>)
    requires ExtraFits(extra, MAXIMUM_LENGTH)
    ensures extra == [] ==> ExtraBytes(extra) == []
    ensures extra != [] ==> |ExtraBytes(extra)| >= 3 && ExtraBytes(extra)[0] == 0 && ExtraBytes(extra)[1] <= 127
  {
  }

  lemma LongNameMisread(d: Dictionary, f: Field, rest: seq<byte>)
    requires d.Valid() && |f.name| == 127 && |f.value| <= MAXIMUM_LENGTH
    requires rest == [] || (|rest| >= 3 && rest[0] == 0 && !(f.name == Zeros() && f.value == []))
    ensures Misread(d, LiteralNewBytes(f.name, f.value) + rest, f)
  {
    hide TextAt;
    var b := LiteralNewBytes(f.name, f.value) + rest;
    var after := TextBytes(f.value) + rest;
    assert LowBits(b[0], 15) == 0;
    assert b[1..] == TextBytes(f.name) + after;
    assert after[0] == |f.value|;
    assert f.value == [] && rest != [] ==> after[1] == rest[0];
    LongTextReads(d, f.name, after);
    EmptyText(d);
  }

  lemma LongValueMisread(d: Dictionary, f: Field, rest: seq<byte>)
    requires d.Valid() && |f.name| <= 126 && |f.value| == 127 && !Completes(f.value, rest)
    ensures Misread(d, LiteralNewBytes(f.name, f.value) + rest, f)
  {
    hide TextAt, Completes;
    var b := LiteralNewBytes(f.name, f.value) + rest;
    var after := TextBytes(f.value) + rest;
    assert LowBits(b[0], 15) == 0;
    assert b[1..] == TextBytes(f.name) + after;
    ShortText(d, f.name, after);
    assert b[2 + |f.name|..] == after;
    LongTextReads(d, f.value, rest);
  }

  lemma LongNewFails(d: Dictionary, f: Field, tail: seq<Field>, fields: seq<Field>)
    requires d.Valid() && |f.name| <= MAXIMUM_LENGTH && |f.value| <= MAXIMUM_LENGTH && ExtraFits(tail, MAXIMUM_LENGTH)
    requires |f.name| == 127 || |f.value| == 127
    requires tail != [] ==> !Masks(f)
    ensures Fails(d, LiteralNewBytes(f.name, f.value) + ExtraBytes(tail), [f] + fields)
  {
    hide DecodeBlock, Misread;
    ExtraStart(tail);
    if |f.name| == 127 {
      LongNameMisread(d, f, ExtraBytes(tail));
    } else {
      LongValueMisread(d, f, ExtraBytes(tail));
    }
    MisreadFails(d, LiteralNewBytes(f.name, f.value) + ExtraBytes(tail), f, fields);
  }

  lemma {:induction false} ExtraFails(d: Dictionary, extra: seq<Field>)
    requires d.Valid() && ExtraFits(extra, MAXIMUM_LENGTH) && !ExtraFits(extra, 126) && !MaskedExtra(extra)
    ensures Fails(d, ExtraBytes(extra), extra)
  {
    var f, tail := extra[0], extra[1..];
    assert extra == [f] + tail;
    if |f.name| == 127 || |f.value| == 127 {
      LongNewFails(d, f, tail, tail);
    } else {
      ExtraFails(d, tail);
      ShortLiteralNew(d, f.name, f.value, ExtraBytes(tail));
      FailsLater(d, LiteralNewBytes(f.name, f.value), LiteralNew(f.name, f.value), f, ExtraBytes(tail), tail);
    }
  }

  // ---- The whole block -----------------------------------------------------------------------

  lemma ContentTypeFails(d: Dictionary, r: Request)
    requires d.Valid() && Fits(r, MAXIMUM_LENGTH) && !MaskedTail(r)
    requires |r.contentType| == 127 || !ExtraFits(r.extra, 126)
    ensures Fails(d, LiteralIndexedBytes(31, r.contentType) + ExtraBytes(r.extra),
                  [Field(Ascii("content-type"), r.contentType)] + r.extra)
  {
    hide Ascii, Fails;
    ExtraStart(r.extra);
    if |r.contentType| <= 126 {
      ExtraFails(d, r.extra);
    }
    LiteralFails(d, 31, Field(Ascii("content-type"), r.contentType), ExtraBytes(r.extra), r.extra);
  }

  /**
    * Behind every literal of the block but the last ones stands an octet that completes no text, so a string of 127
    * octets anywhere is not read back as it was written.
    */
  lemma LongBlockFails(d: Dictionary, r: Request)
    requires d.Valid() && Fits(r, MAXIMUM_LENGTH) && !Fits(r, 126) && !Masked(r)
    ensures Fails(d, BlockBytes(r), RequestFields(r))
  {
    hide Ascii, Fails, MaskedTail, LiteralIndexedBytes, ExtraBytes;
    var rest := LiteralIndexedBytes(31, r.contentType) + ExtraBytes(r.extra);
    var fields := [Field(Ascii("content-type"), r.contentType)] + r.extra;
    if !MaskedTail(r) && (|r.contentType| == 127 || !ExtraFits(r.extra, 126)) {
      ContentTypeFails(d, r);
    }
    LiteralStart(31, r.contentType, ExtraBytes(r.extra));
    if |r.authority| == 127 || Fails(d, rest, fields) {
      LiteralFails(d, 1, Field(Ascii(":authority"), r.authority), rest, fields);
    }
    LiteralStart(1, r.authority, rest);
    rest := LiteralIndexedBytes(1, r.authority) + rest;
    fields := [Field(Ascii(":authority"), r.authority)] + fields;
    if Fails(d, rest, fields) {
      IndexedBeforeFailure(d, 6, Pair(":scheme", "http"), rest, fields);
    }
    rest, fields := IndexedBytes(6) + rest, [Pair(":scheme", "http")] + fields;
    PathFails(d, r.path, rest, fields);
    PathStart(r.path, rest);
    rest, fields := PathBytes(r.path) + rest, [Field(Ascii(":path"), r.path)] + fields;
    VerbFails(d, r.verb, rest, fields);
  }

  lemma LiteralStart(index: nat, value: Text, rest: seq<byte>)
    requires index <= 63 && |value| <= MAXIMUM_LENGTH
    ensures var b := LiteralIndexedBytes(index, value) + rest; b != [] && b[0] == 64 + index
  {
  }

  lemma PathStart(path: Text, rest: seq<byte>)
    requires path == Ascii("/") || |path| <= MAXIMUM_LENGTH
    ensures var b := PathBytes(path) + rest; b != [] && (b[0] == 132 || b[0] == 68)
  {
  }

  lemma PathFails(d: Dictionary, path: Text, rest: seq<byte>, fields: seq<Field>)
    requires d.Valid() && (path == Ascii("/") || |path| <= MAXIMUM_LENGTH) && rest != [] && rest[0] == 134
    ensures Fails(d, rest, fields) || (path != Ascii("/") && |path| == 127) ==>
      Fails(d, PathBytes(path) + rest, [Field(Ascii(":path"), path)] + fields)
  {
    hide Ascii, Fails;
    if path == Ascii("/") {
      if Fails(d, rest, fields) {
        IndexedBeforeFailure(d, 4, Field(Ascii(":path"), path), rest, fields);
      }
    } else if |path| == 127 || Fails(d, rest, fields) {
      LiteralFails(d, 4, Field(Ascii(":path"), path), rest, fields);
    }
  }

  lemma VerbFails(d: Dictionary, verb: Text, rest: seq<byte>, fields: seq<Field>)
    requires d.Valid() && (verb == Ascii("POST") || verb == Ascii("GET") || |verb| <= MAXIMUM_LENGTH)
    requires rest != [] && (rest[0] == 132 || rest[0] == 68)
    ensures Fails(d, rest, fields) || (verb != Ascii("POST") && verb != Ascii("GET") && |verb| == 127) ==>
      Fails(d, VerbBytes(verb) + rest, [Field(Ascii(":method"), verb)] + fields)
  {
    hide Ascii, Fails;
    if verb == Ascii("POST") || verb == Ascii("GET") {
      if Fails(d, rest, fields) {
        IndexedBeforeFailure(d, if verb == Ascii("POST") then 3 else 2, Field(Ascii(":method"), verb), rest, fields);
      }
    } else if |verb| == 127 || Fails(d, rest, fields) {
      LiteralFails(d, 2, Field(Ascii(":method"), verb), rest, fields);
    }
  }

  /**
    * From every decoder state, a built block decodes to the fields it was built from exactly when no literal is 127
    * octets long, unless the first that is consists of zeros and stands right before a further extra header.
    */
  lemma BlockRoundTrip(d: Dictionary, t: Table, r: Request)
    requires d.Valid() && d.statics == StaticTable() && Fits(r, MAXIMUM_LENGTH) && !Masked(r)
    ensures DecodeBlock(d, t, BlockBytes(r)).fields == Some(RequestFields(r)) <==> Fits(r, 126)
  {
    hide DecodeBlock, StaticTable, Ascii, Fits, Masked, BlockBytes, RequestFields;
    if Fits(r, 126) {
      BuiltBlockDecodes(d, t, r);
    } else {
      LongBlockFails(d, r);
    }
  }

  // ---- The masked blocks ---------------------------------------------------------------------

  function Spaces(n: nat): (text: Text)
    ensures |text| == n && forall i :: 0 <= i < n ==> text[i] == 32
  {
    seq(n, _ => 32)
  }

  /** Fifteen octets, a length that is also a prefix; the first octet makes it the name index 64. */
  function Lucky(): Field {
    Field([49] + Spaces(14), Spaces(32))
  }

  function LuckyRequest(): Request {
    Request(Ascii("POST"), Ascii("/"), [], Zeros(), [Lucky()])
  }

  /** The first representation of a block, performed. */
  lemma Peel(d: Dictionary, t: Table, bytes: seq<byte>, rep: Representation, rest: seq<byte>)
    requires d.Valid() && bytes != [] && RepresentationAt(d, bytes + rest) == Some((rep, |bytes|))
    ensures DecodeBlock(d, t, bytes + rest).fields ==
      match Perform(d.statics, t, rep)
      case None => None
      case Some(e) => Followed(e.fields, DecodeBlock(d, Replay(t, e.changes), rest).fields)
  {
    hide RepresentationAt, Perform;
    assert (bytes + rest)[|bytes|..] == rest;
  }

  function Followed(fields: seq<Field>, later: Option<seq<Field>>): Option<seq<Field>> {
    if later.Some? then Some(fields + later.value) else None
  }

  /** Spaces are size updates to nothing. */
  lemma {:induction false} SpacesVanish(d: Dictionary, t: Table, n: nat)
    requires d.Valid()
    ensures DecodeBlock(d, t, Spaces(n)).fields == Some([])
    decreases n
  {
    if n > 0 {
      assert Spaces(n) == [32] + Spaces(n - 1);
      assert LowBits(([32] + Spaces(n - 1))[0], 31) == 0;
      Peel(d, t, [32], SizeUpdate(0), Spaces(n - 1));
      SpacesVanish(d, Replay(t, [Resize(0)]), n - 1);
      NothingFollows([]);
    }
  }

  /** What is left of the lucky header without its first octet: a literal named by index 64 and 14 size updates. */
  lemma LuckyTail(d: Dictionary, t: Table)
    requires d.Valid()
    ensures DecodeBlock(d, t, TextBytes(Lucky().name) + TextBytes(Lucky().value)).fields ==
      match Lookup(d.statics, t.entries, 64)
      case None => None
      case Some(f) => Some([Field(f.name, Spaces(32))])
  {
    var bytes := [15, 49] + TextBytes(Spaces(32));
    assert TextBytes(Lucky().name) + TextBytes(Lucky().value) == bytes + Spaces(14);
    LuckyRepresentation(d, bytes);
    hide RepresentationAt, DecodeBlock;
    Peel(d, t, bytes, Literal(Numbered(64), Spaces(32), false), Spaces(14));
    SpacesVanish(d, Replay(t, []), 14);
    if f :| Lookup(d.statics, t.entries, 64) == Some(f) {
      NothingFollows([Field(f.name, Spaces(32))]);
    }
  }

  lemma NothingFollows(fields: seq<Field>)
    ensures Followed(fields, Some([])) == Some(fields)
  {
    assert fields + [] == fields;
  }

  lemma LuckyRepresentation(d: Dictionary, bytes: seq<byte>)
    requires |d.book| == 256 && bytes == [15, 49] + TextBytes(Spaces(32))
    ensures RepresentationAt(d, bytes + Spaces(14)) == Some((Literal(Numbered(64), Spaces(32), false), |bytes|))
  {
    hide TextAt;
    var b := bytes + Spaces(14);
    assert LowBits(b[0], 15) == 15;
    assert ReadGroups(b[1..]) == Groups(49, 1);
    assert b[2..] == TextBytes(Spaces(32)) + Spaces(14);
    ShortText(d, Spaces(32), Spaces(14));
  }

  /** The content type takes the zero that announces the next header for its own last octet. */
  lemma ZerosRepresentation(d: Dictionary, rest: seq<byte>)
    requires |d.book| == 256
    ensures var bytes := LiteralIndexedBytes(31, Zeros()) + [0];
      RepresentationAt(d, bytes + rest) == Some((LiteralIndexed(31, Zeros()), |bytes|))
  {
    hide TextAt;
    var b := LiteralIndexedBytes(31, Zeros()) + [0] + rest;
    assert LowBits(b[0], 63) == 31;
    assert b[1..] == TextBytes(Zeros()) + ([0] + rest);
    ZerosText(d, rest);
  }

  lemma ZerosText(d: Dictionary, rest: seq<byte>)
    requires |d.book| == 256
    ensures TextAt(d, TextBytes(Zeros()) + ([0] + rest)) == Some((Zeros(), 129))
  {
    var b := TextBytes(Zeros()) + ([0] + rest);
    assert LowBits(b[0], 127) == 127 && b[0] < 128;
    assert forall i :: 1 <= i <= 128 ==> b[i] == 0;
    assert b[1..][0] == 0;
    assert ReadGroups(b[1..]) == Groups(0, 1);
    assert b[2..129] == Zeros();
  }

  /** The table of a decoder after the authority and the content type of the lucky request. */
  function TableThen(d: Dictionary, t: Table): Table
    requires |d.statics| == 62
  {
    Replay(Replay(t, [Insert(Field(d.statics[1].name, []))]), [Insert(Field(d.statics[31].name, Zeros()))])
  }

  lemma LuckyBlock(d: Dictionary, t: Table)
    requires d.Valid() && d.statics == StaticTable()
    ensures Fits(LuckyRequest(), MAXIMUM_LENGTH)
    ensures DecodeBlock(d, t, BlockBytes(LuckyRequest())).fields ==
      match Lookup(d.statics, TableThen(d, t).entries, 64)
      case None => None
      case Some(f) => Some(RequestFields(LuckyRequest().(extra := [Field(f.name, Spaces(32))])))
  {
    hide Ascii, StaticTable, RepresentationAt, DecodeBlock, Replay;
    var r, f := LuckyRequest(), Lucky();
    var tail := TextBytes(f.name) + TextBytes(f.value);
    var t1 := Replay(t, [Insert(Field(d.statics[1].name, []))]);
    var rest := LiteralIndexedBytes(31, Zeros()) + [0] + tail;
    LuckyTail(d, TableThen(d, t));
    ZerosRepresentation(d, tail);
    Peel(d, t1, LiteralIndexedBytes(31, Zeros()) + [0], LiteralIndexed(31, Zeros()), tail);
    ShortLiteralIndexed(d, 1, [], rest);
    Peel(d, t, LiteralIndexedBytes(1, []), LiteralIndexed(1, []), rest);
    LuckyStart(d, t, LiteralIndexedBytes(1, []) + rest);
    LuckyBytes(rest);
    StaticEntries(d.statics);
  }

  lemma LuckyStart(d: Dictionary, t: Table, rest: seq<byte>)
    requires d.Valid()
    ensures DecodeBlock(d, t, IndexedBytes(3) + (IndexedBytes(4) + (IndexedBytes(6) + rest))).fields ==
      Followed([d.statics[3]], Followed([d.statics[4]], Followed([d.statics[6]], DecodeBlock(d, t, rest).fields)))
  {
    hide DecodeBlock;
    ReplayNone(t);
    assert LowBits(128 + 3, 127) == 3 && LowBits(128 + 4, 127) == 4 && LowBits(128 + 6, 127) == 6;
    Peel(d, t, IndexedBytes(6), Indexed(6), rest);
    Peel(d, t, IndexedBytes(4), Indexed(4), IndexedBytes(6) + rest);
    Peel(d, t, IndexedBytes(3), Indexed(3), IndexedBytes(4) + (IndexedBytes(6) + rest));
  }

  lemma LuckyBytes(rest: seq<byte>)
    requires rest == LiteralIndexedBytes(31, Zeros()) + [0] + (TextBytes(Lucky().name) + TextBytes(Lucky().value))
    ensures Fits(LuckyRequest(), MAXIMUM_LENGTH)
    ensures BlockBytes(LuckyRequest()) ==
      IndexedBytes(3) + (IndexedBytes(4) + (IndexedBytes(6) + (LiteralIndexedBytes(1, []) + rest)))
  {
    hide Ascii;
    var f := Lucky();
    assert [f][1..] == [];
    assert ExtraBytes([f]) == LiteralNewBytes(f.name, f.value) + [];
    assert LiteralIndexedBytes(31, Zeros()) + ExtraBytes([f]) == rest;
  }

  /**
    * For a masked block both are possible, by what else the decoder has seen: after this one earlier insertion it is
    * read back, and by a new decoder it is refused.
    */
  lemma MaskedDependsOnTable(d: Dictionary) returns (r: Request, earlier: Field)
    requires d.Valid() && d.statics == StaticTable()
    ensures Fits(r, MAXIMUM_LENGTH) && Masked(r)
    ensures DecodeBlock(d, Replay(NEW_TABLE, [Insert(earlier)]), BlockBytes(r)).fields == Some(RequestFields(r))
    ensures DecodeBlock(d, NEW_TABLE, BlockBytes(r)).fields == None
  {
    hide Ascii, StaticTable, DecodeBlock, BlockBytes, RequestFields;
    r, earlier := LuckyRequest(), Field(Lucky().name, []);
    var t := Table([earlier], DEFAULT_LIMIT);
    OneInsertion(earlier);
    LuckyBlock(d, t);
    LuckyBlock(d, NEW_TABLE);
    TwoInsertions(d, t);
    TwoInsertions(d, NEW_TABLE);
  }

  lemma OneInsertion(f: Field)
    requires Size(f) <= DEFAULT_LIMIT
    ensures Replay(NEW_TABLE, [Insert(f)]) == Table([f], DEFAULT_LIMIT) && Total([f]) == Size(f)
  {
    ReplayOne(NEW_TABLE, Insert(f));
    assert [f] + [] == [f] && [f][1..] == [];
    FitWhole([f], DEFAULT_LIMIT);
  }

  lemma TwoInsertions(d: Dictionary, t: Table)
    requires d.Valid() && d.statics == StaticTable() && t.limit == DEFAULT_LIMIT && Total(t.entries) <= 100
    ensures TableThen(d, t).entries == [Field(d.statics[31].name, Zeros()), Field(d.statics[1].name, [])] + t.entries
  {
    hide StaticTable, Fit, Replay;
    StaticEntries(d.statics);
    var a, c := Field(d.statics[1].name, []), Field(d.statics[31].name, Zeros());
    assert |a.name| == 10 && |c.name| == 12;
    var once := [a] + t.entries;
    assert once[1..] == t.entries;
    FitWhole(once, DEFAULT_LIMIT);
    ReplayOne(t, Insert(a));
    var twice := [c] + once;
    assert twice[1..] == once;
    FitWhole(twice, DEFAULT_LIMIT);
    ReplayOne(Replay(t, [Insert(a)]), Insert(c));
    assert twice == [c, a] + t.entries;
  }
}
