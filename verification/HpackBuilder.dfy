/** The header block of `H2Codec::BuildHeaders` in src/core/control/base/H2.cpp, and what the decoder makes of it. */
module HpackBuilder {
  import opened Bytes
  import opened HpackInteger
  import opened HpackTable
  import opened HpackDecoder

  const MAXIMUM_LENGTH := 127

  datatype BuildError = IndexTooLarge | FieldTooLong

  function IndexedBytes(index: nat): seq<byte>
    requires index <= 127
  {
    [128 + index]
  }

  function TextBytes(text: Text): seq<byte>
    requires |text| <= MAXIMUM_LENGTH
  {
    [|text|] + text
  }

  function LiteralIndexedBytes(nameIndex: nat, value: Text): seq<byte>
    requires nameIndex <= 63 && |value| <= MAXIMUM_LENGTH
  {
    [64 + nameIndex] + TextBytes(value)
  }

  function LiteralNewBytes(name: Text, value: Text): seq<byte>
    requires |name| <= MAXIMUM_LENGTH && |value| <= MAXIMUM_LENGTH
  {
    [0] + TextBytes(name) + TextBytes(value)
  }

  method AppendIndexed(output: seq<byte>, index: nat) returns (r: Result<seq<byte>, BuildError>)
    ensures r == if index > 127 then Err(IndexTooLarge) else Ok(output + IndexedBytes(index))
  {
    if index > 127 {
      return Err(IndexTooLarge);
    }
    return Ok(output + [128 + index]);
  }

  method AppendLiteralIndexed(output: seq<byte>, nameIndex: nat, value: Text) returns (r: Result<seq<byte>, BuildError>)
    ensures r == if nameIndex > 63 || |value| > MAXIMUM_LENGTH then Err(FieldTooLong)
                 else Ok(output + LiteralIndexedBytes(nameIndex, value))
  {
    if nameIndex > 63 || |value| > MAXIMUM_LENGTH {
      return Err(FieldTooLong);
    }
    var out := output + [64 + nameIndex];
    out := out + [|value|];
    out := out + value;
    assert out == output + LiteralIndexedBytes(nameIndex, value);
    return Ok(out);
  }

  method AppendLiteralNew(output: seq<byte>, name: Text, value: Text) returns (r: Result<seq<byte>, BuildError>)
    ensures r == if |name| > MAXIMUM_LENGTH || |value| > MAXIMUM_LENGTH then Err(FieldTooLong)
                 else Ok(output + LiteralNewBytes(name, value))
  {
    if |name| > MAXIMUM_LENGTH || |value| > MAXIMUM_LENGTH {
      return Err(FieldTooLong);
    }
    var out := output + [0];
    out := out + [|name|];
    out := out + name;
    out := out + [|value|];
    out := out + value;
    assert out == output + LiteralNewBytes(name, value);
    return Ok(out);
  }

  // ---- The block -----------------------------------------------------------------------------

  datatype Request = Request(verb: Text, path: Text, authority: Text, contentType: Text, extra: seq<Field>)

  predicate Fits(r: Request, limit: nat) {
    && (r.verb == Ascii("POST") || r.verb == Ascii("GET") || |r.verb| <= limit)
    && (r.path == Ascii("/") || |r.path| <= limit)
    && |r.authority| <= limit && |r.contentType| <= limit
    && ExtraFits(r.extra, limit)
  }

  predicate ExtraFits(extra: seq<Field>, limit: nat) {
    forall i :: 0 <= i < |extra| ==> |extra[i].name| <= limit && |extra[i].value| <= limit
  }

  function VerbBytes(verb: Text): seq<byte>
    requires verb == Ascii("POST") || verb == Ascii("GET") || |verb| <= MAXIMUM_LENGTH
  {
    if verb == Ascii("POST") then IndexedBytes(3)
    else if verb == Ascii("GET") then IndexedBytes(2)
    else LiteralIndexedBytes(2, verb)
  }

  function PathBytes(path: Text): seq<byte>
    requires path == Ascii("/") || |path| <= MAXIMUM_LENGTH
  {
    if path == Ascii("/") then IndexedBytes(4) else LiteralIndexedBytes(4, path)
  }

  function ExtraBytes(extra: seq<Field>): seq<byte>
    requires ExtraFits(extra, MAXIMUM_LENGTH)
  {
    if extra == [] then []
    else LiteralNewBytes(extra[0].name, extra[0].value) + ExtraBytes(extra[1..])
  }

  function BlockBytes(r: Request): seq<byte>
    requires Fits(r, MAXIMUM_LENGTH)
  {
    VerbBytes(r.verb) + (PathBytes(r.path) + (IndexedBytes(6) +
    (LiteralIndexedBytes(1, r.authority) + (LiteralIndexedBytes(31, r.contentType) + ExtraBytes(r.extra)))))
  }

  // ---- Decoding it ---------------------------------------------------------------------------

  lemma ShortText(d: Dictionary, text: Text, rest: seq<byte>)
    requires |d.book| == 256 && |text| <= 126
    ensures TextAt(d, TextBytes(text) + rest) == Some((text, 1 + |text|))
  {
    var b := TextBytes(text) + rest;
    assert LowBits(b[0], 127) == |text|;
    assert b[1..1 + |text|] == text;
  }

  /** A length octet of 127 is a prefix: at least one octet of the text is taken for the rest of the length. */
  lemma LongText(d: Dictionary, text: Text, rest: seq<byte>)
    requires |d.book| == 256 && |text| == 127
    ensures var r := TextAt(d, TextBytes(text) + rest); r.Some? ==> r.value.1 >= 129
  {
    var b := TextBytes(text) + rest;
    assert LowBits(b[0], 127) == 127;
  }

  function LiteralIndexed(nameIndex: nat, value: Text): Representation {
    Literal(Numbered(nameIndex), value, true)
  }

  function LiteralNew(name: Text, value: Text): Representation {
    Literal(Spelled(name), value, false)
  }

  lemma Tail(first: byte, a: seq<byte>, rest: seq<byte>)
    ensures ([first] + a + rest)[1..] == a + rest
  {
  }

  lemma ShortLiteralIndexed(d: Dictionary, nameIndex: nat, value: Text, rest: seq<byte>)
    requires |d.book| == 256 && 1 <= nameIndex <= 62 && |value| <= 126
    ensures var b := LiteralIndexedBytes(nameIndex, value);
      RepresentationAt(d, b + rest) == Some((LiteralIndexed(nameIndex, value), |b|))
  {
    hide TextAt;
    var b := LiteralIndexedBytes(nameIndex, value) + rest;
    assert LowBits(b[0], 63) == nameIndex;
    Tail(64 + nameIndex, TextBytes(value), rest);
    ShortText(d, value, rest);
  }

  lemma ShortLiteralNew(d: Dictionary, name: Text, value: Text, rest: seq<byte>)
    requires |d.book| == 256 && |name| <= 126 && |value| <= 126
    ensures var b := LiteralNewBytes(name, value);
      RepresentationAt(d, b + rest) == Some((LiteralNew(name, value), |b|))
  {
    hide TextAt;
    var b := LiteralNewBytes(name, value) + rest;
    assert LowBits(b[0], 15) == 0;
    assert b[1..] == TextBytes(name) + (TextBytes(value) + rest);
    ShortText(d, name, TextBytes(value) + rest);
    assert b[2 + |name|..] == TextBytes(value) + rest;
    ShortText(d, value, rest);
  }

  /** What `AppendHpackIndexed` writes is read back in every context exactly when the index is at most 126. */
  lemma IndexedReadsBack(d: Dictionary, index: nat)
    requires |d.book| == 256 && index <= 127
    ensures (forall rest: seq<byte> :: RepresentationAt(d, IndexedBytes(index) + rest) == Some((Indexed(index), 1)))
      <==> index <= 126
  {
    if index <= 126 {
      forall rest: seq<byte>
        ensures RepresentationAt(d, IndexedBytes(index) + rest) == Some((Indexed(index), 1))
      {
        assert LowBits((IndexedBytes(index) + rest)[0], 127) == index;
      }
    } else {
      var b := IndexedBytes(index) + [];
      assert LowBits(b[0], 127) == 127 && b[1..] == [];
      assert RepresentationAt(d, b) == None;
    }
  }

  /**
    * What `AppendHpackLiteralIndexed` writes is read back in every context exactly when the name index is neither 0,
    * which announces a spelled name, nor 63, which is a prefix, and the value is not 127 long.
    */
  lemma LiteralIndexedReadsBack(d: Dictionary, nameIndex: nat, value: Text)
    requires |d.book| == 256 && nameIndex <= 63 && |value| <= MAXIMUM_LENGTH
    ensures var b := LiteralIndexedBytes(nameIndex, value);
      (forall rest: seq<byte> :: RepresentationAt(d, b + rest) == Some((LiteralIndexed(nameIndex, value), |b|)))
      <==> 1 <= nameIndex <= 62 && |value| <= 126
  {
    var b := LiteralIndexedBytes(nameIndex, value);
    if nameIndex == 0 || nameIndex == 63 {
      EdgeIndex(d, nameIndex, value);
    } else if |value| <= 126 {
      forall rest: seq<byte>
        ensures RepresentationAt(d, b + rest) == Some((LiteralIndexed(nameIndex, value), |b|))
      {
        ShortLiteralIndexed(d, nameIndex, value, rest);
      }
    } else {
      LongLiteralIndexed(d, nameIndex, value);
    }
  }

  lemma EdgeIndex(d: Dictionary, nameIndex: nat, value: Text)
    requires |d.book| == 256 && (nameIndex == 0 || nameIndex == 63) && |value| <= MAXIMUM_LENGTH
    ensures var b := LiteralIndexedBytes(nameIndex, value);
      RepresentationAt(d, b + []) != Some((LiteralIndexed(nameIndex, value), |b|))
  {
    hide TextAt;
    var b := LiteralIndexedBytes(nameIndex, value) + [];
    assert LowBits(b[0], 63) == nameIndex;
    if nameIndex == 63 {
      assert b[1..][0] == |value|;
      assert ReadGroups(b[1..]) == Groups(|value|, 1);
      assert TextAt(d, []) == None by {
        EmptyText(d);
      }
    }
  }

  lemma EmptyText(d: Dictionary)
    requires |d.book| == 256
    ensures TextAt(d, []) == None
  {
  }

  lemma LongLiteralIndexed(d: Dictionary, nameIndex: nat, value: Text)
    requires |d.book| == 256 && 1 <= nameIndex <= 62 && |value| == 127
    ensures RepresentationAt(d, LiteralIndexedBytes(nameIndex, value) + []) == None
  {
    hide TextAt;
    var b := LiteralIndexedBytes(nameIndex, value) + [];
    assert LowBits(b[0], 63) == nameIndex;
    Tail(64 + nameIndex, TextBytes(value), []);
    LongText(d, value, []);
  }

  /** The same for `AppendHpackLiteralNew`: neither string may be 127 long. */
  lemma LiteralNewReadsBack(d: Dictionary, name: Text, value: Text)
    requires |d.book| == 256 && |name| <= MAXIMUM_LENGTH && |value| <= MAXIMUM_LENGTH
    ensures var b := LiteralNewBytes(name, value);
      (forall rest: seq<byte> :: RepresentationAt(d, b + rest) == Some((LiteralNew(name, value), |b|)))
      <==> |name| <= 126 && |value| <= 126
  {
    var b := LiteralNewBytes(name, value);
    if |name| <= 126 && |value| <= 126 {
      forall rest: seq<byte>
        ensures RepresentationAt(d, b + rest) == Some((LiteralNew(name, value), |b|))
      {
        ShortLiteralNew(d, name, value, rest);
      }
    } else {
      LongLiteralNew(d, name, value);
    }
  }

  lemma LongLiteralNew(d: Dictionary, name: Text, value: Text)
    requires |d.book| == 256 && |name| <= MAXIMUM_LENGTH && |value| <= MAXIMUM_LENGTH
    requires |name| == 127 || |value| == 127
    ensures var b := LiteralNewBytes(name, value);
      RepresentationAt(d, b + []) != Some((LiteralNew(name, value), |b|))
  {
    hide TextAt;
    var b := LiteralNewBytes(name, value) + [];
    assert LowBits(b[0], 15) == 0;
    assert b[1..] == TextBytes(name) + (TextBytes(value) + []);
    if |name| == 127 {
      LongNameLeavesNothing(d, name, value);
    } else {
      ShortText(d, name, TextBytes(value) + []);
      assert b[2 + |name|..] == TextBytes(value) + [];
      LongText(d, value, []);
    }
  }

  /** A text of 127 octets could only be read back over itself; then nothing is left to read the value from. */
  lemma LongNameLeavesNothing(d: Dictionary, name: Text, value: Text)
    requires |d.book| == 256 && |name| == 127 && |value| <= MAXIMUM_LENGTH
    ensures var b := TextBytes(name) + (TextBytes(value) + []);
      TextAt(d, b).Some? && TextAt(d, b).value.0 == name ==> TextAt(d, b).value.1 == |b|
  {
    var b := TextBytes(name) + (TextBytes(value) + []);
    assert LowBits(b[0], 127) == 127 && b[0] < 128;
    var r := TextAt(d, b);
    if r.Some? && r.value.0 == name {
      var f := StringFieldAt(b).value;
      var p := f.start - 1;
      ZeroGroups(b[1..]);
      assert forall x :: 0 <= x < 127 ==> b[f.start..f.start + 127][x] == name[x] == b[1 + x];
      assert forall x :: 1 <= x < 128 ==> b[x + p] == b[x];
      var y := Repeats(b, p, 128);
      assert b[y] == b[1..][y - 1];
      assert b[128] == |value|;
    }
  }

  /** A zero written in several octets: ones in every high bit but the last, zeros elsewhere. */
  lemma {:induction false} ZeroGroups(b: seq<byte>)
    requires ReadGroups(b).Groups? && ReadGroups(b).value == 0
    ensures forall i :: 0 <= i < ReadGroups(b).count ==> b[i] == if i < ReadGroups(b).count - 1 then 128 else 0
  {
    if b[0] >= 128 {
      ZeroGroups(b[1..]);
      assert forall i :: 1 <= i < ReadGroups(b).count ==> b[i] == b[1..][i - 1];
    }
  }

  /** In a string that repeats every `p` octets, every octet occurs among the first `p`. */
  lemma {:induction false} Repeats(b: seq<byte>, p: nat, x: nat) returns (y: nat)
    requires 0 < p && 1 <= x <= 128 < |b|
    requires forall y :: 1 <= y && y + p <= 128 ==> b[y + p] == b[y]
    ensures 1 <= y <= p && y < |b| && b[y] == b[x]
  {
    y := x;
    if x > p {
      var z := x - p;
      assert b[z + p] == b[z];
      y := Repeats(b, p, z);
    }
  }

  // ---- The whole block -----------------------------------------------------------------------

  /** Whatever is in the dynamic table, these fields come out. */
  ghost predicate Yields(d: Dictionary, b: seq<byte>, fields: seq<Field>)
    requires d.Valid()
  {
    forall t: Table :: DecodeBlock(d, t, b).fields == Some(fields)
  }

  lemma FirstThenRest(d: Dictionary, bytes: seq<byte>, rep: Representation, f: Field,
                      rest: seq<byte>, fields: seq<Field>)
    requires d.Valid() && bytes != [] && Yields(d, rest, fields)
    requires RepresentationAt(d, bytes + rest) == Some((rep, |bytes|))
    requires forall t: Table :: Perform(d.statics, t, rep).Some? && Perform(d.statics, t, rep).value.fields == [f]
    ensures Yields(d, bytes + rest, [f] + fields)
  {
    hide RepresentationAt, Perform;
    assert (bytes + rest)[|bytes|..] == rest;
    forall t: Table
      ensures DecodeBlock(d, t, bytes + rest).fields == Some([f] + fields)
    {
      var e := Perform(d.statics, t, rep).value;
      assert DecodeBlock(d, Replay(t, e.changes), rest).fields == Some(fields);
    }
  }

  lemma IndexedFirst(d: Dictionary, index: nat, rest: seq<byte>, fields: seq<Field>)
    requires d.Valid() && 0 < index < 62 && Yields(d, rest, fields)
    ensures Yields(d, IndexedBytes(index) + rest, [d.statics[index]] + fields)
  {
    var b := IndexedBytes(index) + rest;
    assert LowBits(b[0], 127) == index;
    FirstThenRest(d, IndexedBytes(index), Indexed(index), d.statics[index], rest, fields);
  }

  lemma LiteralIndexedFirst(d: Dictionary, index: nat, value: Text, rest: seq<byte>, fields: seq<Field>)
    requires d.Valid() && 0 < index < 62 && |value| <= 126 && Yields(d, rest, fields)
    ensures Yields(d, LiteralIndexedBytes(index, value) + rest, [Field(d.statics[index].name, value)] + fields)
  {
    hide RepresentationAt;
    ShortLiteralIndexed(d, index, value, rest);
    FirstThenRest(d, LiteralIndexedBytes(index, value), LiteralIndexed(index, value),
                  Field(d.statics[index].name, value), rest, fields);
  }

  lemma LiteralNewFirst(d: Dictionary, f: Field, rest: seq<byte>, fields: seq<Field>)
    requires d.Valid() && |f.name| <= 126 && |f.value| <= 126 && Yields(d, rest, fields)
    ensures Yields(d, LiteralNewBytes(f.name, f.value) + rest, [f] + fields)
  {
    hide RepresentationAt;
    ShortLiteralNew(d, f.name, f.value, rest);
    FirstThenRest(d, LiteralNewBytes(f.name, f.value), LiteralNew(f.name, f.value), f, rest, fields);
  }

  lemma {:induction false} ExtraYields(d: Dictionary, extra: seq<Field>)
    requires d.Valid() && ExtraFits(extra, 126)
    ensures Yields(d, ExtraBytes(extra), extra)
  {
    if extra != [] {
      ExtraYields(d, extra[1..]);
      LiteralNewFirst(d, extra[0], ExtraBytes(extra[1..]), extra[1..]);
      assert [extra[0]] + extra[1..] == extra;
    }
  }

  lemma StaticEntries(statics: seq<Field>)
    requires statics == StaticTable()
    ensures statics[1].name == Ascii(":authority") && statics[31].name == Ascii("content-type")
    ensures statics[2] == Pair(":method", "GET") && statics[3] == Pair(":method", "POST")
    ensures statics[4] == Pair(":path", "/") && statics[6] == Pair(":scheme", "http")
  {
    hide Ascii;
    assert statics[1] == Statics0()[1] && statics[2] == Statics0()[2] && statics[3] == Statics0()[3];
    assert statics[4] == Statics0()[4] && statics[6] == Statics0()[6] && statics[31] == Statics16()[15];
  }

  function RequestFields(r: Request): seq<Field> {
    [Field(Ascii(":method"), r.verb)] + ([Field(Ascii(":path"), r.path)] + ([Pair(":scheme", "http")] +
    ([Field(Ascii(":authority"), r.authority)] + ([Field(Ascii("content-type"), r.contentType)] + r.extra))))
  }

  /** From any decoder state, a built block decodes to the fields it was built from when no string is 127 long. */
  lemma BuiltBlockDecodes(d: Dictionary, t: Table, r: Request)
    requires d.Valid() && d.statics == StaticTable() && Fits(r, 126)
    ensures DecodeBlock(d, t, BlockBytes(r)).fields == Some(RequestFields(r))
  {
    hide DecodeBlock, StaticTable, Ascii;
    StaticEntries(d.statics);
    ExtraYields(d, r.extra);
    var rest, fields := ExtraBytes(r.extra), r.extra;
    LiteralIndexedFirst(d, 31, r.contentType, rest, fields);
    rest := LiteralIndexedBytes(31, r.contentType) + rest;
    fields := [Field(Ascii("content-type"), r.contentType)] + fields;
    LiteralIndexedFirst(d, 1, r.authority, rest, fields);
    rest, fields := LiteralIndexedBytes(1, r.authority) + rest, [Field(Ascii(":authority"), r.authority)] + fields;
    IndexedFirst(d, 6, rest, fields);
    rest, fields := IndexedBytes(6) + rest, [Pair(":scheme", "http")] + fields;
    PathFirst(d, r.path, rest, fields);
    rest, fields := PathBytes(r.path) + rest, [Field(Ascii(":path"), r.path)] + fields;
    VerbFirst(d, r.verb, rest, fields);
  }

  lemma PathFirst(d: Dictionary, path: Text, rest: seq<byte>, fields: seq<Field>)
    requires d.Valid() && d.statics == StaticTable() && (path == Ascii("/") || |path| <= 126) && Yields(d, rest, fields)
    ensures Yields(d, PathBytes(path) + rest, [Field(Ascii(":path"), path)] + fields)
  {
    hide DecodeBlock, StaticTable, Ascii;
    StaticEntries(d.statics);
    if path == Ascii("/") {
      IndexedFirst(d, 4, rest, fields);
    } else {
      LiteralIndexedFirst(d, 4, path, rest, fields);
    }
  }

  lemma VerbFirst(d: Dictionary, verb: Text, rest: seq<byte>, fields: seq<Field>)
    requires d.Valid() && d.statics == StaticTable() && Yields(d, rest, fields)
    requires verb == Ascii("POST") || verb == Ascii("GET") || |verb| <= 126
    ensures Yields(d, VerbBytes(verb) + rest, [Field(Ascii(":method"), verb)] + fields)
  {
    hide DecodeBlock, StaticTable, Ascii;
    StaticEntries(d.statics);
    if verb == Ascii("POST") {
      IndexedFirst(d, 3, rest, fields);
    } else if verb == Ascii("GET") {
      IndexedFirst(d, 2, rest, fields);
    } else {
      LiteralIndexedFirst(d, 2, verb, rest, fields);
    }
  }

  method AppendVerb(output: seq<byte>, verb: Text) returns (b: Result<seq<byte>, BuildError>)
    ensures b.Ok? <==> verb == Ascii("POST") || verb == Ascii("GET") || |verb| <= MAXIMUM_LENGTH
    ensures if b.Ok? then b.value == output + VerbBytes(verb) else b.error == FieldTooLong
  {
    hide Ascii;
    if verb == Ascii("POST") {
      b := AppendIndexed(output, 3);
    } else if verb == Ascii("GET") {
      b := AppendIndexed(output, 2);
    } else {
      b := AppendLiteralIndexed(output, 2, verb);
    }
  }

  method AppendPath(output: seq<byte>, path: Text) returns (b: Result<seq<byte>, BuildError>)
    ensures b.Ok? <==> path == Ascii("/") || |path| <= MAXIMUM_LENGTH
    ensures if b.Ok? then b.value == output + PathBytes(path) else b.error == FieldTooLong
  {
    hide Ascii;
    if path == Ascii("/") {
      b := AppendIndexed(output, 4);
    } else {
      b := AppendLiteralIndexed(output, 4, path);
    }
  }

  lemma ExtraBytesNext(extra: seq<Field>, i: nat)
    requires ExtraFits(extra, MAXIMUM_LENGTH) && i < |extra|
    ensures ExtraBytes(extra[..i + 1]) == ExtraBytes(extra[..i]) + LiteralNewBytes(extra[i].name, extra[i].value)
  {
    if i == 0 {
      assert extra[..1] == [extra[0]] && extra[..1][1..] == [];
    } else {
      ExtraBytesNext(extra[1..], i - 1);
      assert extra[..i + 1][1..] == extra[1..][..i] && extra[..i][1..] == extra[1..][..i - 1];
    }
  }

  /** The loop over the extra headers. */
  method AppendExtra(output: seq<byte>, extra: seq<Field>) returns (b: Result<seq<byte>, BuildError>)
    ensures b.Ok? <==> ExtraFits(extra, MAXIMUM_LENGTH)
    ensures if b.Ok? then b.value == output + ExtraBytes(extra) else b.error == FieldTooLong
  {
    b := Ok(output);
    assert output + ExtraBytes(extra[..0]) == output;
    var i := 0;
    while i < |extra|
      invariant 0 <= i <= |extra|
      invariant forall j :: 0 <= j < i ==> |extra[j].name| <= MAXIMUM_LENGTH && |extra[j].value| <= MAXIMUM_LENGTH
      invariant b.Ok? && b.value == output + ExtraBytes(extra[..i])
    {
      b := AppendLiteralNew(b.value, extra[i].name, extra[i].value);
      if b.Err? {
        return;
      }
      ExtraBytesNext(extra[..i + 1], i);
      assert extra[..i + 1][..i + 1] == extra[..i + 1] && extra[..i + 1][..i] == extra[..i];
      i := i + 1;
    }
    assert extra[..i] == extra;
  }

  lemma Regroup(a: seq<byte>, b: seq<byte>, c: seq<byte>, d: seq<byte>, e: seq<byte>, f: seq<byte>)
    ensures [] + a + b + c + d + e + f == a + (b + (c + (d + (e + f))))
  {
    assert [] + a == a;
  }

  /** The header block of `BuildHeaders`: every literal string must fit the helpers' limit. */
  method Build(r: Request) returns (b: Result<seq<byte>, BuildError>)
    ensures b.Ok? <==> Fits(r, MAXIMUM_LENGTH)
    ensures if b.Ok? then b.value == BlockBytes(r) else b.error == FieldTooLong
  {
    hide Ascii, ExtraFits, VerbBytes, PathBytes, LiteralIndexedBytes, IndexedBytes;
    b := AppendVerb([], r.verb);
    if b.Err? {
      return;
    }
    b := AppendPath(b.value, r.path);
    if b.Err? {
      return;
    }
    b := AppendIndexed(b.value, 6);
    b := AppendLiteralIndexed(b.value, 1, r.authority);
    if b.Err? {
      return;
    }
    b := AppendLiteralIndexed(b.value, 31, r.contentType);
    if b.Err? {
      return;
    }
    b := AppendExtra(b.value, r.extra);
    if b.Ok? {
      Regroup(VerbBytes(r.verb), PathBytes(r.path), IndexedBytes(6), LiteralIndexedBytes(1, r.authority),
              LiteralIndexedBytes(31, r.contentType), ExtraBytes(r.extra));
    }
  }

  // ---- The other side of the limit -----------------------------------------------------------

  ghost predicate Rejects(d: Dictionary, b: seq<byte>)
    requires d.Valid()
  {
    forall t: Table :: DecodeBlock(d, t, b).fields == None
  }

  lemma RejectsLater(d: Dictionary, bytes: seq<byte>, rep: Representation, rest: seq<byte>)
    requires d.Valid() && bytes != [] && Rejects(d, rest)
    requires RepresentationAt(d, bytes + rest) == Some((rep, |bytes|))
    ensures Rejects(d, bytes + rest)
  {
    hide RepresentationAt, Perform;
    assert (bytes + rest)[|bytes|..] == rest;
    forall t: Table
      ensures DecodeBlock(d, t, bytes + rest).fields == None
    {
      if Perform(d.statics, t, rep).Some? {
        assert DecodeBlock(d, Replay(t, Perform(d.statics, t, rep).value.changes), rest).fields == None;
      }
    }
  }

  lemma IndexedBeforeRejected(d: Dictionary, index: nat, rest: seq<byte>)
    requires d.Valid() && 0 < index < 62 && Rejects(d, rest)
    ensures Rejects(d, IndexedBytes(index) + rest)
  {
    hide DecodeBlock;
    assert LowBits((IndexedBytes(index) + rest)[0], 127) == index;
    RejectsLater(d, IndexedBytes(index), Indexed(index), rest);
  }

  lemma LiteralBeforeRejected(d: Dictionary, index: nat, value: Text, rest: seq<byte>)
    requires d.Valid() && 0 < index < 62 && |value| <= 126 && Rejects(d, rest)
    ensures Rejects(d, LiteralIndexedBytes(index, value) + rest)
  {
    hide DecodeBlock, RepresentationAt;
    ShortLiteralIndexed(d, index, value, rest);
    RejectsLater(d, LiteralIndexedBytes(index, value), LiteralIndexed(index, value), rest);
  }

  /** A content type of 127 octets is accepted by the builder, and the block that it ends is refused in every state. */
  lemma LongContentTypeIsRejected(d: Dictionary, r: Request)
    requires d.Valid() && Fits(r.(contentType := []), 126) && |r.contentType| == 127 && r.extra == []
    ensures Fits(r, MAXIMUM_LENGTH) && Rejects(d, BlockBytes(r))
  {
    hide Ascii, RepresentationAt;
    LongLiteralIndexed(d, 31, r.contentType);
    var rest := LiteralIndexedBytes(31, r.contentType) + ExtraBytes([]);
    assert Rejects(d, rest);
    hide DecodeBlock;
    LiteralBeforeRejected(d, 1, r.authority, rest);
    rest := LiteralIndexedBytes(1, r.authority) + rest;
    IndexedBeforeRejected(d, 6, rest);
    rest := IndexedBytes(6) + rest;
    if r.path == Ascii("/") {
      IndexedBeforeRejected(d, 4, rest);
    } else {
      LiteralBeforeRejected(d, 4, r.path, rest);
    }
    rest := PathBytes(r.path) + rest;
    if r.verb == Ascii("POST") {
      IndexedBeforeRejected(d, 3, rest);
    } else if r.verb == Ascii("GET") {
      IndexedBeforeRejected(d, 2, rest);
    } else {
      LiteralBeforeRejected(d, 2, r.verb, rest);
    }
  }
}
