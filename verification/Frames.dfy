/**
  * The relay frame format of src/core/hosted/Protocol.cpp: a twelve-octet header (magic, type, flags,
  * payload size) followed by the payload.
  */
module Frames {
  import opened Bytes

  const HEADER_SIZE := 12
  const MAXIMUM_PAYLOAD := 1024 * 1024
  const MAXIMUM_ENCODED := HEADER_SIZE + MAXIMUM_PAYLOAD
  const FRAGMENT := 23
  const LAST_KIND := 26

  /** `std::vector<std::uint8_t>::max_size()`. */
  const MAXIMUM_VECTOR := 0x7fff_ffff_ffff_ffff

  type Kind = k: int | 0 <= k < 65536

  datatype Frame = Frame(kind: Kind, payload: seq<byte>)

  datatype FrameError = BadMagic | UnknownType | UnsupportedFlags | PayloadTooLarge | BatchTooLarge

  datatype Parse = Incomplete | Malformed(error: FrameError) | Parsed(frame: Frame, size: nat)

  function Magic(): seq<byte> {
    [0x54, 0x47, 0x52, 0x31]
  }

  predicate IsKnownType(kind: int) {
    1 <= kind <= LAST_KIND
  }

  predicate Encodable(frame: Frame) {
    IsKnownType(frame.kind) && |frame.payload| <= MAXIMUM_PAYLOAD
  }

  predicate AllEncodable(frames: seq<Frame>) {
    forall i :: 0 <= i < |frames| ==> Encodable(frames[i])
  }

  /** Frames that can be sent: fragments are made by the transport, not by its users. */
  predicate Sendable(frames: seq<Frame>) {
    AllEncodable(frames) && forall i :: 0 <= i < |frames| ==> frames[i].kind != FRAGMENT
  }

  function EncodedSize(frame: Frame): Result<nat, FrameError> {
    if |frame.payload| > MAXIMUM_PAYLOAD then Err(PayloadTooLarge)
    else if !IsKnownType(frame.kind) then Err(UnknownType)
    else Ok(HEADER_SIZE + |frame.payload|)
  }

  function Header(kind: Kind, size: nat): (h: seq<byte>)
    ensures |h| == HEADER_SIZE
  {
    Magic() + BigEndian(kind, 2) + BigEndian(0, 2) + BigEndian(size, 4)
  }

  function Encode(frame: Frame): (b: seq<byte>)
    ensures |b| == HEADER_SIZE + |frame.payload|
  {
    Header(frame.kind, |frame.payload|) + frame.payload
  }

  function EncodeAll(frames: seq<Frame>): seq<byte> {
    if frames == [] then [] else Encode(frames[0]) + EncodeAll(frames[1..])
  }

  lemma {:induction false} EncodeAllAppend(a: seq<Frame>, b: seq<Frame>)
    ensures EncodeAll(a + b) == EncodeAll(a) + EncodeAll(b)
  {
    if a == [] {
      assert a + b == b;
    } else {
      assert (a + b)[1..] == a[1..] + b;
      EncodeAllAppend(a[1..], b);
    }
  }

  method AppendTo(frame: Frame, output: seq<byte>) returns (extended: seq<byte>)
    ensures extended == output + Encode(frame)
  {
    extended := output + Magic();
    extended := AppendBigEndian(extended, frame.kind, 2);
    extended := AppendBigEndian(extended, 0, 2);
    extended := AppendBigEndian(extended, |frame.payload|, 4);
    extended := extended + frame.payload;
    assert extended == output + Encode(frame);
  }

  lemma EncodeAllNext(frames: seq<Frame>, i: nat)
    requires i < |frames|
    ensures EncodeAll(frames[..i + 1]) == EncodeAll(frames[..i]) + Encode(frames[i])
    ensures |EncodeAll(frames[..i + 1])| <= |EncodeAll(frames)|
  {
    assert frames[..i + 1] == frames[..i] + [frames[i]];
    EncodeAllAppend(frames[..i], [frames[i]]);
    assert EncodeAll([frames[i]]) == Encode(frames[i]) + EncodeAll([]);
    assert frames == frames[..i + 1] + frames[i + 1..];
    EncodeAllAppend(frames[..i + 1], frames[i + 1..]);
  }

  /** The whole batch is validated before anything is written. */
  method EncodeBatch(frames: seq<Frame>) returns (r: Result<seq<byte>, FrameError>)
    ensures r.Ok? <==> AllEncodable(frames) && |EncodeAll(frames)| <= MAXIMUM_VECTOR
    ensures r.Ok? ==> r.value == EncodeAll(frames)
    ensures r.Err? ==>
      if r.error == BatchTooLarge then |EncodeAll(frames)| > MAXIMUM_VECTOR
      else exists i :: 0 <= i < |frames| && EncodedSize(frames[i]) == Err(r.error)
  {
    var size := 0;
    var i := 0;
    while i < |frames|
      invariant 0 <= i <= |frames|
      invariant forall j :: 0 <= j < i ==> Encodable(frames[j])
      invariant size == |EncodeAll(frames[..i])| <= MAXIMUM_VECTOR
    {
      EncodeAllNext(frames, i);
      var frameSize := EncodedSize(frames[i]);
      if frameSize.Err? {
        assert !Encodable(frames[i]);
        return Err(frameSize.error);
      }
      if frameSize.value > MAXIMUM_VECTOR - size {
        return Err(BatchTooLarge);
      }
      size := size + frameSize.value;
      i := i + 1;
    }
    var output: seq<byte> := [];
    i := 0;
    while i < |frames|
      invariant 0 <= i <= |frames|
      invariant output == EncodeAll(frames[..i])
    {
      EncodeAllNext(frames, i);
      output := AppendTo(frames[i], output);
      i := i + 1;
    }
    assert frames[..|frames|] == frames;
    return Ok(output);
  }

  /** `NextFrame` on the unread part of a buffer. */
  function ParseFrame(input: seq<byte>): (r: Parse)
    ensures r.Parsed? ==> HEADER_SIZE <= r.size <= |input|
  {
    if |input| < HEADER_SIZE then Incomplete
    else if input[..4] != Magic() then Malformed(BadMagic)
    else if !IsKnownType(FromBigEndian(input[4..6])) then Malformed(UnknownType)
    else if FromBigEndian(input[6..8]) != 0 then Malformed(UnsupportedFlags)
    else
      var size := FromBigEndian(input[8..12]);
      if size > MAXIMUM_PAYLOAD then Malformed(PayloadTooLarge)
      else if |input| < HEADER_SIZE + size then Incomplete
      else Parsed(Frame(FromBigEndian(input[4..6]), input[HEADER_SIZE..HEADER_SIZE + size]), HEADER_SIZE + size)
  }

  /** A frame is read exactly when the input starts with its encoding. */
  lemma ParseReadsEncodings(input: seq<byte>, frame: Frame)
    ensures ParseFrame(input) == Parsed(frame, |Encode(frame)|)
       <==> Encodable(frame) && Encode(frame) <= input
    ensures ParseFrame(input).Parsed? ==> ParseFrame(input).size == |Encode(ParseFrame(input).frame)|
  {
    if Encodable(frame) && Encode(frame) <= input {
      ParseInvertsEncode(input, frame);
    }
    if ParseFrame(input).Parsed? {
      ParseIsCanonical(input);
    }
  }

  lemma HeaderLayout(kind: Kind, size: nat)
    ensures var h := Header(kind, size);
      h[..4] == Magic() && h[4..6] == BigEndian(kind, 2) && h[6..8] == BigEndian(0, 2) && h[8..12] == BigEndian(size, 4)
  {
  }

  /** The slices that the parser reads from an input that starts with an encoding. */
  lemma {:induction false} EncodingLayout(input: seq<byte>, frame: Frame)
    requires Encode(frame) <= input
    ensures var n := |frame.payload|;
      && |Encode(frame)| == HEADER_SIZE + n <= |input|
      && input[..4] == Magic() && input[4..6] == BigEndian(frame.kind, 2) && input[6..8] == BigEndian(0, 2)
      && input[8..12] == BigEndian(n, 4) && input[HEADER_SIZE..HEADER_SIZE + n] == frame.payload
  {
    var n := |frame.payload|;
    var h := Header(frame.kind, n);
    HeaderLayout(frame.kind, n);
    hide Header, BigEndian;
    assert input[..12] == Encode(frame)[..12] == h;
    assert input[..4] == h[..4] && input[4..6] == h[4..6] && input[6..8] == h[6..8] && input[8..12] == h[8..12];
    assert input[12..12 + n] == Encode(frame)[12..12 + n] == frame.payload;
  }

  lemma {:induction false} ParseInvertsEncode(input: seq<byte>, frame: Frame)
    requires Encodable(frame) && Encode(frame) <= input
    ensures ParseFrame(input) == Parsed(frame, |Encode(frame)|)
  {
    EncodingLayout(input, frame);
    assert Power256(2) == 65536 && Power256(4) == 4294967296;
    ReadAppended(frame.kind, 2);
    ReadAppended(0, 2);
    ReadAppended(|frame.payload|, 4);
    hide Encode, BigEndian, FromBigEndian, Power256;
  }

  lemma ParseIsCanonical(input: seq<byte>)
    requires ParseFrame(input).Parsed?
    ensures var p := ParseFrame(input);
      Encodable(p.frame) && p.size == |Encode(p.frame)| && Encode(p.frame) <= input
  {
    var p := ParseFrame(input);
    var e := Encode(p.frame);
    AppendRead(input[4..6]);
    AppendRead(input[6..8]);
    AppendRead(input[8..12]);
    assert e == input[..4] + input[4..6] + input[6..8] + input[8..12] + input[12..p.size];
    assert e == input[..p.size];
  }

  /** A verdict other than `Incomplete` is final: more input never changes it. */
  lemma ParseIsStable(input: seq<byte>, more: seq<byte>)
    requires !ParseFrame(input).Incomplete?
    ensures ParseFrame(input + more) == ParseFrame(input)
  {
    var all := input + more;
    assert all[..4] == input[..4] && all[4..6] == input[4..6];
    assert all[6..8] == input[6..8] && all[8..12] == input[8..12];
    if ParseFrame(input).Parsed? {
      var n := ParseFrame(input).size;
      assert all[HEADER_SIZE..n] == input[HEADER_SIZE..n];
    }
  }

  /** An incomplete frame is always shorter than the largest frame. */
  lemma IncompleteIsShort(input: seq<byte>)
    requires ParseFrame(input).Incomplete?
    ensures |input| < MAXIMUM_ENCODED
  {
  }

  /** The rest of a frame whose header is complete: any payload of the announced size that starts as the input does. */
  lemma Completion(input: seq<byte>) returns (frame: Frame)
    requires |input| >= HEADER_SIZE && ParseFrame(input).Incomplete?
    ensures Encodable(frame) && input < Encode(frame)
  {
    var size := FromBigEndian(input[8..12]);
    frame := Frame(FromBigEndian(input[4..6]), input[12..] + seq(HEADER_SIZE + size - |input|, _ => 0));
    AppendRead(input[4..6]);
    AppendRead(input[6..8]);
    AppendRead(input[8..12]);
    hide BigEndian, FromBigEndian;
    var h := Header(frame.kind, size);
    assert h == input[..4] + input[4..6] + input[6..8] + input[8..12] == input[..12];
    assert input == h + input[12..];
  }

  /** A proper start of an encoding is never refused and never taken for a frame. */
  lemma AlmostWhole(frame: Frame, input: seq<byte>)
    requires Encodable(frame) && input < Encode(frame)
    ensures ParseFrame(input).Incomplete?
  {
    var rest := Encode(frame)[|input|..];
    assert input + rest == Encode(frame);
    ParseInvertsEncode(Encode(frame), frame);
    if !ParseFrame(input).Incomplete? {
      ParseIsStable(input, rest);
    }
  }

  /** So twelve octets or more are refused exactly when no frame starts with them or is the start of them. */
  lemma RefusedExactly(input: seq<byte>)
    ensures ParseFrame(input).Incomplete? <==>
      |input| < HEADER_SIZE || exists frame :: Encodable(frame) && input < Encode(frame)
    ensures ParseFrame(input).Malformed? <==>
      && |input| >= HEADER_SIZE
      && forall frame :: Encodable(frame) ==> !(input < Encode(frame)) && !(Encode(frame) <= input)
  {
    if |input| >= HEADER_SIZE && ParseFrame(input).Incomplete? {
      var frame := Completion(input);
    }
    if ParseFrame(input).Parsed? {
      ParseIsCanonical(input);
    }
    forall frame | Encodable(frame) && input < Encode(frame)
      ensures ParseFrame(input).Incomplete?
    {
      AlmostWhole(frame, input);
    }
    forall frame | Encodable(frame) && Encode(frame) <= input
      ensures ParseFrame(input).Parsed?
    {
      ParseInvertsEncode(input, frame);
    }
  }
}
