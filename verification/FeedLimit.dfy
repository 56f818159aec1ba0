/** When `Decoder::Feed` in src/core/hosted/Protocol.cpp refuses part of a legal stream, told from the stream alone. */
module FeedLimit {
  import opened Bytes
  import opened Frames
  import opened PacketFraming
  import opened Decoder

  /** How many of the first `n` octets of a stream of frames lie behind the last whole frame. */
  function Partial(frames: seq<Frame>, n: nat): (left: nat)
    ensures left <= n
  {
    if frames == [] || n < |Encode(frames[0])| then n else Partial(frames[1..], n - |Encode(frames[0])|)
  }

  /** What the start of a stream of frames parses to. */
  lemma HeadOfStream(frames: seq<Frame>, input: seq<byte>)
    requires AllEncodable(frames) && input <= EncodeAll(frames)
    ensures if frames == [] || |input| < |Encode(frames[0])| then ParseFrame(input).Incomplete?
            else
              && ParseFrame(input) == Parsed(frames[0], |Encode(frames[0])|)
              && input[|Encode(frames[0])|..] <= EncodeAll(frames[1..])
  {
    if frames == [] {
      assert input == [];
    } else {
      var first := Encode(frames[0]);
      assert EncodeAll(frames) == first + EncodeAll(frames[1..]);
      if |input| < |first| {
        assert input < first;
        AlmostWhole(frames[0], input);
      } else {
        assert first <= input;
        ParseInvertsEncode(input, frames[0]);
        assert input[|first|..] <= EncodeAll(frames[1..]);
      }
    }
  }

  /** What one turn does to the outer octets: nothing, or it takes the frame at their head. */
  lemma TurnOnOuter(s: State)
    ensures var p := ParseFrame(s.outer);
      match Step(s)
      case Idle(_) => p.Incomplete? && Step(s).next == s
      case Fault(_, _) => true
      case m =>
        || (m.next.outer == s.outer && (|m.next.reassembly.stored| < |s.reassembly.stored| ||
              (m.next.reassembly == s.reassembly && |m.next.inner| < |s.inner|)))
        || (p.Parsed? && m.next.outer == s.outer[p.size..])
  {
    hide ParseFrame, Accept;
  }

  /** A decoder that has drained the start of a stream without an error holds what lies behind the last whole frame. */
  lemma {:induction false} ResidueIsPartial(s: State, frames: seq<Frame>)
    requires AllEncodable(frames) && s.outer <= EncodeAll(frames) && Drain(s).error.None?
    ensures |Drain(s).rest.outer| == Partial(frames, |s.outer|)
    decreases |s.outer|, |s.reassembly.stored|, |s.inner|
  {
    HeadOfStream(frames, s.outer);
    TurnOnOuter(s);
    hide Step, ParseFrame, Encode, EncodeAll;
    match Step(s)
    case Emit(_, t) => ResidueIsPartial(t, if t.outer == s.outer then frames else frames[1..]);
    case Advance(t) => ResidueIsPartial(t, if t.outer == s.outer then frames else frames[1..]);
    case _ =>
  }

  /**
    * On any stream of frames, plain or fragments, that has been decoded so far without an error, `Feed` refuses the
    * next chunk exactly when it and the octets behind the last whole frame exceed one frame of maximum size.
    */
  lemma FeedRefusesExactly(frames: seq<Frame>, b: seq<byte>, chunk: seq<byte>)
    requires AllEncodable(frames) && b + chunk <= EncodeAll(frames) && chunk != []
    requires Drain(Fed(START, b)).error.None?
    ensures Refuses(Drain(Fed(START, b)).rest, chunk) <==> Partial(frames, |b|) + |chunk| > MAXIMUM_ENCODED
  {
    hide Drain, EncodeAll;
    assert b <= b + chunk;
    assert Fed(START, b).outer == b;
    ResidueIsPartial(Fed(START, b), frames);
  }

  /** A drained decoder always has room: a caller that bounds its chunks by that room is never refused. */
  lemma {:induction false} DrainedHasRoom(s: State, bytes: seq<byte>)
    requires Drain(s).error.None?
    ensures |Drain(s).rest.outer| < MAXIMUM_ENCODED
    ensures Refuses(Drain(s).rest, bytes) <==> |bytes| > MAXIMUM_ENCODED - |Drain(s).rest.outer|
    decreases |s.outer|, |s.reassembly.stored|, |s.inner|
  {
    match Step(s)
    case Emit(_, t) => DrainedHasRoom(t, bytes);
    case Advance(t) => DrainedHasRoom(t, bytes);
    case _ =>
  }

  // ---- Plain streams -------------------------------------------------------------------------

  /** The frames that lie whole within the first `n` octets of a stream. */
  function Whole(frames: seq<Frame>, n: nat): (whole: seq<Frame>)
    ensures whole <= frames
  {
    if frames == [] || n < |Encode(frames[0])| then []
    else [frames[0]] + Whole(frames[1..], n - |Encode(frames[0])|)
  }

  /** They and the octets behind them are the input, and the next frame is not whole. */
  lemma {:induction false} WholeAndPartial(frames: seq<Frame>, input: seq<byte>)
    requires input <= EncodeAll(frames)
    ensures EncodeAll(Whole(frames, |input|)) + input[|input| - Partial(frames, |input|)..] == input
    ensures var k := |Whole(frames, |input|)|; k < |frames| ==> Partial(frames, |input|) < |Encode(frames[k])|
  {
    hide Encode;
    if frames != [] && |input| >= |Encode(frames[0])| {
      var first, rest := Encode(frames[0]), input[|Encode(frames[0])|..];
      assert EncodeAll(frames) == first + EncodeAll(frames[1..]);
      assert input == first + rest && rest <= EncodeAll(frames[1..]);
      WholeAndPartial(frames[1..], rest);
      FirstOfAll(frames[0], Whole(frames[1..], |rest|));
      assert input[|input| - Partial(frames, |input|)..] == rest[|rest| - Partial(frames[1..], |rest|)..];
    } else {
      assert input[0..] == input;
      assert frames == [] ==> input == [];
    }
  }

  lemma FirstOfAll(frame: Frame, frames: seq<Frame>)
    ensures EncodeAll([frame] + frames) == Encode(frame) + EncodeAll(frames)
  {
    assert ([frame] + frames)[1..] == frames;
  }

  /**
    * A decoder that is handed any part of a stream of plain frames, from its start, yields exactly the frames that
    * lie whole within it, without an error, and holds the octets behind them.
    */
  lemma {:induction false} PlainStreamYields(frames: seq<Frame>, s: State)
    requires Sendable(frames) && s == START.(outer := s.outer) && s.outer <= EncodeAll(frames)
    ensures var n := |s.outer|;
      Drain(s) == Run(Whole(frames, n), None, START.(outer := s.outer[n - Partial(frames, n)..]))
    decreases |s.outer|
  {
    HeadOfStream(frames, s.outer);
    assert ParseFrame([]).Incomplete?;
    hide ParseFrame, Encode, EncodeAll;
    if ParseFrame(s.outer).Parsed? {
      var rest := s.outer[ParseFrame(s.outer).size..];
      PlainStreamYields(frames[1..], s.(outer := rest));
      var left := Partial(frames[1..], |rest|);
      assert s.outer[|s.outer| - left..] == rest[|rest| - left..];
    } else {
      assert s.outer[0..] == s.outer;
    }
  }

  /** In particular a decoder that is handed a whole stream yields its frames and holds nothing. */
  lemma PlainStreamRoundTrip(frames: seq<Frame>)
    requires Sendable(frames)
    ensures Drain(Fed(START, EncodeAll(frames))) == Run(frames, None, START)
  {
    hide Drain, EncodeAll, Encode;
    var input := EncodeAll(frames);
    assert Fed(START, input).outer == input;
    PlainStreamYields(frames, Fed(START, input));
    AllWhole(frames);
    assert input[|input|..] == [];
  }

  lemma {:induction false} AllWhole(frames: seq<Frame>)
    ensures Whole(frames, |EncodeAll(frames)|) == frames && Partial(frames, |EncodeAll(frames)|) == 0
  {
    hide Encode;
    if frames != [] {
      AllWhole(frames[1..]);
    }
  }

  /** The start of a stream of plain frames never fails to decode. */
  lemma PlainHasNoError(frames: seq<Frame>, s: State)
    requires Sendable(frames) && s == START.(outer := s.outer) && s.outer <= EncodeAll(frames)
    ensures Drain(s).error.None?
  {
    hide Drain;
    PlainStreamYields(frames, s);
  }

  /** The same for plain frames, from the stream and the chunk alone. */
  lemma PlainFeedRefusesExactly(frames: seq<Frame>, b: seq<byte>, chunk: seq<byte>)
    requires Sendable(frames) && b + chunk <= EncodeAll(frames) && chunk != []
    ensures Refuses(Drain(Fed(START, b)).rest, chunk) <==> Partial(frames, |b|) + |chunk| > MAXIMUM_ENCODED
  {
    hide Drain, EncodeAll;
    assert b <= b + chunk;
    assert Fed(START, b).outer == b;
    PlainHasNoError(frames, Fed(START, b));
    FeedRefusesExactly(frames, b, chunk);
  }

  // ---- Chunks of one size --------------------------------------------------------------------

  /** A decoder that reads chunks of `size` octets and drains them refuses chunk `j` of this stream. */
  ghost predicate ChunkRefused(stream: seq<byte>, size: nat, j: nat)
    requires j * size + size <= |stream|
  {
    Refuses(Drain(Fed(START, stream[..j * size])).rest, stream[j * size..j * size + size])
  }

  const LARGEST := Frame(5, seq(MAXIMUM_PAYLOAD, _ => 0))

  /** A small frame and then `n` frames of maximum size. */
  function Large(small: Frame, n: nat): seq<Frame> {
    [small] + seq(n, _ => LARGEST)
  }

  lemma {:induction false} LargestFrames(n: nat)
    ensures Sendable(seq(n, _ => LARGEST)) && |EncodeAll(seq(n, _ => LARGEST))| == n * MAXIMUM_ENCODED
    decreases n
  {
    var frames := seq(n, _ => LARGEST);
    if n > 0 {
      LargestFrames(n - 1);
      assert frames[1..] == seq(n - 1, _ => LARGEST);
      assert EncodeAll(frames) == Encode(LARGEST) + EncodeAll(frames[1..]);
    }
  }

  lemma LargeStream(small: Frame, n: nat)
    requires Sendable([small])
    ensures Sendable(Large(small, n)) && |EncodeAll(Large(small, n))| == |Encode(small)| + n * MAXIMUM_ENCODED
  {
    var frames := Large(small, n);
    LargestFrames(n);
    assert frames[0] == small && frames[1..] == seq(n, _ => LARGEST);
    assert EncodeAll(frames) == Encode(small) + EncodeAll(frames[1..]);
    assert [small][0] == small;
  }

  /** Inside the first frame of maximum size, everything behind the small frame is waiting. */
  lemma LargePartial(small: Frame, n: nat, at: nat)
    requires n > 0 && at < |Encode(small)| + MAXIMUM_ENCODED
    ensures Partial(Large(small, n), at) == if at < |Encode(small)| then at else at - |Encode(small)|
  {
    var frames := Large(small, n);
    assert frames[0] == small && frames[1..] == seq(n, _ => LARGEST) && frames[1..][0] == LARGEST;
    assert |Encode(LARGEST)| == MAXIMUM_ENCODED;
  }

  lemma OneChunk(small: Frame, n: nat, size: nat, j: nat)
    requires Sendable([small]) && n > 0 && 0 < size && j * size + size <= |EncodeAll(Large(small, n))|
    requires j * size < |Encode(small)| + MAXIMUM_ENCODED
    ensures ChunkRefused(EncodeAll(Large(small, n)), size, j) <==>
      (if j * size < |Encode(small)| then 0 else -|Encode(small)|) + j * size + size > MAXIMUM_ENCODED
  {
    hide Drain, EncodeAll, Encode, Large;
    var frames, at := Large(small, n), j * size;
    var stream := EncodeAll(frames);
    LargeStream(small, n);
    LargePartial(small, n, at);
    assert stream[..at] + stream[at..at + size] == stream[..at + size];
    PlainFeedRefusesExactly(frames, stream[..at], stream[at..at + size]);
  }

  lemma OneMore(j: nat, size: nat)
    ensures (j + 1) * size == j * size + size
  {
  }

  lemma {:induction false} Multiples(size: nat, j: nat, k: nat)
    requires j < k
    ensures j * size + size <= k * size
  {
    OneMore(k - 1, size);
    if j < k - 1 {
      Multiples(size, j, k - 1);
    }
  }

  /** Of two numbers in a row, one is no multiple of `size`: the small frame is made to move the stream onto it. */
  lemma Misaligned(size: nat) returns (payload: nat, k: nat)
    requires 2 <= size <= MAXIMUM_ENCODED
    ensures payload <= 1
    ensures HEADER_SIZE + payload <= k * size < HEADER_SIZE + payload + MAXIMUM_ENCODED < k * size + size
  {
    var end := HEADER_SIZE + MAXIMUM_ENCODED;
    k := end / size;
    payload := 0;
    Quotient(end, size);
    if k * size == end {
      payload := 1;
    }
  }

  lemma Quotient(n: nat, size: nat)
    requires size > 0
    ensures n / size * size <= n < n / size * size + size
  {
  }

  /**
    * A caller that reads chunks of one size hits the limit on a legal stream whatever the size, from two octets up: the
    * chunk in which a frame of maximum size ends is refused, and none before it.
    */
  lemma LegalStreamRefused(size: nat) returns (frames: seq<Frame>, k: nat)
    requires size >= 2
    ensures Sendable(frames) && k * size + size <= |EncodeAll(frames)|
    ensures ChunkRefused(EncodeAll(frames), size, k)
    ensures forall j :: 0 <= j < k ==>
      j * size + size <= |EncodeAll(frames)| && !ChunkRefused(EncodeAll(frames), size, j)
  {
    if size <= MAXIMUM_ENCODED {
      frames, k := UsualChunks(size);
    } else {
      frames, k := Large(Frame(5, []), size), 0;
      LongEnough(size);
      LargeStream(Frame(5, []), size);
      hide EncodeAll, Encode, ChunkRefused, Large;
      OneChunk(Frame(5, []), size, size, 0);
    }
  }

  lemma UsualChunks(size: nat) returns (frames: seq<Frame>, k: nat)
    requires 2 <= size <= MAXIMUM_ENCODED
    ensures Sendable(frames) && k * size + size <= |EncodeAll(frames)|
    ensures ChunkRefused(EncodeAll(frames), size, k)
    ensures forall j :: 0 <= j < k ==>
      j * size + size <= |EncodeAll(frames)| && !ChunkRefused(EncodeAll(frames), size, j)
  {
    var payload: nat;
    payload, k := Misaligned(size);
    var small := Frame(5, seq(payload, _ => 0));
    assert Sendable([small]) && |Encode(small)| == HEADER_SIZE + payload;
    frames := Large(small, 2);
    LargeStream(small, 2);
    hide EncodeAll, Encode, ChunkRefused, Large;
    OneChunk(small, 2, size, k);
    forall j | 0 <= j < k
      ensures j * size + size <= |EncodeAll(frames)| && !ChunkRefused(EncodeAll(frames), size, j)
    {
      EarlierChunk(small, size, j, k);
    }
  }

  lemma EarlierChunk(small: Frame, size: nat, j: nat, k: nat)
    requires Sendable([small]) && |Encode(small)| <= HEADER_SIZE + 1 && j < k && 2 <= size <= MAXIMUM_ENCODED
    requires k * size < |Encode(small)| + MAXIMUM_ENCODED
    ensures j * size + size <= |EncodeAll(Large(small, 2))| && !ChunkRefused(EncodeAll(Large(small, 2)), size, j)
  {
    LargeStream(small, 2);
    hide EncodeAll, Encode, ChunkRefused, Large;
    Multiples(size, j, k);
    if j > 0 {
      Multiples(size, 0, j);
    }
    OneChunk(small, 2, size, j);
  }

  lemma LongEnough(size: nat)
    ensures size <= size * MAXIMUM_ENCODED
  {
  }

  /** Octet by octet nothing is ever refused: a drained decoder has room for one more. */
  lemma OctetsAreNeverRefused(frames: seq<Frame>, j: nat)
    requires Sendable(frames) && j * 1 + 1 <= |EncodeAll(frames)|
    ensures !ChunkRefused(EncodeAll(frames), 1, j)
  {
    hide EncodeAll;
    var stream := EncodeAll(frames);
    assert Fed(START, stream[..j]).outer == stream[..j];
    PlainHasNoError(frames, Fed(START, stream[..j]));
    DrainedHasRoom(Fed(START, stream[..j]), stream[j..j + 1]);
  }

  /** The reads of the relay stream, 64 KiB, and of the blocking reader, 16 KiB. */
  lemma RelayReadsRefused() returns (stream: seq<Frame>, i: nat, blocking: seq<Frame>, j: nat)
    ensures Sendable(stream) && i * 65536 + 65536 <= |EncodeAll(stream)| && ChunkRefused(EncodeAll(stream), 65536, i)
    ensures Sendable(blocking) && j * 16384 + 16384 <= |EncodeAll(blocking)|
    ensures ChunkRefused(EncodeAll(blocking), 16384, j)
  {
    hide EncodeAll, ChunkRefused;
    stream, i := LegalStreamRefused(65536);
    blocking, j := LegalStreamRefused(16384);
  }
}
