/**
  * The relay decoder of src/core/hosted/Protocol.cpp: outer frames are parsed from the fed bytes, fragments among
  * them are reassembled, and inner frames are parsed from the reassembled stream.
  */
module Decoder {
  import opened Bytes
  import opened Frames
  import opened PacketFraming

  const COMPACT_THRESHOLD := 64 * 1024
  const MAXIMUM_FRAGMENT := MAXIMUM_PAYLOAD - OFFSET_SIZE

  datatype DecodeError = BadFrame(frame: FrameError) | BadFragment(fragment: FramingError) | BufferLimit

  /** Unread outer bytes, the reassembly window, unread inner bytes, and whether a fragment was ever seen. */
  datatype State = State(outer: seq<byte>, reassembly: Reassembly, inner: seq<byte>, fragmented: bool)

  /** One turn of the loop in `Next`. */
  datatype Move =
    | Emit(frame: Frame, next: State)
    | Advance(next: State)
    | Idle(next: State)
    | Fault(error: DecodeError, next: State)

  const START := State([], Reassembly(0, map[]), [], false)

  function Fed(s: State, bytes: seq<byte>): State {
    s.(outer := s.outer + bytes)
  }

  /** Whether `Feed` throws: unread and new bytes together would exceed one maximum-size frame. */
  predicate Refuses(s: State, bytes: seq<byte>) {
    bytes != [] && |s.outer| + |bytes| > MAXIMUM_ENCODED
  }

  ghost function Step(s: State): Move {
    match ParseFrame(s.inner)
    case Malformed(e) => Fault(BadFrame(e), s)
    case Parsed(f, n) =>
      if f.kind == FRAGMENT then Fault(BadFragment(NestedFragment), s.(inner := s.inner[n..]))
      else Emit(f, s.(inner := s.inner[n..]))
    case Incomplete =>
      if CanTake(s.reassembly) then
        Advance(s.(reassembly := Take(s.reassembly), inner := s.inner + s.reassembly.stored[s.reassembly.at]))
      else OuterStep(s)
  }

  ghost function OuterStep(s: State): Move {
    match ParseFrame(s.outer)
    case Malformed(e) => Fault(BadFrame(e), s)
    case Incomplete => Idle(s)
    case Parsed(f, n) =>
      var t := s.(outer := s.outer[n..]);
      if f.kind == FRAGMENT then
        match Accept(s.reassembly, f.payload)
        case Rejected(e) => Fault(BadFragment(e), t.(fragmented := true))
        case Accepted(r) => Advance(t.(fragmented := true, reassembly := r))
      else if s.fragmented then Fault(BadFragment(MixedFraming), t)
      else Emit(f, t)
  }

  /** The whole of `Next`: silent turns until a frame, an error or the end of the input. */
  ghost function Next(s: State): (m: Move)
    ensures !m.Advance?
    decreases |s.outer|, |s.reassembly.stored|
  {
    match Step(s)
    case Advance(t) => Next(t)
    case m => m
  }

  /** The measure of `Next`: unread outer bytes first, stored fragments second. */
  lemma AdvanceShrinks(s: State)
    requires Step(s).Advance?
    ensures var t := Step(s).next;
      |t.outer| < |s.outer| || (|t.outer| == |s.outer| && |t.reassembly.stored| < |s.reassembly.stored|)
  {
  }

  /** A decoder that found nothing finds nothing again. */
  lemma {:induction false} IdleStays(s: State)
    ensures Next(s).Idle? ==> Step(Next(s).next) == Next(s) && Next(Next(s).next) == Next(s)
    decreases |s.outer|, |s.reassembly.stored|
  {
    match Step(s)
    case Advance(t) => IdleStays(t);
    case _ =>
  }

  /** Everything a decoder yields when `Next` is called until it stops. */
  datatype Run = Run(frames: seq<Frame>, error: Option<DecodeError>, rest: State)

  ghost function Drain(s: State): Run
    decreases |s.outer|, |s.reassembly.stored|, |s.inner|
  {
    match Step(s)
    case Emit(f, t) => Yield([f], Drain(t))
    case Advance(t) => Drain(t)
    case Idle(t) => Run([], None, t)
    case Fault(e, t) => Run([], Some(e), t)
  }

  function Yield(frames: seq<Frame>, run: Run): Run {
    run.(frames := frames + run.frames)
  }

  // ---- Chunking independence -----------------------------------------------------------------

  /** Bytes that arrive later do not disturb a turn that was already possible. */
  lemma StepIsStable(s: State, more: seq<byte>)
    requires !Step(s).Idle?
    ensures Step(Fed(s, more)) == Step(s).(next := Fed(Step(s).next, more))
  {
    if ParseFrame(s.inner).Incomplete? && !CanTake(s.reassembly) {
      ParseIsStable(s.outer, more);
      match ParseFrame(s.outer)
      case Parsed(_, n) => assert (s.outer + more)[n..] == s.outer[n..] + more;
      case _ =>
    }
  }

  /** A finished run resumed with more bytes; an error stays the last word. */
  ghost function Resume(run: Run, more: seq<byte>): Run {
    if run.error.None? then Yield(run.frames, Drain(Fed(run.rest, more)))
    else run.(rest := Fed(run.rest, more))
  }

  lemma ResumeYield(frames: seq<Frame>, run: Run, more: seq<byte>)
    ensures Resume(Yield(frames, run), more) == Yield(frames, Resume(run, more))
  {
    if run.error.None? {
      var later := Drain(Fed(run.rest, more));
      assert frames + (run.frames + later.frames) == frames + run.frames + later.frames;
    }
  }

  /** Feeding late is feeding early. */
  lemma {:induction false} DrainExtends(s: State, more: seq<byte>)
    ensures Drain(Fed(s, more)) == Resume(Drain(s), more)
    decreases |s.outer|, |s.reassembly.stored|, |s.inner|
  {
    match Step(s)
    case Emit(f, t) =>
      StepIsStable(s, more);
      DrainExtends(t, more);
      ResumeYield([f], Drain(t), more);
    case Advance(t) =>
      StepIsStable(s, more);
      DrainExtends(t, more);
    case Idle(t) =>
      var later := Drain(Fed(s, more));
      assert [] + later.frames == later.frames;
    case Fault(e, t) =>
      StepIsStable(s, more);
  }

  /** A decoder fed one chunk at a time and drained after each. */
  ghost function DrainChunks(s: State, chunks: seq<seq<byte>>): Run
    decreases |chunks|
  {
    if chunks == [] then Drain(s)
    else
      var run := Drain(s);
      if run.error.Some? then run else Yield(run.frames, DrainChunks(Fed(run.rest, chunks[0]), chunks[1..]))
  }

  /** Only the bytes matter, not how they were split: same frames, same error, and same leftover when there is none. */
  lemma {:induction false} ChunkingIndependence(s: State, chunks: seq<seq<byte>>)
    ensures var split, whole := DrainChunks(s, chunks), Drain(Fed(s, Flatten(chunks)));
      && split.frames == whole.frames
      && split.error == whole.error
      && (split.error.None? ==> split.rest == whole.rest)
    decreases |chunks|
  {
    DrainExtends(s, Flatten(chunks));
    var run := Drain(s);
    if chunks == [] {
      assert Fed(s, []) == s;
    } else if run.error.None? {
      ChunkingIndependence(Fed(run.rest, chunks[0]), chunks[1..]);
      assert Fed(Fed(run.rest, chunks[0]), Flatten(chunks[1..])) == Fed(run.rest, Flatten(chunks)) by {
        assert run.rest.outer + chunks[0] + Flatten(chunks[1..]) == run.rest.outer + Flatten(chunks);
      }
    }
  }

  /** A decoder's history: the bytes fed so far and the frames returned so far, with `Next` called at any time. */
  ghost predicate Faithful(input: seq<byte>, output: seq<Frame>, s: State) {
    Drain(Fed(START, input)) == Yield(output, Drain(s))
  }

  lemma StartIsFaithful()
    ensures Faithful([], [], START)
  {
    assert Fed(START, []) == START;
    assert [] + Drain(START).frames == Drain(START).frames;
  }

  lemma FeedIsFaithful(input: seq<byte>, output: seq<Frame>, s: State, more: seq<byte>)
    requires Faithful(input, output, s)
    ensures Faithful(input + more, output, Fed(s, more))
  {
    DrainExtends(Fed(START, input), more);
    DrainExtends(s, more);
    ResumeYield(output, Drain(s), more);
    assert Fed(Fed(START, input), more) == Fed(START, input + more);
  }

  lemma {:induction false} NextIsFaithful(input: seq<byte>, output: seq<Frame>, s: State)
    requires Faithful(input, output, s)
    ensures match Next(s)
      case Emit(f, t) => Faithful(input, output + [f], t)
      case Idle(t) => Faithful(input, output, t) && Drain(Fed(START, input)) == Run(output, None, t)
      case Fault(e, t) => Drain(Fed(START, input)) == Run(output, Some(e), t)
    decreases |s.outer|, |s.reassembly.stored|
  {
    match Step(s)
    case Emit(f, t) =>
      assert output + ([f] + Drain(t).frames) == output + [f] + Drain(t).frames;
    case Advance(t) => NextIsFaithful(input, output, t);
    case Idle(t) => assert output + [] == output;
    case Fault(_, _) => assert output + [] == output;
  }

  // ---- Fragmented streams --------------------------------------------------------------------

  /**
    * Once a fragment was seen, a returned frame is paid for entirely by inner bytes: the ones already buffered and
    * the ones the read offset moved past. A plain outer frame would leave both unchanged.
    */
  lemma {:induction false} FragmentedFramesAreInner(s: State)
    requires s.fragmented
    ensures Next(s).next.fragmented
    ensures Next(s).Emit? ==>
      && |Encode(Next(s).frame)| + |Next(s).next.inner| == |s.inner| + Next(s).next.reassembly.at - s.reassembly.at
      && Next(s).frame.kind != FRAGMENT
    decreases |s.outer|, |s.reassembly.stored|
  {
    match Step(s)
    case Emit(f, t) => ParseIsCanonical(s.inner);
    case Advance(t) => FragmentedFramesAreInner(t);
    case _ =>
  }

  /** A fragment inside the reassembled stream, or behind it a plain frame among fragments, ends the decoding. */
  lemma MixedStreamsFail(s: State, frame: Frame, rest: seq<byte>)
    requires Encodable(frame)
    ensures frame.kind == FRAGMENT && s.inner == Encode(frame) + rest ==>
      Drain(s).frames == [] && Drain(s).error == Some(BadFragment(NestedFragment))
    ensures frame.kind != FRAGMENT && s.fragmented && s.outer == [] && Step(s).Idle? ==>
      var run := Drain(Fed(s, Encode(frame) + rest));
      run.frames == [] && run.error == Some(BadFragment(MixedFraming)) && run.rest.outer == rest
  {
    var b := Encode(frame) + rest;
    ParseInvertsEncode(b, frame);
    hide ParseFrame, Encode;
    assert b[|Encode(frame)|..] == rest;
    assert [] + b == b;
  }

  /** So do twelve octets that no frame starts with, wherever the decoder meets them. */
  lemma BadHeaderFails(s: State)
    requires |s.outer| >= HEADER_SIZE && ParseFrame(s.inner).Incomplete? && !CanTake(s.reassembly)
    requires forall frame :: Encodable(frame) ==> !(s.outer < Encode(frame)) && !(Encode(frame) <= s.outer)
    ensures Drain(s).frames == [] && Drain(s).error.Some? && Drain(s).error.value.BadFrame? && Drain(s).rest == s
  {
    RefusedExactly(s.outer);
    hide ParseFrame, Encode;
  }

  // ---- The decoder object --------------------------------------------------------------------

  /** What a turn hands back to the caller. */
  function Answer(m: Move): Result<Option<Frame>, DecodeError> {
    match m
    case Fault(e, _) => Err(e)
    case Emit(f, _) => Ok(Some(f))
    case _ => Ok(None)
  }

  class FrameDecoder {
    var buffer: seq<byte>
    var offset: nat
    const fragments: PacketReassembler
    var streamBuffer: seq<byte>
    var streamOffset: nat
    var fragmented: bool

    /** Every buffer stays under a fixed size. */
    ghost predicate Valid()
      reads this, fragments
    {
      && offset <= |buffer| < COMPACT_THRESHOLD + MAXIMUM_ENCODED
      && streamOffset <= |streamBuffer| < MAXIMUM_ENCODED + MAXIMUM_FRAGMENT
      && |buffer| - offset <= MAXIMUM_ENCODED
      && fragments.Valid()
      && (forall k :: k in fragments.fragments ==> |fragments.fragments[k]| <= MAXIMUM_FRAGMENT)
    }

    ghost function Value(): State
      requires offset <= |buffer| && streamOffset <= |streamBuffer|
      reads this, fragments
    {
      State(buffer[offset..], fragments.State(), streamBuffer[streamOffset..], fragmented)
    }

    constructor ()
      ensures Valid() && Value() == START && fresh(fragments)
      ensures Faithful([], [], Value())
    {
      buffer, offset, streamBuffer, streamOffset, fragmented := [], 0, [], 0, false;
      fragments := new PacketReassembler();
      StartIsFaithful();
    }

    /** Consumed bytes are dropped once there are enough of them; the value of the decoder never notices. */
    method Feed(data: seq<byte>) returns (failed: Option<DecodeError>)
      requires Valid()
      modifies this
      ensures Valid()
      ensures failed == if Refuses(old(Value()), data) then Some(BufferLimit) else None
      ensures Value() == if failed.None? then Fed(old(Value()), data) else old(Value())
    {
      if data == [] {
        assert buffer[offset..] + data == buffer[offset..];
        return None;
      }
      ghost var unread := buffer[offset..];
      if offset != 0 && (offset >= COMPACT_THRESHOLD || offset == |buffer|) {
        buffer := buffer[offset..];
        offset := 0;
      }
      assert buffer[offset..] == unread;
      if |data| > MAXIMUM_ENCODED || |buffer| - offset > MAXIMUM_ENCODED - |data| {
        return Some(BufferLimit);
      }
      buffer := buffer + data;
      assert buffer[offset..] == unread + data;
      return None;
    }

    /** `Next`. */
    method TakeFrame() returns (r: Result<Option<Frame>, DecodeError>)
      requires Valid()
      modifies this, fragments
      ensures Valid()
      ensures Value() == Next(old(Value())).next
      ensures r == Answer(Next(old(Value())))
    {
      while true
        invariant Valid()
        invariant Next(Value()) == Next(old(Value()))
        decreases |Value().outer|, |Value().reassembly.stored|
      {
        ghost var s := Value();
        if Step(s).Advance? {
          AdvanceShrinks(s);
        }
        var done: bool;
        r, done := Turn();
        if done {
          return;
        }
      }
    }

    /** One turn of the loop of `Next`: inner frames first, then the reassembled stream, then outer frames. */
    method Turn() returns (r: Result<Option<Frame>, DecodeError>, done: bool)
      requires Valid()
      modifies this, fragments
      ensures Valid()
      ensures Value() == Step(old(Value())).next
      ensures done == !Step(old(Value())).Advance?
      ensures r == Answer(Step(old(Value())))
    {
      ghost var s := Value();
      var inner := ParseFrame(streamBuffer[streamOffset..]);
      if inner.Malformed? {
        return Err(BadFrame(inner.error)), true;
      }
      if inner.Parsed? {
        streamOffset := streamOffset + inner.size;
        assert Value().inner == s.inner[inner.size..];
        if inner.frame.kind == FRAGMENT {
          return Err(BadFragment(NestedFragment)), true;
        }
        return Ok(Some(inner.frame)), true;
      }
      r, done := StreamTurn();
    }

    method StreamTurn() returns (r: Result<Option<Frame>, DecodeError>, done: bool)
      requires Valid() && ParseFrame(Value().inner).Incomplete?
      modifies this, fragments
      ensures Valid()
      ensures Value() == Step(old(Value())).next
      ensures done == !Step(old(Value())).Advance?
      ensures r == Answer(Step(old(Value())))
    {
      hide ParseFrame, OuterStep, Accept, Consistent, Total, Disjoint;
      ghost var s := Value();
      IncompleteIsShort(s.inner);
      var bytes := fragments.TakeNext();
      if bytes != [] {
        streamBuffer := streamBuffer[streamOffset..] + bytes;
        streamOffset := 0;
        assert streamBuffer[streamOffset..] == s.inner + bytes;
        return Ok(None), false;
      }
      assert Value() == s;
      r, done := OuterTurn();
    }

    method OuterTurn() returns (r: Result<Option<Frame>, DecodeError>, done: bool)
      requires Valid()
      modifies this, fragments
      ensures Valid()
      ensures Value() == OuterStep(old(Value())).next
      ensures done == !OuterStep(old(Value())).Advance?
      ensures r == Answer(OuterStep(old(Value())))
    {
      ghost var s := Value();
      var outer := ParseFrame(buffer[offset..]);
      if outer.Malformed? {
        return Err(BadFrame(outer.error)), true;
      }
      if outer.Incomplete? {
        return Ok(None), true;
      }
      offset := offset + outer.size;
      assert Value().outer == s.outer[outer.size..];
      if outer.frame.kind != FRAGMENT {
        if fragmented {
          return Err(BadFragment(MixedFraming)), true;
        }
        return Ok(Some(outer.frame)), true;
      }
      fragmented := true;
      var rejected := fragments.Store(outer.frame.payload);
      if rejected.Some? {
        return Err(BadFragment(rejected.value)), true;
      }
      return Ok(None), false;
    }

    method BufferedBytes() returns (n: nat)
      requires Valid()
      ensures n == |Value().outer| + |Value().inner| + Total(Value().reassembly.stored)
      ensures n < 2 * MAXIMUM_ENCODED + MAXIMUM_FRAGMENT + MAXIMUM_WINDOW
    {
      var stored := fragments.BufferedBytes();
      return |buffer| - offset + |streamBuffer| - streamOffset + stored;
    }
  }
}
