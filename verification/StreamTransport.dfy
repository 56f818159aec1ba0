/** The ordered relay stream of src/core/hosted/StreamTransport.cpp, over a socket that answers as it likes. */
module StreamTransport {
  import opened Bytes
  import opened Frames
  import opened Decoder
  import FeedLimit

  const MAXIMUM_QUEUED := 4 * 1024 * 1024
  const MAXIMUM_READ := 64 * 1024

  datatype StreamError = ConnectionReset | Decoding(error: DecodeError)

  /** How the socket answers one call, and the state in which it is left. */
  datatype Answer = Answer(count: Option<nat>, readNeedsWrite: bool, writeNeedsRead: bool, buffered: bool)

  class TcpSocket {
    ghost var writeLog: seq<Option<nat>>
    ghost var readLog: seq<Option<nat>>
    var accepted: seq<byte>
    var arriving: seq<byte>
    var answers: seq<Answer>
    var readNeedsWrite: bool
    var writeNeedsRead: bool
    var buffered: bool
    var writeInterest: bool

    constructor (arriving: seq<byte>, answers: seq<Answer>)
      ensures accepted == [] && this.arriving == arriving
    {
      accepted, this.arriving, this.answers := [], arriving, answers;
      readNeedsWrite, writeNeedsRead, buffered, writeInterest := false, false, false, false;
      writeLog, readLog := [], [];
    }

    method Ask() returns (count: Option<nat>)
      modifies this`answers, this`readNeedsWrite, this`writeNeedsRead, this`buffered
    {
      if answers == [] {
        return None;
      }
      var a := answers[0];
      answers, readNeedsWrite, writeNeedsRead, buffered := answers[1..], a.readNeedsWrite, a.writeNeedsRead, a.buffered;
      return a.count;
    }

    /** The count is not trusted: it may exceed what was offered. */
    method TryWriteSome(data: seq<byte>) returns (written: Option<nat>)
      modifies this`accepted, this`answers, this`readNeedsWrite, this`writeNeedsRead, this`buffered, this`writeLog
      ensures writeLog == old(writeLog) + [written]
      ensures accepted == old(accepted) + if written.Some? && written.value <= |data| then data[..written.value] else []
    {
      written := Ask();
      writeLog := writeLog + [written];
      accepted := accepted + if written.Some? && written.value <= |data| then data[..written.value] else [];
    }

    /** No bytes: the peer has closed and everything has arrived. */
    method TryReadSome(capacity: nat) returns (data: Option<seq<byte>>)
      requires 0 < capacity
      modifies this`arriving, this`answers, this`readNeedsWrite, this`writeNeedsRead, this`buffered, this`readLog
      ensures readLog == old(readLog) + [if data.Some? then Some(|data.value|) else None]
      ensures data.None? ==> arriving == old(arriving)
      ensures data.Some? ==> |data.value| <= capacity && old(arriving) == data.value + arriving
      ensures data.Some? && data.value == [] ==> arriving == []
    {
      var count := Ask();
      if count.None? {
        readLog := readLog + [None];
        return None;
      }
      var n := Min(Min(if count.value == 0 then 1 else count.value, capacity), |arriving|);
      readLog := readLog + [Some(n)];
      data := Some(arriving[..n]);
      arriving := arriving[n..];
    }
  }

  datatype WriteStop = Finished | TurnedAway | Broken

  datatype ReadStep = Blocked | Closed | Grew | Refused(error: DecodeError)

  function Last(log: seq<Option<nat>>): Option<nat>
    requires log != []
  {
    log[|log| - 1]
  }

  ghost predicate NonEmpty(output: seq<seq<byte>>) {
    forall i :: 0 <= i < |output| ==> output[i] != []
  }

  class Stream {
    const socket: TcpSocket
    const decoder: FrameDecoder
    var output: seq<seq<byte>>
    var queuedBytes: nat
    var offset: nat
    var moreFrames: bool
    var moreReads: bool
    var closed: bool

    /** History: bytes queued, bytes read, frames handed out, and whether the decoder has refused its input. */
    ghost var queued: seq<byte>
    ghost var taken: seq<byte>
    ghost var delivered: seq<Frame>
    ghost var broken: bool

    ghost predicate OutputOk()
      reads this`output, this`offset, this`queuedBytes
    {
      && NonEmpty(output) && offset <= |Flatten(output)| && (if output == [] then offset == 0 else offset < |output[0]|)
      && queuedBytes == |Flatten(output)| - offset <= MAXIMUM_QUEUED
    }

    ghost function Pending(): seq<byte>
      requires offset <= |Flatten(output)|
      reads this`output, this`offset
    {
      Flatten(output)[offset..]
    }

    /** What came in is what the frames were decoded from; a closed stream has nothing left to decode. */
    ghost predicate InputOk()
      reads this`taken, this`delivered, this`broken, this`closed, decoder, decoder.fragments
    {
      && decoder.Valid()
      && (!broken ==> Decodes(delivered))
      && (!broken && closed ==> Drained(delivered))
    }

    /** The bytes read so far yield these frames and then whatever the decoder yields from here. */
    ghost predicate Decodes(handed: seq<Frame>)
      reads this`taken, decoder, decoder.fragments
    {
      decoder.Valid() && Faithful(taken, handed, decoder.Value())
    }

    /** These frames are all that the bytes read so far hold, and the decoder finds nothing more. */
    ghost predicate Drained(handed: seq<Frame>)
      reads this`taken, decoder, decoder.fragments
    {
      && decoder.Valid() && Next(decoder.Value()).Idle?
      && Drain(Fed(START, taken)) == Run(handed, None, decoder.Value())
    }

    /** From a sender of plain frames, what is handed out is every frame that has arrived whole, and nothing else. */
    lemma PlainDelivery(frames: seq<Frame>)
      requires Drained(delivered) && Sendable(frames) && taken <= EncodeAll(frames)
      ensures delivered == FeedLimit.Whole(frames, |taken|)
      ensures taken == EncodeAll(frames) ==> delivered == frames
    {
      hide Drain, Encode, EncodeAll;
      assert Fed(START, taken).outer == taken;
      FeedLimit.PlainStreamYields(frames, Fed(START, taken));
      FeedLimit.AllWhole(frames);
    }

    ghost predicate Conserves()
      reads this`output, this`offset, this`queuedBytes, this`queued, socket`accepted
    {
      OutputOk() && socket.accepted + Pending() == queued
    }

    ghost predicate Valid()
      reads this, socket, decoder, decoder.fragments
    {
      Conserves() && InputOk()
    }

    /** The decoder comes from the handshake, with a history of its own. */
    constructor (socket: TcpSocket, decoder: FrameDecoder, ghost taken: seq<byte>, ghost delivered: seq<Frame>)
      requires decoder.Valid() && Faithful(taken, delivered, decoder.Value()) && socket.accepted == []
      ensures Valid() && queued == [] && this.taken == taken && this.delivered == delivered && !broken && !closed
      ensures this.socket == socket && this.decoder == decoder
    {
      this.socket, this.decoder, output, queuedBytes, offset := socket, decoder, [], 0, 0;
      moreFrames, moreReads, closed := false, false, false;
      queued, this.taken, this.delivered, broken := [], taken, delivered, false;
    }

    method Queue(bytes: seq<byte>) returns (ok: bool)
      requires Valid()
      modifies this`output, this`queuedBytes, this`queued
      ensures Valid()
      ensures ok == (|old(Pending())| + |bytes| <= MAXIMUM_QUEUED)
      ensures queued == old(queued) + if ok then bytes else []
      ensures Pending() == old(Pending()) + if ok then bytes else []
    {
      hide InputOk, Flatten;
      if |bytes| > MAXIMUM_QUEUED - queuedBytes {
        return false;
      }
      if bytes != [] {
        queuedBytes := queuedBytes + |bytes|;
        QueueAppends(output, offset, bytes);
        output := output + [bytes];
        queued := queued + bytes;
      }
      return true;
    }

    method UpdateWriteInterest()
      requires Conserves()
      modifies socket`writeInterest
      ensures socket.writeInterest == Interested()
    {
      HeadFits(output);
      socket.writeInterest := socket.readNeedsWrite || (output != [] && !socket.writeNeedsRead);
    }

    /** The socket is to report when it can write: a read waits for that, or pending octets wait for nothing else. */
    ghost predicate Interested()
      requires OutputOk()
      reads this, socket
    {
      socket.readNeedsWrite || (Pending() != [] && !socket.writeNeedsRead)
    }

    /**
     * Bytes move from pending to accepted, in order, whatever the socket answers.  They stay pending only while a read
     * holds the socket, when the last write was turned away, or, with more work announced, when the budget is used up.
     */
    method Flush(maximumWrites: nat) returns (r: Result<bool, StreamError>)
      requires Valid()
      modifies this`output, this`queuedBytes, this`offset
      modifies socket`accepted, socket`answers, socket`readNeedsWrite, socket`writeNeedsRead, socket`buffered
      modifies socket`writeInterest, socket`writeLog
      ensures Valid() && queued == old(queued)
      ensures var writes := |socket.writeLog| - |old(socket.writeLog)|;
        && 0 <= writes <= maximumWrites
        && (old(socket.readNeedsWrite) ==> r == Ok(false) && writes == 0)
        && (r == Ok(true) ==> Pending() != [] && writes == maximumWrites)
        && (r == Ok(false) && !old(socket.readNeedsWrite) && Pending() != [] ==>
              writes > 0 && Last(socket.writeLog) == None)
        && (r.Err? ==> writes > 0 && Miscounted(Last(socket.writeLog)))
      ensures r.Ok? ==> socket.writeInterest == Interested()
    {
      hide InputOk, Flatten, NonEmpty;
      if socket.readNeedsWrite {
        UpdateWriteInterest();
        return Ok(false);
      }
      var stop := WriteOut(maximumWrites);
      if stop.Broken? {
        return Err(ConnectionReset);
      }
      UpdateWriteInterest();
      HeadFits(output);
      return Ok(stop.Finished? && output != []);
    }

    /** A write of the front buffer that took nothing, or more than was left of it. */
    ghost predicate Miscounted(written: Option<nat>)
      reads this`output, this`offset
    {
      output != [] && written.Some? && (written.value == 0 || written.value > |output[0]| - offset)
    }

    /** The loop of `Flush`. */
    method WriteOut(maximumWrites: nat) returns (stop: WriteStop)
      requires Conserves()
      modifies this`output, this`queuedBytes, this`offset
      modifies socket`accepted, socket`answers, socket`readNeedsWrite, socket`writeNeedsRead, socket`buffered
      modifies socket`writeLog
      ensures Conserves()
      ensures var writes := |socket.writeLog| - |old(socket.writeLog)|;
        && 0 <= writes <= maximumWrites
        && (stop.Finished? ==> Pending() == [] || writes == maximumWrites)
        && (stop.TurnedAway? ==> writes > 0 && Last(socket.writeLog) == None)
        && (stop.Broken? ==> writes > 0 && Miscounted(Last(socket.writeLog)))
    {
      hide Flatten;
      var count := 0;
      while count < maximumWrites && output != []
        invariant Conserves() && count <= maximumWrites && |socket.writeLog| == |old(socket.writeLog)| + count
        decreases maximumWrites - count
      {
        var bytes := output[0];
        var remaining := |bytes| - offset;
        ghost var accepted := socket.accepted;
        var written := socket.TryWriteSome(bytes[offset..]);
        if written.None? || written.value == 0 || written.value > remaining {
          assert bytes[offset..][..0] == [] && accepted + [] == accepted;
        }
        if written.None? {
          return TurnedAway;
        }
        if written.value == 0 || written.value > remaining {
          return Broken;
        }
        WriteMoves(accepted, output, offset, written.value);
        offset := offset + written.value;
        queuedBytes := queuedBytes - written.value;
        if offset == |bytes| {
          output, offset := output[1..], 0;
        }
        count := count + 1;
      }
      HeadFits(output);
      return Finished;
    }

    /**
     * A batch of frames.  Unless it is full the decoder has been drained, so a frame that could be handed out keeps
     * `HasBufferedInput` true; when the peer closes, every frame decodable from all that arrived is handed out first.
     * A decoding error is an error of the octets read.
     */
    method Receive(maximumReads: nat, maximumFrames: nat) returns (r: Result<seq<Frame>, StreamError>)
      requires Valid() && !broken
      modifies this`moreFrames, this`moreReads, this`closed, this`taken, this`delivered, this`broken
      modifies decoder, decoder.fragments
      modifies socket`arriving, socket`answers, socket`readNeedsWrite, socket`writeNeedsRead, socket`buffered
      modifies socket`writeInterest, socket`readLog
      ensures Valid() && taken + socket.arriving == old(taken) + old(socket.arriving)
      ensures old(closed) ==> r == Err(ConnectionReset) && closed && delivered == old(delivered)
      ensures r.Ok? ==> |r.value| <= maximumFrames && delivered == old(delivered) + r.value && !broken
      ensures r.Ok? && maximumFrames > 0 ==> Drained(delivered) || HasInput()
      ensures r.Ok? && |r.value| < maximumFrames ==>
        Drained(delivered) && (closed || StoppedReading(old(socket.readLog), maximumReads))
      ensures r.Ok? ==> moreFrames == (maximumFrames != 0 && |r.value| == maximumFrames)
      ensures r.Ok? ==> moreReads == BudgetUsed(old(socket.readLog), maximumReads)
      ensures r == Err(ConnectionReset) ==> closed && !broken && delivered == old(delivered)
      ensures closed && !old(closed) ==>
        && socket.arriving == [] && Drained(delivered)
        && |socket.readLog| > |old(socket.readLog)| && Last(socket.readLog) == Some(0)
      ensures r.Ok? && closed ==> r.value != []
      ensures r.Err? ==> delivered == old(delivered)
      ensures r.Err? && r.error.Decoding? ==> broken && Undecodable(r.error.error)
      ensures r.Ok? ==> socket.writeInterest == Interested()
    {
      hide Decodes, Drained, Undecodable, Conserves, StoppedReading, BudgetUsed, FrameDecoder.Valid;
      if closed {
        return Err(ConnectionReset);
      }
      moreFrames := false;
      r := Batch(maximumReads, maximumFrames);
      if r.Err? {
        broken := r != Err(ConnectionReset);
        return;
      }
      moreFrames := maximumFrames != 0 && |r.value| == maximumFrames;
      delivered := delivered + r.value;
      UpdateWriteInterest();
    }

    /** Why reading stopped short of the peer's close: the budget, a write that waits for a read, or nothing to read. */
    ghost predicate StoppedReading(before: seq<Option<nat>>, maximumReads: nat)
      reads socket`readLog, socket`writeNeedsRead
    {
      || |socket.readLog| == |before| + maximumReads || socket.writeNeedsRead
      || (|socket.readLog| > |before| && Last(socket.readLog) == None)
    }

    /** The octets read hold this error, or the last of them were more than the decoder would take. */
    ghost predicate Undecodable(e: DecodeError)
      reads this`taken, socket`readLog
    {
      || Drain(Fed(START, taken)).error == Some(e)
      || (e == BufferLimit && socket.readLog != []
          && Last(socket.readLog).Some? && Last(socket.readLog).value <= |taken|
          && var before := |taken| - Last(socket.readLog).value;
            Refuses(Drain(Fed(START, taken[..before])).rest, taken[before..]))
    }

    /** The last read allowed brought octets, so there may be more. */
    ghost predicate BudgetUsed(before: seq<Option<nat>>, maximumReads: nat)
      reads socket`readLog
    {
      && maximumReads > 0 && |socket.readLog| == |before| + maximumReads
      && Last(socket.readLog).Some? && Last(socket.readLog).value > 0
    }

    /** The loop of `Receive`. */
    method Batch(maximumReads: nat, maximumFrames: nat) returns (r: Result<seq<Frame>, StreamError>)
      requires Decodes(delivered) && !closed
      modifies this`moreReads, this`closed, this`taken, decoder, decoder.fragments
      modifies socket`arriving, socket`answers, socket`readNeedsWrite, socket`writeNeedsRead, socket`buffered
      modifies socket`readLog
      ensures decoder.Valid() && taken + socket.arriving == old(taken) + old(socket.arriving)
      ensures r.Ok? ==>
        && |r.value| <= maximumFrames && Decodes(delivered + r.value)
        && (|r.value| < maximumFrames || closed ==> Drained(delivered + r.value))
        && (|r.value| < maximumFrames ==> closed || StoppedReading(old(socket.readLog), maximumReads))
        && moreReads == BudgetUsed(old(socket.readLog), maximumReads)
        && (closed ==> r.value != [])
      ensures r == Err(ConnectionReset) ==> closed && Decodes(delivered) && Drained(delivered)
      ensures closed ==>
        && socket.arriving == [] && (r.Ok? || r == Err(ConnectionReset))
        && |socket.readLog| > |old(socket.readLog)| && Last(socket.readLog) == Some(0)
      ensures r.Err? && r.error.Decoding? ==> Undecodable(r.error.error)
    {
      hide Decodes, Drained, Undecodable;
      var frames: seq<Frame>, reading := [], true;
      var count := 0;
      moreReads := false;
      assert delivered + frames == delivered;
      while reading && |frames| < maximumFrames
        invariant count <= maximumReads && |frames| <= maximumFrames
        invariant Decodes(delivered + frames) && (!reading ==> Drained(delivered + frames))
        invariant taken + socket.arriving == old(taken) + old(socket.arriving)
        invariant |socket.readLog| == |old(socket.readLog)| + count
        invariant closed ==> frames != [] && !reading && socket.arriving == []
        invariant closed ==> count > 0 && Last(socket.readLog) == Some(0)
        invariant !reading ==> closed || StoppedReading(old(socket.readLog), maximumReads)
        invariant moreReads == BudgetUsed(old(socket.readLog), maximumReads)
        decreases if reading then 1 else 0, maximumFrames - |frames| + maximumReads - count
      {
        var frame := TakeFrame(delivered + frames);
        if frame.Err? {
          return Err(Decoding(frame.error));
        }
        if frame.value.Some? {
          assert delivered + (frames + [frame.value.value]) == delivered + frames + [frame.value.value];
          frames := frames + [frame.value.value];
        } else if count >= maximumReads || socket.writeNeedsRead {
          reading := false;
        } else {
          var step := Read(delivered + frames);
          count := count + 1;
          if step.Closed? && frames == [] {
            assert delivered + frames == delivered;
            return Err(ConnectionReset);
          }
          if step.Refused? {
            return Err(Decoding(step.error));
          }
          reading := step.Grew?;
          if step.Grew? {
            moreReads := count == maximumReads;
          }
        }
      }
      DecodesIsValid(delivered + frames);
      return Ok(frames);
    }

    lemma DecodesIsValid(handed: seq<Frame>)
      requires Decodes(handed)
      ensures decoder.Valid()
    {
    }

    method TakeFrame(ghost handed: seq<Frame>) returns (r: Result<Option<Frame>, DecodeError>)
      requires Decodes(handed)
      modifies decoder, decoder.fragments
      ensures decoder.Valid()
      ensures r.Ok? && r.value.Some? ==> Decodes(handed + [r.value.value])
      ensures r.Ok? && r.value.None? ==> Decodes(handed) && Drained(handed)
      ensures r.Err? ==> Undecodable(r.error)
    {
      hide Drain, Next, Faithful, Fed, FrameDecoder.Value;
      NextIsFaithful(taken, handed, decoder.Value());
      IdleStays(decoder.Value());
      r := decoder.TakeFrame();
    }

    /** One read of the socket by a stream that has drained its decoder. */
    method Read(ghost handed: seq<Frame>) returns (step: ReadStep)
      requires Decodes(handed) && Drained(handed)
      modifies this`closed, this`taken, decoder
      modifies socket`arriving, socket`answers, socket`readNeedsWrite, socket`writeNeedsRead, socket`buffered
      modifies socket`readLog
      ensures decoder.Valid() && taken + socket.arriving == old(taken) + old(socket.arriving)
      ensures step.Blocked? || step.Closed? ==> Decodes(handed) && Drained(handed)
      ensures step.Grew? ==> Decodes(handed)
      ensures step.Refused? ==> Undecodable(step.error)
      ensures |socket.readLog| == |old(socket.readLog)| + 1
      ensures match step
        case Blocked => Last(socket.readLog) == None
        case Closed => Last(socket.readLog) == Some(0)
        case _ => Last(socket.readLog).Some? && Last(socket.readLog).value > 0
      ensures closed == (old(closed) || step.Closed?) && (step.Closed? ==> socket.arriving == [])
    {
      hide Drain, Next, Faithful, FrameDecoder.Value;
      var bytes := socket.TryReadSome(MAXIMUM_READ);
      if bytes.None? {
        return Blocked;
      }
      Associate(taken, bytes.value, socket.arriving);
      if bytes.value == [] {
        closed := true;
        return Closed;
      }
      FeedIsFaithful(taken, handed, decoder.Value(), bytes.value);
      ghost var before := taken;
      taken := taken + bytes.value;
      assert taken[..|before|] == before && taken[|before|..] == bytes.value;
      var failed := decoder.Feed(bytes.value);
      return if failed.Some? then Refused(failed.value) else Grew;
    }

    predicate HasInput()
      reads this, socket
    {
      closed || moreFrames || (!socket.writeNeedsRead && (moreReads || socket.buffered))
    }

    method HasBufferedInput() returns (b: bool)
      ensures b == HasInput()
    {
      b := closed || moreFrames || (!socket.writeNeedsRead && (moreReads || socket.buffered));
    }
  }

  lemma QueueAppends(output: seq<seq<byte>>, offset: nat, bytes: seq<byte>)
    requires offset <= |Flatten(output)|
    ensures Flatten(output + [bytes]) == Flatten(output) + bytes
    ensures Flatten(output + [bytes])[offset..] == Flatten(output)[offset..] + bytes
  {
    FlattenAppend(output, [bytes]);
    assert Flatten([bytes]) == bytes;
  }

  lemma HeadFits(output: seq<seq<byte>>)
    ensures if output == [] then Flatten(output) == [] else |output[0]| <= |Flatten(output)|
  {
  }

  lemma WriteMoves(accepted: seq<byte>, output: seq<seq<byte>>, offset: nat, n: nat)
    requires output != [] && offset + n <= |output[0]|
    ensures offset + n <= |Flatten(output)|
    ensures accepted + output[0][offset..][..n] + Flatten(output)[offset + n..] == accepted + Flatten(output)[offset..]
    ensures offset + n == |output[0]| ==> Flatten(output)[offset + n..] == Flatten(output[1..])
  {
    var all := Flatten(output);
    assert all == output[0] + Flatten(output[1..]);
    assert output[0][offset..][..n] == all[offset..][..n];
    assert all[offset..][..n] + all[offset + n..] == all[offset..];
  }
}
