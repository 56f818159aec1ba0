/** The record layer of src/core/control/base/NoiseTransport.cpp, over an abstract authenticated cipher. */
module NoiseTransport {
  import opened Bytes

  const FRAME_TYPE := 4
  const HEADER_SIZE := 3
  const MAXIMUM_CIPHERTEXT := 0xffff
  const TAG_SIZE := 16
  const NONCES := U64_MAX + 1

  /** One direction's key. */
  datatype Cipher = Cipher(encrypt: (nat, seq<byte>) -> seq<byte>, decrypt: (nat, seq<byte>) -> Option<seq<byte>>) {
    ghost predicate Correct() {
      forall n: nat, p: seq<byte> :: |encrypt(n, p)| == |p| + TAG_SIZE && decrypt(n, encrypt(n, p)) == Some(p)
    }

    /** What is sealed under one nonce is not opened under another. */
    ghost predicate Binding() {
      forall n: nat, m: nat, p: seq<byte> {:trigger decrypt(m, encrypt(n, p))} ::
        n < NONCES && m < NONCES && n != m ==> decrypt(m, encrypt(n, p)) == None
    }
  }

  function Fits(p: seq<byte>): bool {
    |p| + TAG_SIZE <= MAXIMUM_CIPHERTEXT
  }

  function Framed(ciphertext: seq<byte>): seq<byte>
    requires |ciphertext| <= MAXIMUM_CIPHERTEXT
  {
    [FRAME_TYPE, |ciphertext| / 256, |ciphertext| % 256] + ciphertext
  }

  /** A type octet and the length of the ciphertext, most significant octet first; a reader finds the end from them. */
  lemma FramedLayout(ciphertext: seq<byte>, more: seq<byte>)
    requires |ciphertext| <= MAXIMUM_CIPHERTEXT
    ensures var b := Framed(ciphertext);
      && b[0] == 4 && b[1..3] == BigEndian(|ciphertext|, 2) && FromBigEndian(b[1..3]) == |ciphertext|
      && b[3..] == ciphertext && FrameSize(b + more) == |b|
  {
    var b := Framed(ciphertext);
    assert BigEndian(|ciphertext|, 2) == BigEndian(|ciphertext| / 256, 1) + [|ciphertext| % 256];
    assert BigEndian(|ciphertext| / 256, 1) == BigEndian(0, 0) + [|ciphertext| / 256];
    assert b[1..3] == BigEndian(|ciphertext|, 2);
    assert Power256(2) == 256 * Power256(1);
    ReadAppended(|ciphertext|, 2);
  }

  datatype Taken = NotYet | WrongType | Unauthentic | Got(plaintext: seq<byte>, rest: seq<byte>)

  function FrameSize(b: seq<byte>): nat
    requires |b| >= HEADER_SIZE
  {
    HEADER_SIZE + b[1] as int * 256 + b[2]
  }

  function TakeFrame(c: Cipher, nonce: nat, b: seq<byte>): (r: Taken)
    ensures r.NotYet? ==> |b| < HEADER_SIZE + MAXIMUM_CIPHERTEXT
  {
    if |b| < HEADER_SIZE then NotYet
    else if b[0] != FRAME_TYPE then WrongType
    else
      var size := FrameSize(b);
      if |b| < size then NotYet
      else
        match c.decrypt(nonce, b[HEADER_SIZE..size])
        case None => Unauthentic
        case Some(p) => Got(p, b[size..])
  }

  /** What is taken from a buffer: exactly a whole frame of type 4 that opens under the nonce, and nothing behind it. */
  lemma TakenExactly(c: Cipher, nonce: nat, b: seq<byte>, plaintext: seq<byte>, rest: seq<byte>)
    ensures TakeFrame(c, nonce, b) == Got(plaintext, rest) <==>
      exists e: seq<byte> ::
        |e| <= MAXIMUM_CIPHERTEXT && b == Framed(e) + rest && c.decrypt(nonce, e) == Some(plaintext)
    ensures |b| >= HEADER_SIZE && b[0] != 4 ==> TakeFrame(c, nonce, b).WrongType?
  {
    if TakeFrame(c, nonce, b) == Got(plaintext, rest) {
      var size := FrameSize(b);
      var e := b[HEADER_SIZE..size];
      assert [b[0], b[1], b[2]] + e + b[size..] == b;
      assert b == Framed(e) + rest;
    }
    forall e: seq<byte> | |e| <= MAXIMUM_CIPHERTEXT && b == Framed(e) + rest && c.decrypt(nonce, e) == Some(plaintext)
      ensures TakeFrame(c, nonce, b) == Got(plaintext, rest)
    {
      FramedLayout(e, rest);
      assert b[HEADER_SIZE..FrameSize(b)] == e && b[FrameSize(b)..] == rest;
    }
  }

  /** Later bytes change nothing but `NotYet`. */
  lemma TakeIsStable(c: Cipher, nonce: nat, b: seq<byte>, more: seq<byte>)
    requires !TakeFrame(c, nonce, b).NotYet?
    ensures TakeFrame(c, nonce, b + more) == match TakeFrame(c, nonce, b)
                                             case Got(p, rest) => Got(p, rest + more)
                                             case other => other
  {
    if b[0] == FRAME_TYPE {
      var size := FrameSize(b);
      assert (b + more)[HEADER_SIZE..size] == b[HEADER_SIZE..size];
      assert (b + more)[size..] == b[size..] + more;
    }
  }

  // ---- The byte stream -----------------------------------------------------------------------

  /** A socket: what it has accepted, what is still to arrive, how it will answer, and how it has answered so far. */
  class ByteStream {
    ghost var writeLog: seq<Option<nat>>
    ghost var readLog: seq<Option<nat>>
    var accepted: seq<byte>
    var writeAnswers: seq<Option<nat>>
    var arriving: seq<byte>
    var readAnswers: seq<Option<nat>>

    constructor (arriving: seq<byte>, writeAnswers: seq<Option<nat>>, readAnswers: seq<Option<nat>>)
      ensures this.accepted == [] && this.arriving == arriving
    {
      this.accepted, this.arriving, this.writeAnswers, this.readAnswers := [], arriving, writeAnswers, readAnswers;
      writeLog, readLog := [], [];
    }

    method TryWriteSome(data: seq<byte>) returns (written: Option<nat>)
      modifies this`accepted, this`writeAnswers, this`writeLog
      ensures writeLog == old(writeLog) + [written]
      ensures written.Some? ==> written.value <= |data| && accepted == old(accepted) + data[..written.value]
      ensures written.None? ==> accepted == old(accepted)
    {
      if writeAnswers == [] || writeAnswers[0].None? {
        writeAnswers := if writeAnswers == [] then [] else writeAnswers[1..];
        writeLog := writeLog + [None];
        return None;
      }
      var n := Min(writeAnswers[0].value, |data|);
      writeAnswers, accepted := writeAnswers[1..], accepted + data[..n];
      writeLog := writeLog + [Some(n)];
      return Some(n);
    }

    /** No bytes: the peer has closed, and everything that was to arrive has been read. */
    method ReadSome(capacity: nat) returns (data: seq<byte>)
      requires 1 <= capacity <= HEADER_SIZE + MAXIMUM_CIPHERTEXT
      modifies this`arriving, this`readAnswers, this`readLog
      ensures readLog == old(readLog) + [Some(|data|)]
      ensures |data| <= capacity && old(arriving) == data + arriving
      ensures data == [] ==> arriving == []
    {
      var wanted := if readAnswers == [] || readAnswers[0].None? then 1 else readAnswers[0].value;
      readAnswers := if readAnswers == [] then [] else readAnswers[1..];
      var n := Min(Min(if wanted == 0 then 1 else wanted, capacity), |arriving|);
      data := arriving[..n];
      arriving := arriving[n..];
      readLog := readLog + [Some(n)];
    }

    method TryReadSome(capacity: nat) returns (data: Option<seq<byte>>)
      requires 1 <= capacity <= HEADER_SIZE + MAXIMUM_CIPHERTEXT
      modifies this`arriving, this`readAnswers, this`readLog
      ensures readLog == old(readLog) + [if data.Some? then Some(|data.value|) else None]
      ensures data.None? ==> arriving == old(arriving)
      ensures data.Some? ==> |data.value| <= capacity && old(arriving) == data.value + arriving
      ensures data.Some? && data.value == [] ==> arriving == []
    {
      if readAnswers != [] && readAnswers[0].None? {
        readAnswers := readAnswers[1..];
        readLog := readLog + [None];
        return None;
      }
      var some := ReadSome(capacity);
      return Some(some);
    }
  }

  // ---- The transport -------------------------------------------------------------------------

  datatype TransportError = FrameTooLarge | StreamClosed | UnexpectedType | NotAuthentic

  class Transport {
    const stream: ByteStream
    const tx: Cipher
    const rx: Cipher
    var txNonce: nat
    var rxNonce: nat
    var receiveBuffer: seq<byte>
    var sendBuffer: seq<byte>
    var sendOffset: nat

    ghost predicate Valid()
      reads this
    {
      txNonce < NONCES && rxNonce < NONCES && sendOffset <= |sendBuffer|
    }

    ghost function Pending(): seq<byte>
      requires Valid()
      reads this
    {
      sendBuffer[sendOffset..]
    }

    /** The frames that arrived with the handshake are already received. */
    constructor (stream: ByteStream, tx: Cipher, rx: Cipher, proactive: seq<byte>)
      ensures Valid() && Pending() == [] && receiveBuffer == proactive && txNonce == rxNonce == 0
      ensures this.stream == stream && this.tx == tx && this.rx == rx
    {
      this.stream, this.tx, this.rx, txNonce, rxNonce := stream, tx, rx, 0, 0;
      receiveBuffer, sendBuffer, sendOffset := proactive, [], 0;
    }

    /** A message takes the next nonce whether or not it can be sent; what is sent follows all that was sent before. */
    method Send(plaintext: seq<byte>) returns (r: Option<TransportError>)
      requires Valid() && tx.Correct()
      modifies this`txNonce, this`sendBuffer, this`sendOffset, stream`accepted, stream`writeAnswers, stream`writeLog
      ensures Valid() && txNonce == (old(txNonce) + 1) % NONCES
      ensures r == Some(FrameTooLarge) <==> !Fits(plaintext)
      ensures stream.accepted + Pending() == old(stream.accepted) + old(Pending())
        + if Fits(plaintext) then Framed(tx.encrypt(old(txNonce), plaintext)) else []
      ensures r.None? && Pending() != [] ==> LastWrite(old(stream.writeLog)) == Some(None)
      ensures
        || r.None? || r == Some(FrameTooLarge)
        || (r == Some(StreamClosed) && LastWrite(old(stream.writeLog)) == Some(Some(0)))
    {
      var ciphertext := tx.encrypt(txNonce, plaintext);
      txNonce := (txNonce + 1) % NONCES;
      if |ciphertext| > MAXIMUM_CIPHERTEXT {
        return Some(FrameTooLarge);
      }
      var frame := [FRAME_TYPE, |ciphertext| / 256, |ciphertext| % 256];
      frame := frame + ciphertext;
      Appended(sendBuffer, sendOffset, frame);
      Associate(stream.accepted, Pending(), frame);
      sendBuffer := sendBuffer + frame;
      r := Flush();
    }

    /** The answer to the last write since the log was `before`, if there was one. */
    ghost function LastWrite(before: seq<Option<nat>>): Option<Option<nat>>
      reads stream
    {
      if |stream.writeLog| > |before| then Some(stream.writeLog[|stream.writeLog| - 1]) else None
    }

    /**
     * However the socket takes the bytes, accepted and pending together stay what was sent; bytes stay pending only
     * when the last write of this call was turned away, and the stream counts as closed only when it took nothing.
     */
    method Flush() returns (r: Option<TransportError>)
      requires Valid()
      modifies this`sendBuffer, this`sendOffset, stream`accepted, stream`writeAnswers, stream`writeLog
      ensures Valid() && stream.accepted + Pending() == old(stream.accepted) + old(Pending())
      ensures r.None? || r == Some(StreamClosed)
      ensures r.None? && Pending() != [] ==> LastWrite(old(stream.writeLog)) == Some(None)
      ensures r == Some(StreamClosed) ==> LastWrite(old(stream.writeLog)) == Some(Some(0))
    {
      while sendOffset < |sendBuffer|
        invariant Valid() && sendBuffer == old(sendBuffer)
        invariant stream.accepted + Pending() == old(stream.accepted) + old(Pending())
        invariant |old(stream.writeLog)| <= |stream.writeLog|
        decreases |sendBuffer| - sendOffset
      {
        ghost var accepted, pending := stream.accepted, Pending();
        var written := stream.TryWriteSome(sendBuffer[sendOffset..]);
        if written.None? {
          return None;
        }
        if written.value == 0 {
          assert pending[..0] == [];
          return Some(StreamClosed);
        }
        Moved(accepted, sendBuffer, sendOffset, written.value);
        sendOffset := sendOffset + written.value;
      }
      sendBuffer, sendOffset := [], 0;
      return None;
    }

    method TryTakeBufferedFrame() returns (r: Result<Option<seq<byte>>, TransportError>)
      requires Valid()
      modifies this`receiveBuffer, this`rxNonce
      ensures Valid()
      ensures match TakeFrame(rx, old(rxNonce), old(receiveBuffer))
        case NotYet => r == Ok(None) && receiveBuffer == old(receiveBuffer) && rxNonce == old(rxNonce)
        case WrongType => r == Err(UnexpectedType) && receiveBuffer == old(receiveBuffer) && rxNonce == old(rxNonce)
        case Unauthentic =>
          && r == Err(NotAuthentic) && rxNonce == old(rxNonce)
          && receiveBuffer == old(receiveBuffer)[FrameSize(old(receiveBuffer))..]
        case Got(p, rest) => r == Ok(Some(p)) && receiveBuffer == rest && rxNonce == (old(rxNonce) + 1) % NONCES
    {
      if |receiveBuffer| < HEADER_SIZE {
        return Ok(None);
      }
      if receiveBuffer[0] != FRAME_TYPE {
        return Err(UnexpectedType);
      }
      var length := receiveBuffer[1] as int * 256 + receiveBuffer[2];
      var frameSize := HEADER_SIZE + length;
      if |receiveBuffer| < frameSize {
        return Ok(None);
      }
      var ciphertext := receiveBuffer[HEADER_SIZE..frameSize];
      receiveBuffer := receiveBuffer[frameSize..];
      var plaintext := rx.decrypt(rxNonce, ciphertext);
      if plaintext.None? {
        return Err(NotAuthentic);
      }
      rxNonce := (rxNonce + 1) % NONCES;
      return Ok(Some(plaintext.value));
    }

    /** What a read from this transport makes of everything received and still to arrive. */
    ghost function Outcome(): Taken
      reads this, stream
    {
      TakeFrame(rx, rxNonce, receiveBuffer + stream.arriving)
    }

    /** The next message does not depend on how the bytes arrive; the capacity asked of the stream is in its bounds. */
    method Receive() returns (r: Result<seq<byte>, TransportError>)
      requires Valid()
      modifies this`receiveBuffer, this`rxNonce, stream`arriving, stream`readAnswers, stream`readLog
      ensures Valid()
      ensures match old(Outcome())
        case NotYet => r == Err(StreamClosed) && stream.arriving == []
        case WrongType => r == Err(UnexpectedType)
        case Unauthentic => r == Err(NotAuthentic)
        case Got(p, rest) =>
          r == Ok(p) && receiveBuffer + stream.arriving == rest && rxNonce == (old(rxNonce) + 1) % NONCES
    {
      while true
        invariant Valid() && rxNonce == old(rxNonce)
        invariant receiveBuffer + stream.arriving == old(receiveBuffer + stream.arriving)
        decreases |stream.arriving|
      {
        TakeFromMore(rx, rxNonce, receiveBuffer, stream.arriving);
        var taken := TryTakeBufferedFrame();
        if taken.Err? {
          return Err(taken.error);
        }
        if taken.value.Some? {
          return Ok(taken.value.value);
        }
        ghost var arriving := stream.arriving;
        var capacity := MAXIMUM_CIPHERTEXT + HEADER_SIZE - |receiveBuffer|;
        var available := stream.ReadSome(capacity);
        assert receiveBuffer + arriving == receiveBuffer + available + stream.arriving;
        if available == [] {
          return Err(StreamClosed);
        }
        receiveBuffer := receiveBuffer + available;
      }
    }

    method TryReceive() returns (r: Result<Option<seq<byte>>, TransportError>)
      requires Valid()
      modifies this`receiveBuffer, this`rxNonce, stream`arriving, stream`readAnswers, stream`readLog
      ensures Valid()
      ensures match r
        case Ok(None) =>
          && receiveBuffer + stream.arriving == old(receiveBuffer + stream.arriving) && rxNonce == old(rxNonce)
          && TakeFrame(rx, rxNonce, receiveBuffer).NotYet? && |stream.readLog| == |old(stream.readLog)| + 1
        case Ok(Some(p)) =>
          old(Outcome()) == Got(p, receiveBuffer + stream.arriving) && rxNonce == (old(rxNonce) + 1) % NONCES
        case Err(e) =>
          && (e == StreamClosed ==>
                && old(Outcome()).NotYet? && stream.arriving == []
                && stream.readLog == old(stream.readLog) + [Some(0)])
          && (e == UnexpectedType ==> old(Outcome()).WrongType?)
          && (e == NotAuthentic ==> old(Outcome()).Unauthentic?)
          && e != FrameTooLarge
    {
      TakeFromMore(rx, rxNonce, receiveBuffer, stream.arriving);
      r := TryTakeBufferedFrame();
      if r.Err? || r.value.Some? {
        return;
      }
      ghost var arriving := stream.arriving;
      var capacity := MAXIMUM_CIPHERTEXT + HEADER_SIZE - |receiveBuffer|;
      var available := stream.TryReadSome(capacity);
      if available.None? {
        return Ok(None);
      }
      assert receiveBuffer + arriving == receiveBuffer + available.value + stream.arriving;
      if available.value == [] {
        return Err(StreamClosed);
      }
      receiveBuffer := receiveBuffer + available.value;
      TakeFromMore(rx, rxNonce, receiveBuffer, stream.arriving);
      r := TryTakeBufferedFrame();
    }
  }

  lemma Appended(buffer: seq<byte>, offset: nat, frame: seq<byte>)
    requires offset <= |buffer|
    ensures (buffer + frame)[offset..] == buffer[offset..] + frame
  {
  }

  lemma Moved(accepted: seq<byte>, buffer: seq<byte>, offset: nat, n: nat)
    requires offset + n <= |buffer|
    ensures accepted + buffer[offset..][..n] + buffer[offset + n..] == accepted + buffer[offset..]
  {
    assert buffer[offset..][..n] + buffer[offset + n..] == buffer[offset..];
  }

  /** `TakeIsStable`, also where nothing could be taken yet. */
  lemma TakeFromMore(c: Cipher, nonce: nat, b: seq<byte>, more: seq<byte>)
    ensures match TakeFrame(c, nonce, b)
      case NotYet => more == [] ==> TakeFrame(c, nonce, b + more).NotYet?
      case Got(p, rest) => TakeFrame(c, nonce, b + more) == Got(p, rest + more)
      case other => TakeFrame(c, nonce, b + more) == other
  {
    if TakeFrame(c, nonce, b).NotYet? {
      assert b + [] == b;
    } else {
      TakeIsStable(c, nonce, b, more);
    }
  }
}
