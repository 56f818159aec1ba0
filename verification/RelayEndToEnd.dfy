/** Safety and completeness of the relay transport over every run of `RelaySystem`. */
module RelayEndToEnd {
  import opened Bytes
  import opened Frames
  import opened PacketFraming
  import opened RelaySystem
  import D = Decoder

  lemma InitiallyInv(frames: seq<Frame>, stream: seq<byte>) returns (h: History)
    requires stream == EncodeAll(frames)
    ensures Inv(frames, stream, INITIAL, h) && h.ends == map[]
  {
    h := History(map[], [], {}, map[]);
    assert stream[0..] == stream && frames[0..] == frames;
  }

  // ---- Sending -------------------------------------------------------------------------------

  lemma QueueSender(stream: seq<byte>, s: Outgoing, queued: nat, n: nat)
    requires SenderOk(stream, s, queued) && queued + n <= |stream|
    ensures SenderOk(stream, s.(pending := s.pending + stream[queued..queued + n]), queued + n)
  {
    assert stream[s.offset..queued] + stream[queued..queued + n] == stream[s.offset..queued + n];
  }

  lemma QueueKeeps(frames: seq<Frame>, stream: seq<byte>, l: Link, h: History, n: nat)
    requires Inv(frames, stream, l, h) && l.queued + n <= |stream|
    ensures Inv(frames, stream, AfterQueue(stream, l, n), h)
  {
    QueueSender(stream, l.sender, l.queued, n);
    hide Tiles, Placed, TransitOk, StoreOk, OutputOk, SenderOk;
  }

  lemma CutSender(stream: seq<byte>, s: Outgoing, queued: nat, capacity: nat)
    requires SenderOk(stream, s, queued) && CutNext(s, capacity).Packet?
    ensures var rest := CutNext(s, capacity).rest;
      && SenderOk(stream, rest, queued)
      && s.offset < rest.offset <= s.offset + D.MAXIMUM_FRAGMENT
      && CutNext(s, capacity).bytes == Encode(PieceFrame(stream, s.offset, rest.offset))
  {
    var count := CutSize(|s.pending|, capacity);
    assert s.pending[..count] == stream[s.offset..s.offset + count];
    assert s.pending[count..] == stream[s.offset + count..queued];
  }

  lemma {:induction false} PacketsExtend(stream: seq<byte>, ends: map<nat, nat>, sent: nat, end: nat, wired: seq<nat>)
    requires Tiles(ends, sent) && Tiles(ends[sent := end], end) && sent <= |stream| && end <= |stream|
    requires forall j :: 0 <= j < |wired| ==> wired[j] in ends
    ensures Packets(stream, ends[sent := end], end, wired) == Packets(stream, ends, sent, wired)
  {
    if wired != [] {
      PacketsExtend(stream, ends, sent, end, wired[1..]);
      assert wired[0] != sent;
    }
  }

  lemma CutTiles(ends: map<nat, nat>, sent: nat, end: nat)
    requires Tiles(ends, sent) && sent < end <= sent + D.MAXIMUM_FRAGMENT
    ensures sent !in ends && Tiles(ends[sent := end], end)
  {
    var more := ends[sent := end];
    forall k | k in more
      ensures Boundary(more, end, more[k])
    {
      if k != sent {
        assert Boundary(ends, sent, ends[k]);
      }
    }
  }

  lemma CutPlaced(ends: map<nat, nat>, transit: map<nat, seq<byte>>, wired: seq<nat>, got: set<nat>,
                  rank: map<nat, nat>, sent: nat, end: nat, packet: seq<byte>)
    requires Placed(ends.Keys, transit.Keys, wired, got, rank) && sent !in ends
    ensures Placed(ends[sent := end].Keys, transit[sent := packet].Keys, wired, got, rank)
  {
    assert ends[sent := end].Keys == ends.Keys + {sent};
    assert transit[sent := packet].Keys == transit.Keys + {sent};
  }

  lemma CutTransit(stream: seq<byte>, ends: map<nat, nat>, transit: map<nat, seq<byte>>, sent: nat, end: nat)
    requires TransitOk(stream, ends, transit) && sent !in ends && sent <= end <= |stream|
    ensures TransitOk(stream, ends[sent := end], transit[sent := Encode(PieceFrame(stream, sent, end))])
  {
  }

  lemma CutStore(stream: seq<byte>, ends: map<nat, nat>, sent: nat, end: nat, got: set<nat>, r: Reassembly)
    requires StoreOk(stream, ends, sent, got, r) && sent !in ends && r.at <= sent
    requires forall k :: k in got ==> k in ends
    ensures StoreOk(stream, ends[sent := end], end, got, r)
  {
  }

  lemma CutMoves(frames: seq<Frame>, stream: seq<byte>, l: Link, h: History, packet: seq<byte>, rest: Outgoing)
    returns (h': History)
    requires Inv(frames, stream, l, h) && SenderOk(stream, rest, l.queued)
    requires l.sender.offset < rest.offset <= l.sender.offset + D.MAXIMUM_FRAGMENT
    requires packet == Encode(PieceFrame(stream, l.sender.offset, rest.offset))
    ensures Inv(frames, stream, l.(sender := rest, transit := l.transit[l.sender.offset := packet]), h')
    ensures |h'.ends| == |h.ends| + 1
  {
    var sent, end := l.sender.offset, rest.offset;
    CutTiles(h.ends, sent, end);
    CutPlaced(h.ends, l.transit, h.wired, h.got, h.rank, sent, end, packet);
    CutTransit(stream, h.ends, l.transit, sent, end);
    PacketsExtend(stream, h.ends, sent, end, h.wired);
    CutStore(stream, h.ends, sent, end, h.got, l.receiver.reassembly);
    h' := h.(ends := h.ends[sent := end]);
  }

  lemma CutKeeps(frames: seq<Frame>, stream: seq<byte>, l: Link, h: History, capacity: nat) returns (h': History)
    requires Inv(frames, stream, l, h)
    ensures Inv(frames, stream, AfterCut(l, capacity), h') && |h'.ends| <= |h.ends| + 1
  {
    match CutNext(l.sender, capacity)
    case Packet(packet, rest) =>
      CutSender(stream, l.sender, l.queued, capacity);
      h' := CutMoves(frames, stream, l, h, packet, rest);
    case _ =>
      h' := h;
  }

  // ---- The network ---------------------------------------------------------------------------

  lemma {:induction false} PacketsAppend(stream: seq<byte>, ends: map<nat, nat>, sent: nat, wired: seq<nat>, k: nat)
    requires Tiles(ends, sent) && sent <= |stream| && k in ends
    requires forall j :: 0 <= j < |wired| ==> wired[j] in ends
    ensures Packets(stream, ends, sent, wired + [k]) ==
            Packets(stream, ends, sent, wired) + Encode(PieceFrame(stream, k, ends[k]))
  {
    var last := Encode(PieceFrame(stream, k, ends[k]));
    if wired == [] {
      assert [] + [k] == [k] && [k][1..] == [];
      assert Packets(stream, ends, sent, [k]) == last + Packets(stream, ends, sent, []);
    } else {
      hide Encode, PieceFrame;
      assert (wired + [k])[1..] == wired[1..] + [k];
      PacketsAppend(stream, ends, sent, wired[1..], k);
      Associate(Encode(PieceFrame(stream, wired[0], ends[wired[0]])), Packets(stream, ends, sent, wired[1..]), last);
    }
  }

  lemma DeliverPlaced(pieces: set<nat>, transit: map<nat, seq<byte>>, wired: seq<nat>, got: set<nat>,
                      rank: map<nat, nat>, k: nat)
    requires Placed(pieces, transit.Keys, wired, got, rank) && k in transit
    ensures Placed(pieces, (transit - {k}).Keys, wired + [k], got, rank[k := |got| + |wired|])
  {
    assert (transit - {k}).Keys == transit.Keys - {k};
  }

  lemma DeliverWire(stream: seq<byte>, ends: map<nat, nat>, sent: nat,
                    outer: seq<byte>, wire: seq<byte>, wired: seq<nat>, k: nat)
    requires Tiles(ends, sent) && sent <= |stream| && k in ends
    requires forall j :: 0 <= j < |wired| ==> wired[j] in ends
    requires outer + wire == Packets(stream, ends, sent, wired)
    ensures outer + (wire + Encode(PieceFrame(stream, k, ends[k]))) == Packets(stream, ends, sent, wired + [k])
  {
    PacketsAppend(stream, ends, sent, wired, k);
    Associate(outer, wire, Encode(PieceFrame(stream, k, ends[k])));
  }

  lemma DeliverKeeps(frames: seq<Frame>, stream: seq<byte>, l: Link, h: History, k: nat) returns (h': History)
    requires Inv(frames, stream, l, h) && k in l.transit
    ensures Inv(frames, stream, AfterDeliver(l, k), h') && h'.ends == h.ends && h'.wired == h.wired + [k]
  {
    DeliverPlaced(h.ends.Keys, l.transit, h.wired, h.got, h.rank, k);
    DeliverWire(stream, h.ends, l.sender.offset, l.receiver.outer, l.wire, h.wired, k);
    h' := h.(wired := h.wired + [k], rank := h.rank[k := |h.got| + |h.wired|]);
  }

  lemma ReadKeeps(frames: seq<Frame>, stream: seq<byte>, l: Link, h: History, n: nat)
    requires Inv(frames, stream, l, h) && n <= |l.wire|
    ensures Inv(frames, stream, AfterRead(l, n), h)
  {
    Associate(l.receiver.outer, l.wire[..n], l.wire[n..]);
    SplitAt(l.wire, n);
  }

  lemma SplitAt(b: seq<byte>, n: nat)
    requires n <= |b|
    ensures b == b[..n] + b[n..]
  {
  }

  // ---- Receiving -----------------------------------------------------------------------------

  /** The inner stream only ever yields the next frame that was sent. */
  lemma InnerYieldsNext(frames: seq<Frame>, output: seq<Frame>, inner: seq<byte>, rest: seq<byte>)
    requires Sendable(frames) && OutputOk(frames, output, inner, rest)
    ensures match ParseFrame(inner)
      case Malformed(_) => false
      case Incomplete => rest == [] ==> output == frames
      case Parsed(f, n) => f.kind != FRAGMENT && OutputOk(frames, output + [f], inner[n..], rest)
  {
    var k := |output|;
    if k == |frames| {
      assert inner == [];
    } else {
      assert frames[k..][1..] == frames[k + 1..];
      HeadOfStream(frames[k], EncodeAll(frames[k + 1..]), inner, rest);
    }
  }

  /** The part of a frame stream that has arrived yields the frame at its head or nothing. */
  lemma HeadOfStream(f: Frame, later: seq<byte>, arrived: seq<byte>, coming: seq<byte>)
    requires Encodable(f) && Encode(f) + later == arrived + coming
    ensures match ParseFrame(arrived)
      case Malformed(_) => false
      case Incomplete => coming != []
      case Parsed(g, n) => g == f && later == arrived[n..] + coming
  {
    ParseInvertsEncode(arrived + coming, f);
    if ParseFrame(arrived).Incomplete? {
      assert coming == [] ==> arrived + coming == arrived;
    } else {
      ParseIsStable(arrived, coming);
      DropAcross(Encode(f), later, arrived, coming);
    }
  }

  lemma DropAcross(a: seq<byte>, b: seq<byte>, c: seq<byte>, d: seq<byte>)
    requires a + b == c + d && |a| <= |c|
    ensures b == c[|a|..] + d
  {
    assert b == (a + b)[|a|..];
    assert (c + d)[|a|..] == c[|a|..] + d;
  }

  /** The outer stream only ever yields the fragment at its head. */
  lemma {:induction false} OuterYieldsHead(stream: seq<byte>, ends: map<nat, nat>, sent: nat, wired: seq<nat>,
                                           outer: seq<byte>, wire: seq<byte>)
    requires Tiles(ends, sent) && sent <= |stream| && forall j :: 0 <= j < |wired| ==> wired[j] in ends
    requires outer + wire == Packets(stream, ends, sent, wired)
    ensures match ParseFrame(outer)
      case Malformed(_) => false
      case Incomplete => wire == [] ==> wired == []
      case Parsed(f, n) =>
        && wired != []
        && f == PieceFrame(stream, wired[0], ends[wired[0]])
        && outer[n..] + wire == Packets(stream, ends, sent, wired[1..])
  {
    assert ParseFrame([]).Incomplete?;
    hide ParseFrame;
    if wired == [] {
      assert outer == [];
    } else {
      var f := PieceFrame(stream, wired[0], ends[wired[0]]);
      HeadOfStream(f, Packets(stream, ends, sent, wired[1..]), outer, wire);
    }
  }

  lemma TakePiece(stream: seq<byte>, ends: map<nat, nat>, sent: nat, got: set<nat>, r: Reassembly)
    requires Tiles(ends, sent) && StoreOk(stream, ends, sent, got, r) && CanTake(r)
    ensures r.at in ends && r.at <= ends[r.at] <= |stream|
    ensures r.stored[r.at] == stream[r.at..ends[r.at]] && Take(r).at == ends[r.at]
    ensures StoreOk(stream, ends, sent, got, Take(r))
  {
    var end := ends[r.at];
    assert Boundary(ends, sent, end);
    forall k | k in ends && k < end
      ensures k in got && ends[k] <= end
    {
      assert k == r.at || k < r.at;
    }
    forall k | k in Take(r).stored
      ensures end <= k
    {
      assert ends[r.at] <= k;
    }
  }

  lemma TakeOutput(frames: seq<Frame>, output: seq<Frame>, inner: seq<byte>, stream: seq<byte>, at: nat, end: nat)
    requires at <= end <= |stream| && OutputOk(frames, output, inner, stream[at..])
    ensures OutputOk(frames, output, inner + stream[at..end], stream[end..])
  {
    assert stream[at..] == stream[at..end] + stream[end..];
    Associate(inner, stream[at..end], stream[end..]);
  }

  lemma PayloadParts(at: nat, data: seq<byte>)
    requires at <= U64_MAX
    ensures var payload := BigEndian(at, OFFSET_SIZE) + data;
      FromBigEndian(payload[..OFFSET_SIZE]) == at && payload[OFFSET_SIZE..] == data
  {
    var payload := BigEndian(at, OFFSET_SIZE) + data;
    assert Power256(4) == 4294967296;
    assert Power256(8) == 256 * (256 * (256 * (256 * Power256(4))));
    ReadAppended(at, OFFSET_SIZE);
    assert payload[..OFFSET_SIZE] == BigEndian(at, OFFSET_SIZE);
  }

  /** A piece delivered once overlaps nothing that is stored. */
  lemma PieceIsApart(stream: seq<byte>, ends: map<nat, nat>, sent: nat, got: set<nat>, r: Reassembly, k: nat)
    requires Tiles(ends, sent) && StoreOk(stream, ends, sent, got, r) && k in ends && k !in got
    ensures r.at <= k && !OverlapsAny(r.stored, k, ends[k] - k)
  {
    forall j | j in r.stored
      ensures !Overlap(k, ends[k] - k, j, |r.stored[j]|)
    {
      assert ends[j] <= k || ends[k] <= j;
    }
  }

  predicate PieceFits(end: nat, r: Reassembly) {
    end <= r.at + MAXIMUM_WINDOW && |r.stored| < MAXIMUM_FRAGMENTS
  }

  /**
    * A piece delivered once is rejected exactly when it ends beyond the window or the store is full; it never overlaps
    * and is never invalid.
    */
  lemma PieceIsAccepted(stream: seq<byte>, ends: map<nat, nat>, sent: nat, got: set<nat>, r: Reassembly, k: nat)
    requires Tiles(ends, sent) && sent <= |stream| && sent <= U64_MAX
    requires StoreOk(stream, ends, sent, got, r) && k in ends && k !in got
    ensures match Accept(r, PieceFrame(stream, k, ends[k]).payload)
      case Rejected(e) => e == WindowExceeded && WindowFull(sent, r) && !PieceFits(ends[k], r)
      case Accepted(r') => PieceFits(ends[k], r) && r' == Reassembly(r.at, r.stored[k := stream[k..ends[k]]])
  {
    PayloadParts(k, stream[k..ends[k]]);
    PieceIsApart(stream, ends, sent, got, r, k);
  }

  lemma AcceptStore(stream: seq<byte>, ends: map<nat, nat>, sent: nat, got: set<nat>, r: Reassembly, k: nat)
    requires Tiles(ends, sent) && sent <= |stream|
    requires StoreOk(stream, ends, sent, got, r) && k in ends && k !in got
    ensures StoreOk(stream, ends, sent, got + {k}, Reassembly(r.at, r.stored[k := stream[k..ends[k]]]))
  {
  }

  lemma AcceptPlaced(pieces: set<nat>, flying: set<nat>, wired: seq<nat>, got: set<nat>, rank: map<nat, nat>)
    requires Placed(pieces, flying, wired, got, rank) && wired != []
    ensures wired[0] !in got && Placed(pieces, flying, wired[1..], got + {wired[0]}, rank)
  {
    var rest := wired[1..];
    assert forall j :: 0 <= j < |rest| ==> rest[j] == wired[j + 1];
    assert |got + {wired[0]}| == |got| + 1;
  }

  /** While a piece is still to be parsed, fewer are stored than were cut. */
  lemma StoredAreFewer(stream: seq<byte>, ends: map<nat, nat>, sent: nat, got: set<nat>, r: Reassembly, k: nat)
    requires StoreOk(stream, ends, sent, got, r) && got <= ends.Keys && k in ends && k !in got
    ensures |r.stored| < |ends|
  {
    assert r.stored.Keys <= got;
    SmallerSet(r.stored.Keys, got);
    SmallerSet(got, ends.Keys - {k});
    assert |r.stored.Keys| == |r.stored| && |ends.Keys| == |ends|;
  }

  lemma SmallerSet(a: set<nat>, b: set<nat>)
    requires a <= b
    ensures |a| <= |b|
  {
    assert b == a + (b - a);
  }

  lemma EmitKeeps(frames: seq<Frame>, stream: seq<byte>, l: Link, h: History)
    requires Sendable(frames) && Inv(frames, stream, l, h) && ParseFrame(l.receiver.inner).Parsed?
    ensures Inv(frames, stream, AfterMove(l, D.Step(l.receiver)), h)
  {
    InnerYieldsNext(frames, l.output, l.receiver.inner, stream[l.receiver.reassembly.at..]);
    var p := ParseFrame(l.receiver.inner);
    assert AfterMove(l, D.Step(l.receiver)) ==
           l.(receiver := l.receiver.(inner := l.receiver.inner[p.size..]), output := l.output + [p.frame]);
  }

  lemma TakeKeeps(frames: seq<Frame>, stream: seq<byte>, l: Link, h: History)
    requires Inv(frames, stream, l, h) && ParseFrame(l.receiver.inner).Incomplete? && CanTake(l.receiver.reassembly)
    ensures Inv(frames, stream, AfterMove(l, D.Step(l.receiver)), h)
  {
    var r := l.receiver.reassembly;
    TakePiece(stream, h.ends, l.sender.offset, h.got, r);
    var end := h.ends[r.at];
    TakeOutput(frames, l.output, l.receiver.inner, stream, r.at, end);
    assert AfterMove(l, D.Step(l.receiver)) ==
           l.(receiver := l.receiver.(reassembly := Take(r), inner := l.receiver.inner + stream[r.at..end]));
  }

  lemma {:induction false} FragmentKeeps(frames: seq<Frame>, stream: seq<byte>, l: Link, h: History)
    returns (h': History)
    requires Inv(frames, stream, l, h) && ParseFrame(l.receiver.outer).Parsed?
    ensures match D.OuterStep(l.receiver)
      case Fault(e, t) =>
        && e == D.BadFragment(WindowExceeded) && WindowFull(l.sender.offset, t.reassembly)
        && |t.reassembly.stored| < |h.ends|
      case m => m.Advance? && Inv(frames, stream, AfterMove(l, m), h') && h'.ends == h.ends
  {
    hide ParseFrame, Packets;
    var r, p := l.receiver.reassembly, ParseFrame(l.receiver.outer);
    OuterYieldsHead(stream, h.ends, l.sender.offset, h.wired, l.receiver.outer, l.wire);
    var k := h.wired[0];
    AcceptPlaced(h.ends.Keys, l.transit.Keys, h.wired, h.got, h.rank);
    PieceIsAccepted(stream, h.ends, l.sender.offset, h.got, r, k);
    AcceptStore(stream, h.ends, l.sender.offset, h.got, r, k);
    StoredAreFewer(stream, h.ends, l.sender.offset, h.got, r, k);
    h' := h.(wired := h.wired[1..], got := h.got + {k});
    match Accept(r, p.frame.payload)
    case Rejected(_) =>
    case Accepted(r') =>
      assert AfterMove(l, D.OuterStep(l.receiver)) ==
             l.(receiver := D.State(l.receiver.outer[p.size..], r', l.receiver.inner, true));
  }

  lemma StepKeeps(frames: seq<Frame>, stream: seq<byte>, l: Link, h: History) returns (h': History)
    requires Sendable(frames) && Inv(frames, stream, l, h)
    ensures match D.Step(l.receiver)
      case Fault(e, t) =>
        && e == D.BadFragment(WindowExceeded) && WindowFull(l.sender.offset, t.reassembly)
        && |t.reassembly.stored| < |h.ends|
      case m => Inv(frames, stream, AfterMove(l, m), h') && h'.ends == h.ends
  {
    h' := h;
    InnerYieldsNext(frames, l.output, l.receiver.inner, stream[l.receiver.reassembly.at..]);
    OuterYieldsHead(stream, h.ends, l.sender.offset, h.wired, l.receiver.outer, l.wire);
    if ParseFrame(l.receiver.inner).Parsed? {
      EmitKeeps(frames, stream, l, h);
    } else if CanTake(l.receiver.reassembly) {
      TakeKeeps(frames, stream, l, h);
    } else if ParseFrame(l.receiver.outer).Parsed? {
      h' := FragmentKeeps(frames, stream, l, h);
    } else {
      assert AfterMove(l, D.Step(l.receiver)) == l;
    }
  }

  lemma {:induction false} DecodeKeeps(frames: seq<Frame>, stream: seq<byte>, l: Link, h: History) returns (h': History)
    requires Sendable(frames) && Inv(frames, stream, l, h)
    ensures match D.Next(l.receiver)
      case Fault(e, t) =>
        && e == D.BadFragment(WindowExceeded) && WindowFull(l.sender.offset, t.reassembly)
        && |t.reassembly.stored| < |h.ends|
      case m => Inv(frames, stream, AfterMove(l, m), h') && h'.ends == h.ends
    decreases |l.receiver.outer|, |l.receiver.reassembly.stored|
  {
    h' := StepKeeps(frames, stream, l, h);
    match D.Step(l.receiver)
    case Advance(t) =>
      D.AdvanceShrinks(l.receiver);
      h' := DecodeKeeps(frames, stream, l.(receiver := t), h');
      assert AfterMove(l.(receiver := t), D.Next(t)) == AfterMove(l, D.Next(t));
    case _ =>
  }

  // ---- Runs ----------------------------------------------------------------------------------

  lemma EventKeeps(frames: seq<Frame>, stream: seq<byte>, l: Link, h: History, e: Event) returns (h': History)
    requires Sendable(frames) && Enabled(stream, l, e)
    requires Safe(frames, l) && (l.failure.None? ==> Inv(frames, stream, l, h))
    ensures var l' := After(stream, l, e);
      && Safe(frames, l') && (l'.failure.None? ==> Inv(frames, stream, l', h'))
      && (l'.failure.None? ==> |h'.ends| <= |h.ends| + (if e.Cut? then 1 else 0))
  {
    h' := h;
    if l.failure.None? {
      match e
      case Queue(n) => QueueKeeps(frames, stream, l, h, n);
      case Cut(capacity) => h' := CutKeeps(frames, stream, l, h, capacity);
      case Deliver(k) => h' := DeliverKeeps(frames, stream, l, h, k);
      case Read(n) => ReadKeeps(frames, stream, l, h, n);
      case Decode => h' := DecodeKeeps(frames, stream, l, h);
    }
  }

  function Cuts(events: seq<Event>): nat {
    if events == [] then 0 else (if events[0].Cut? then 1 else 0) + Cuts(events[1..])
  }

  /** A failed connection stays failed. */
  lemma {:induction false} FailureStays(stream: seq<byte>, l: Link, events: seq<Event>, last: Link)
    requires Reaches(stream, l, events, last) && l.failure.Some?
    ensures last.failure.Some?
    decreases |events|
  {
    if events != [] {
      FailureStays(stream, After(stream, l, events[0]), events[1..], last);
    }
  }

  lemma {:induction false} RunKeeps(frames: seq<Frame>, stream: seq<byte>, l: Link, h: History,
                                    events: seq<Event>, last: Link) returns (h': History)
    requires Sendable(frames) && Reaches(stream, l, events, last)
    requires Safe(frames, l) && (l.failure.None? ==> Inv(frames, stream, l, h))
    ensures Safe(frames, last) && (last.failure.None? ==> Inv(frames, stream, last, h'))
    ensures last.failure.None? ==> |h'.ends| <= |h.ends| + Cuts(events)
    decreases |events|
  {
    h' := h;
    if events != [] {
      var next := After(stream, l, events[0]);
      h' := EventKeeps(frames, stream, l, h, events[0]);
      if next.failure.Some? {
        FailureStays(stream, next, events[1..], last);
      }
      h' := RunKeeps(frames, stream, next, h', events[1..], last);
    }
  }

  /**
    * On every run the frames returned so far are a prefix of the frames sent, and a full reassembly window is the only
    * thing that can end the connection.
    */
  lemma OutputIsPrefix(frames: seq<Frame>, events: seq<Event>, last: Link)
    requires Sendable(frames) && Reaches(EncodeAll(frames), INITIAL, events, last)
    ensures last.output <= frames
    ensures last.failure.Some? ==>
      && last.failure.value == D.BadFragment(WindowExceeded)
      && WindowFull(last.sender.offset, last.receiver.reassembly)
  {
    var h := InitiallyInv(frames, EncodeAll(frames));
    h := RunKeeps(frames, EncodeAll(frames), INITIAL, h, events, last);
  }

  /** Everything was queued, cut, delivered and read, and the decoder has nothing more to say. */
  ghost predicate Finished(stream: seq<byte>, l: Link) {
    && l.failure.None?
    && l.queued == |stream| && l.sender.pending == []
    && l.transit == map[] && l.wire == []
    && D.Step(l.receiver).Idle?
  }

  /** A finished run has returned exactly the frames sent, whatever the pieces, capacities, order and chunks were. */
  lemma FinishedIsComplete(frames: seq<Frame>, events: seq<Event>, last: Link)
    requires Sendable(frames) && Reaches(EncodeAll(frames), INITIAL, events, last)
    requires Finished(EncodeAll(frames), last)
    ensures last.output == frames
  {
    var stream := EncodeAll(frames);
    var h := InitiallyInv(frames, stream);
    h := RunKeeps(frames, stream, INITIAL, h, events, last);
    NothingLeft(frames, stream, last, h);
  }

  lemma NothingLeft(frames: seq<Frame>, stream: seq<byte>, l: Link, h: History)
    requires Sendable(frames) && Inv(frames, stream, l, h) && Finished(stream, l)
    ensures l.output == frames
  {
    OuterYieldsHead(stream, h.ends, l.sender.offset, h.wired, l.receiver.outer, l.wire);
    SameSet(h.got, h.ends.Keys);
    AllRead(stream, l.sender, l.queued, h.ends, h.got, l.receiver.reassembly);
    InnerYieldsNext(frames, l.output, l.receiver.inner, stream[l.receiver.reassembly.at..]);
  }

  lemma AllRead(stream: seq<byte>, sender: Outgoing, queued: nat, ends: map<nat, nat>, got: set<nat>, r: Reassembly)
    requires SenderOk(stream, sender, queued) && queued == |stream| && sender.pending == []
    requires StoreOk(stream, ends, sender.offset, got, r) && !CanTake(r) && got == ends.Keys
    ensures r.at == |stream|
  {
  }

  lemma SameSet(a: set<nat>, b: set<nat>)
    requires a <= b && |a| == |b|
    ensures a == b
  {
    assert |b - a| == |b| - |a|;
  }

  /** No run of a stream that fits the window, cut into no more pieces than can be stored, ever fails. */
  lemma {:induction false} SmallStreamNeverFails(frames: seq<Frame>, events: seq<Event>, last: Link)
    requires Sendable(frames) && Reaches(EncodeAll(frames), INITIAL, events, last)
    requires |EncodeAll(frames)| <= MAXIMUM_WINDOW && Cuts(events) <= MAXIMUM_FRAGMENTS
    ensures last.failure.None?
  {
    var h := InitiallyInv(frames, EncodeAll(frames));
    SmallRunNeverFails(frames, EncodeAll(frames), INITIAL, h, events, last);
  }

  lemma {:induction false} SmallRunNeverFails(frames: seq<Frame>, stream: seq<byte>, l: Link, h: History,
                                              events: seq<Event>, last: Link)
    requires Sendable(frames) && Inv(frames, stream, l, h) && Reaches(stream, l, events, last)
    requires |stream| <= MAXIMUM_WINDOW && |h.ends| + Cuts(events) <= MAXIMUM_FRAGMENTS
    ensures last.failure.None?
    decreases |events|
  {
    if events != [] {
      var next := After(stream, l, events[0]);
      var h1 := SmallStepNeverFails(frames, stream, l, h, events[0]);
      SmallRunNeverFails(frames, stream, next, h1, events[1..], last);
    }
  }

  lemma SmallStepNeverFails(frames: seq<Frame>, stream: seq<byte>, l: Link, h: History, e: Event) returns (h': History)
    requires Sendable(frames) && Inv(frames, stream, l, h) && Enabled(stream, l, e)
    requires |stream| <= MAXIMUM_WINDOW && |h.ends| <= MAXIMUM_FRAGMENTS
    ensures Inv(frames, stream, After(stream, l, e), h') && |h'.ends| <= |h.ends| + (if e.Cut? then 1 else 0)
  {
    Unfailed(frames, stream, l, h);
    h' := EventKeeps(frames, stream, l, h, e);
    if e.Decode? {
      var h1 := DecodeKeeps(frames, stream, l, h);
    }
  }

  lemma Unfailed(frames: seq<Frame>, stream: seq<byte>, l: Link, h: History)
    requires Inv(frames, stream, l, h)
    ensures l.failure.None? && |l.output| <= |frames| && Safe(frames, l)
  {
  }
}
