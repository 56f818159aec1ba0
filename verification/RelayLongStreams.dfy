/** Streams of any length: exactly when a run of `RelaySystem` that has caught up can still finish. */
module RelayLongStreams {
  import opened Bytes
  import opened Frames
  import opened PacketFraming
  import opened RelaySystem
  import opened RelayEndToEnd
  import opened RelayProgress
  import D = Decoder

  /** Everything delivered has been read and decoded. */
  ghost predicate CaughtUp(l: Link) {
    l.failure.None? && l.wire == [] && D.Step(l.receiver).Idle?
  }

  lemma CaughtUpFacts(frames: seq<Frame>, stream: seq<byte>, l: Link, h: History)
    requires Inv(frames, stream, l, h) && CaughtUp(l)
    ensures h.wired == [] && l.receiver.outer == []
    ensures ParseFrame(l.receiver.inner).Incomplete? && !CanTake(l.receiver.reassembly)
    ensures l.transit.Keys + h.got == h.ends.Keys
  {
    OuterYieldsHead(stream, h.ends, l.sender.offset, h.wired, l.receiver.outer, l.wire);
    hide ParseFrame;
    assert l.receiver.outer + [] == l.receiver.outer;
    assert |l.transit.Keys + h.got| == |l.transit.Keys| + |h.got|;
    SameSet(l.transit.Keys + h.got, h.ends.Keys);
  }

  // ---- Decoding what is stored ---------------------------------------------------------------

  /** Nothing was taken from the store, or the fragment at the read offset first. */
  predicate TakenFrom(r: Reassembly, t: Reassembly) {
    t == r || (CanTake(r) && r.at + |r.stored[r.at]| <= t.at && |t.stored| < |r.stored|)
  }

  /** Without outer octets a call of `Next` can only take stored fragments, in order. */
  lemma {:induction false} NextOnlyTakes(s: D.State)
    requires s.outer == []
    ensures D.Next(s).next.outer == [] && TakenFrom(s.reassembly, D.Next(s).next.reassembly)
    ensures D.Next(s).Fault? ==> D.Next(s).error != D.BadFragment(WindowExceeded)
    decreases |s.reassembly.stored|
  {
    assert ParseFrame([]).Incomplete?;
    hide ParseFrame, Accept;
    match D.Step(s)
    case Advance(t) =>
      OneFewer(s.reassembly.stored, s.reassembly.at);
      NextOnlyTakes(t);
    case _ =>
  }

  /** Decoding until nothing more comes, with nothing left to read. */
  lemma {:induction false} Settle(frames: seq<Frame>, stream: seq<byte>, l: Link, h: History)
    returns (run: seq<Event>, last: Link, h': History)
    requires Sendable(frames) && Inv(frames, stream, l, h) && l.wire == [] && l.receiver.outer == []
    ensures run != [] && run[0] == Decode && Reaches(stream, l, run, last)
    ensures Inv(frames, stream, last, h') && CaughtUp(last)
    ensures TakenFrom(l.receiver.reassembly, last.receiver.reassembly)
    decreases |frames| - |l.output|
  {
    hide Inv, D.Next, D.Step, Reaches;
    var next := AfterMove(l, D.Next(l.receiver));
    NextOnlyTakes(l.receiver);
    h' := DecodeKeeps(frames, stream, l, h);
    D.IdleStays(l.receiver);
    Unfailed(frames, stream, l, h);
    Unfailed(frames, stream, next, h');
    if D.Next(l.receiver).Emit? {
      var rest: seq<Event>;
      rest, last, h' := Settle(frames, stream, next, h');
      Prepend(stream, l, Decode, rest, last);
      run := [Decode] + rest;
    } else {
      OneEvent(stream, l, Decode);
      run, last := [Decode], next;
    }
  }

  // ---- One piece further ---------------------------------------------------------------------

  /** The piece that the receiver waits for is in transit, or can be cut. */
  lemma NextPiece(frames: seq<Frame>, stream: seq<byte>, l: Link, h: History)
    returns (run: seq<Event>, last: Link, h': History)
    requires Inv(frames, stream, l, h) && CaughtUp(l) && l.receiver.reassembly.at < |stream| <= U64_MAX
    ensures Reaches(stream, l, run, last) && Inv(frames, stream, last, h') && CaughtUp(last)
    ensures last.receiver == l.receiver && l.receiver.reassembly.at in last.transit
  {
    CaughtUpFacts(frames, stream, l, h);
    WaitedFor(frames, stream, l, h);
    hide Inv, D.Step, ParseFrame;
    var at := l.receiver.reassembly.at;
    if at < l.sender.offset {
      run, last, h' := [], l, h;
    } else {
      var r1, u := QueueSome(frames, stream, l, h);
      QueuedStill(frames, stream, u, h);
      last := AfterCut(u, MAXIMUM_ENCODED);
      h' := CutKeeps(frames, stream, u, h, MAXIMUM_ENCODED);
      OneEvent(stream, u, Cut(MAXIMUM_ENCODED));
      Concat(stream, l, r1, u, [Cut(MAXIMUM_ENCODED)], last);
      run := r1 + [Cut(MAXIMUM_ENCODED)];
    }
  }

  lemma WaitedFor(frames: seq<Frame>, stream: seq<byte>, l: Link, h: History)
    requires Inv(frames, stream, l, h) && !CanTake(l.receiver.reassembly) && l.transit.Keys + h.got == h.ends.Keys
    ensures var at := l.receiver.reassembly.at;
      at <= l.sender.offset && (at < l.sender.offset ==> at in l.transit)
  {
    var at := l.receiver.reassembly.at;
    if at < l.sender.offset {
      assert at in h.ends && at !in h.got;
      assert at in h.ends.Keys;
    }
  }

  /** When everything cut has been read, there is something pending, or something to queue. */
  lemma QueueSome(frames: seq<Frame>, stream: seq<byte>, l: Link, h: History) returns (run: seq<Event>, u: Link)
    requires Inv(frames, stream, l, h) && CaughtUp(l) && l.sender.offset == l.receiver.reassembly.at < |stream|
    ensures Reaches(stream, l, run, u) && Inv(frames, stream, u, h) && CaughtUp(u)
    ensures u.receiver == l.receiver && u.sender.offset == l.sender.offset && u.sender.pending != []
  {
    if l.sender.pending != [] {
      run, u := [], l;
    } else {
      var n := Min(|stream| - l.queued, MAXIMUM_PENDING);
      QueueKeeps(frames, stream, l, h, n);
      OneEvent(stream, l, Queue(n));
      run, u := [Queue(n)], AfterQueue(stream, l, n);
    }
  }

  lemma QueuedStill(frames: seq<Frame>, stream: seq<byte>, l: Link, h: History)
    requires Inv(frames, stream, l, h) && l.sender.pending != [] && |stream| <= U64_MAX
    ensures CutNext(l.sender, MAXIMUM_ENCODED).Packet?
  {
  }

  /** The piece at the read offset is accepted as long as the store is not full. */
  lemma HeadAccepted(frames: seq<Frame>, stream: seq<byte>, l: Link, h: History, k: nat)
    requires Inv(frames, stream, l, h) && l.wire == [] && h.wired == [k] && k == l.receiver.reassembly.at
    requires ParseFrame(l.receiver.inner).Incomplete? && !CanTake(l.receiver.reassembly)
    requires |l.receiver.reassembly.stored| < MAXIMUM_FRAGMENTS
    ensures ParseFrame(l.receiver.outer).Parsed? && D.Step(l.receiver).Advance?
    ensures D.Step(l.receiver) == D.OuterStep(l.receiver)
    ensures var t, r := D.Step(l.receiver).next, l.receiver.reassembly;
      && t.outer == [] && CanTake(t.reassembly) && t.reassembly.at == r.at
      && |t.reassembly.stored| == |r.stored| + 1 && |t.reassembly.stored[r.at]| > 0
  {
    var r := l.receiver.reassembly;
    OuterYieldsHead(stream, h.ends, l.sender.offset, h.wired, l.receiver.outer, l.wire);
    hide ParseFrame;
    AcceptPlaced(h.ends.Keys, l.transit.Keys, h.wired, h.got, h.rank);
    PieceIsAccepted(stream, h.ends, l.sender.offset, h.got, r, k);
    hide Accept;
    assert [k][1..] == [];
    var p := ParseFrame(l.receiver.outer);
    assert l.receiver.outer[p.size..] + [] == l.receiver.outer[p.size..];
    OneMore(r.stored, k, stream[k..h.ends[k]]);
  }

  lemma OneMore(stored: map<nat, seq<byte>>, k: nat, data: seq<byte>)
    requires k !in stored
    ensures |stored[k := data]| == |stored| + 1
  {
    assert stored[k := data].Keys == stored.Keys + {k};
    assert |stored.Keys| == |stored| && |stored[k := data].Keys| == |stored[k := data]|;
  }

  /** Delivering the piece that the receiver waits for, reading all of it and decoding moves the read offset. */
  lemma Round(frames: seq<Frame>, stream: seq<byte>, l: Link, h: History)
    returns (run: seq<Event>, last: Link, h': History)
    requires Sendable(frames) && Inv(frames, stream, l, h) && CaughtUp(l)
    requires l.receiver.reassembly.at < |stream| <= U64_MAX && |l.receiver.reassembly.stored| < MAXIMUM_FRAGMENTS
    ensures Reaches(stream, l, run, last) && Inv(frames, stream, last, h') && CaughtUp(last)
    ensures l.receiver.reassembly.at < last.receiver.reassembly.at
    ensures |last.receiver.reassembly.stored| < MAXIMUM_FRAGMENTS
  {
    hide Inv, Reaches, Sendable;
    var k := l.receiver.reassembly.at;
    var r1, u, h1 := NextPiece(frames, stream, l, h);
    var r2, v, h2 := ReadPiece(frames, stream, u, h1, k);
    HeadAccepted(frames, stream, v, h2, k);
    var h3 := FragmentKeeps(frames, stream, v, h2);
    var w := AfterMove(v, D.Step(v.receiver));
    var r3: seq<Event>;
    r3, last, h' := Settle(frames, stream, w, h3);
    Unfailed(frames, stream, v, h2);
    SameDecode(stream, v, w, r3, last);
    CaughtUpFacts(frames, stream, last, h');
    Concat(stream, l, r1, u, r2, v);
    Concat(stream, l, r1 + r2, v, r3, last);
    run := r1 + r2 + r3;
  }

  /** A silent turn makes no difference to the call it is part of. */
  lemma SameDecode(stream: seq<byte>, v: Link, w: Link, run: seq<Event>, last: Link)
    requires v.failure.None? && D.Step(v.receiver).Advance? && w == AfterMove(v, D.Step(v.receiver))
    requires run != [] && run[0] == Decode && Reaches(stream, w, run, last)
    ensures Reaches(stream, v, run, last)
  {
    hide D.Step;
    assert D.Next(v.receiver) == D.Next(w.receiver);
    assert After(stream, v, Decode) == After(stream, w, Decode);
  }

  lemma ReadPiece(frames: seq<Frame>, stream: seq<byte>, l: Link, h: History, k: nat)
    returns (run: seq<Event>, v: Link, h': History)
    requires Inv(frames, stream, l, h) && CaughtUp(l) && k in l.transit
    ensures Reaches(stream, l, run, v) && Inv(frames, stream, v, h')
    ensures v.wire == [] && h'.wired == [k]
    ensures v.receiver.reassembly == l.receiver.reassembly && v.receiver.inner == l.receiver.inner
    ensures ParseFrame(v.receiver.inner).Incomplete? && !CanTake(v.receiver.reassembly)
  {
    hide Inv, D.Step, ParseFrame, Reaches;
    CaughtUpFacts(frames, stream, l, h);
    PieceSize(frames, stream, l, h, k);
    var u := AfterDeliver(l, k);
    h' := DeliverKeeps(frames, stream, l, h, k);
    assert [] + [k] == [k] && [] + l.transit[k] == l.transit[k];
    ReadKeeps(frames, stream, u, h', |u.wire|);
    v := AfterRead(u, |u.wire|);
    OneEvent(stream, u, Read(|u.wire|));
    Prepend(stream, l, Deliver(k), [Read(|u.wire|)], v);
    run := [Deliver(k)] + [Read(|u.wire|)];
  }

  lemma PieceSize(frames: seq<Frame>, stream: seq<byte>, l: Link, h: History, k: nat)
    requires Inv(frames, stream, l, h) && k in l.transit
    ensures |l.transit[k]| <= MAXIMUM_ENCODED
  {
  }

  // ---- Exactly -------------------------------------------------------------------------------

  lemma {:induction false} GoOn(frames: seq<Frame>, stream: seq<byte>, l: Link, h: History)
    returns (run: seq<Event>, last: Link)
    requires Sendable(frames) && Inv(frames, stream, l, h) && CaughtUp(l) && |stream| <= U64_MAX
    requires |l.receiver.reassembly.stored| < MAXIMUM_FRAGMENTS
    ensures Reaches(stream, l, run, last) && Finished(stream, last)
    decreases |stream| - l.receiver.reassembly.at
  {
    ReadOffset(frames, stream, l, h);
    hide Inv, D.Step;
    if l.receiver.reassembly.at == |stream| {
      run, last := [], l;
    } else {
      var r1, u, h1 := Round(frames, stream, l, h);
      ReadOffset(frames, stream, u, h1);
      var r2: seq<Event>;
      r2, last := GoOn(frames, stream, u, h1);
      Concat(stream, l, r1, u, r2, last);
      run := r1 + r2;
    }
  }

  lemma ReadOffset(frames: seq<Frame>, stream: seq<byte>, l: Link, h: History)
    requires Inv(frames, stream, l, h) && CaughtUp(l)
    ensures l.receiver.reassembly.at <= |stream|
    ensures l.receiver.reassembly.at == |stream| ==> Finished(stream, l)
  {
    CaughtUpFacts(frames, stream, l, h);
    if l.receiver.reassembly.at == |stream| {
      assert h.got == h.ends.Keys;
      assert l.transit.Keys == {};
    }
  }

  /**
    * Whatever the length of the stream: once everything delivered has been read and decoded, the run can be completed,
    * with exactly the frames sent, when fewer than 4096 fragments are stored.
    */
  lemma CaughtUpCanFinish(frames: seq<Frame>, events: seq<Event>, l: Link) returns (run: seq<Event>, last: Link)
    requires Sendable(frames) && Reaches(EncodeAll(frames), INITIAL, events, l) && CaughtUp(l)
    requires |EncodeAll(frames)| <= U64_MAX && |l.receiver.reassembly.stored| < MAXIMUM_FRAGMENTS
    ensures Reaches(EncodeAll(frames), l, run, last) && Finished(EncodeAll(frames), last) && last.output == frames
  {
    hide Inv, EncodeAll, Sendable, Finished, Reaches;
    var stream := EncodeAll(frames);
    Origin(frames);
    var h := InitiallyInv(frames, stream);
    h := RunKeeps(frames, stream, INITIAL, h, events, l);
    run, last := GoOn(frames, stream, l, h);
    Concat(stream, INITIAL, events, l, run, last);
    FinishedIsComplete(frames, events + run, last);
  }

  /** The receiver has failed, or waits before a full store. */
  ghost predicate Stuck(l: Link, r: Reassembly, inner: seq<byte>) {
    l.failure.Some? || (l.receiver.reassembly == r && l.receiver.inner == inner)
  }

  lemma StaysStuck(stream: seq<byte>, l: Link, e: Event, r: Reassembly, inner: seq<byte>)
    requires Enabled(stream, l, e) && Stuck(l, r, inner)
    requires |r.stored| >= MAXIMUM_FRAGMENTS && !CanTake(r) && ParseFrame(inner).Incomplete?
    ensures Stuck(After(stream, l, e), r, inner)
  {
    hide ParseFrame;
    if e.Decode? {
      assert D.Step(l.receiver) == D.OuterStep(l.receiver) && !D.OuterStep(l.receiver).Advance?;
    }
  }

  lemma {:induction false} RunStaysStuck(stream: seq<byte>, l: Link, run: seq<Event>, last: Link,
                                         r: Reassembly, inner: seq<byte>)
    requires Reaches(stream, l, run, last) && Stuck(l, r, inner)
    requires |r.stored| >= MAXIMUM_FRAGMENTS && !CanTake(r) && ParseFrame(inner).Incomplete?
    ensures Stuck(last, r, inner)
    decreases |run|
  {
    hide Enabled, After, Stuck, ParseFrame;
    if run != [] {
      StaysStuck(stream, l, run[0], r, inner);
      RunStaysStuck(stream, After(stream, l, run[0]), run[1..], last, r, inner);
    }
  }

  lemma FinishedUnfailed(stream: seq<byte>, l: Link)
    ensures Finished(stream, l) ==> l.failure.None?
  {
  }

  lemma NothingStored(frames: seq<Frame>, stream: seq<byte>, l: Link, h: History)
    requires Inv(frames, stream, l, h) && Finished(stream, l)
    ensures l.failure.None? && l.receiver.reassembly.stored == map[]
  {
    CaughtUpFacts(frames, stream, l, h);
    AllRead(stream, l.sender, l.queued, h.ends, h.got, l.receiver.reassembly);
  }

  /** And only then: before a full store even the piece that is waited for is rejected, so no continuation finishes. */
  lemma FullStoreNeverFinishes(frames: seq<Frame>, events: seq<Event>, l: Link, run: seq<Event>, last: Link)
    requires Sendable(frames) && Reaches(EncodeAll(frames), INITIAL, events, l) && CaughtUp(l)
    requires |l.receiver.reassembly.stored| >= MAXIMUM_FRAGMENTS && Reaches(EncodeAll(frames), l, run, last)
    ensures !Finished(EncodeAll(frames), last)
  {
    hide Inv, EncodeAll, Sendable, Reaches, ParseFrame, D.Step, Finished;
    var stream := EncodeAll(frames);
    Origin(frames);
    var h := InitiallyInv(frames, stream);
    h := RunKeeps(frames, stream, INITIAL, h, events, l);
    CaughtUpFacts(frames, stream, l, h);
    RunStaysStuck(stream, l, run, last, l.receiver.reassembly, l.receiver.inner);
    Unfailed(frames, stream, l, h);
    var h1 := RunKeeps(frames, stream, l, h, run, last);
    FinishedUnfailed(stream, last);
    if Finished(stream, last) {
      NothingStored(frames, stream, last, h1);
    }
  }
}
