/** Every unfailed state of `RelaySystem` can still finish, as long as the stream and its pieces fit the window. */
module RelayProgress {
  import opened Bytes
  import opened Frames
  import opened PacketFraming
  import opened RelaySystem
  import opened RelayEndToEnd
  import D = Decoder

  /** What is sent fits the window, and so does the number of pieces, at most `left` of them still to be cut. */
  ghost predicate Roomy(stream: seq<byte>, h: History, left: nat) {
    |stream| <= MAXIMUM_WINDOW && |h.ends| + left <= MAXIMUM_FRAGMENTS
  }

  lemma {:induction false} Concat(stream: seq<byte>, a: Link, first: seq<Event>, b: Link, second: seq<Event>, c: Link)
    requires Reaches(stream, a, first, b) && Reaches(stream, b, second, c)
    ensures Reaches(stream, a, first + second, c)
    decreases |first|
  {
    hide Enabled, After;
    if first == [] {
      assert first + second == second;
    } else {
      Concat(stream, After(stream, a, first[0]), first[1..], b, second, c);
      assert (first + second)[1..] == first[1..] + second;
    }
  }

  lemma OneEvent(stream: seq<byte>, l: Link, e: Event)
    requires Enabled(stream, l, e)
    ensures Reaches(stream, l, [e], After(stream, l, e))
  {
    hide Enabled, After;
    assert [e][1..] == [];
  }

  lemma Prepend(stream: seq<byte>, l: Link, e: Event, run: seq<Event>, last: Link)
    requires Enabled(stream, l, e) && Reaches(stream, After(stream, l, e), run, last)
    ensures Reaches(stream, l, [e] + run, last)
  {
    hide Enabled, After;
    assert ([e] + run)[1..] == run;
  }

  // ---- Sending the rest ----------------------------------------------------------------------

  /** How many pieces of the largest size this many octets make. */
  function PiecesLeft(n: nat): nat {
    if n == 0 then 0 else 1 + PiecesLeft(n - Min(n, D.MAXIMUM_FRAGMENT))
  }

  lemma {:induction false} FewPieces(n: nat, k: nat)
    requires n <= k * D.MAXIMUM_FRAGMENT
    ensures PiecesLeft(n) <= k
    decreases k
  {
    if n > 0 {
      FewPieces(n - Min(n, D.MAXIMUM_FRAGMENT), k - 1);
    }
  }

  /** Cutting the largest pieces sends everything queued. */
  lemma {:induction false} CutAll(frames: seq<Frame>, stream: seq<byte>, l: Link, h: History)
    returns (run: seq<Event>, last: Link, h': History)
    requires Inv(frames, stream, l, h) && Roomy(stream, h, PiecesLeft(|l.sender.pending|))
    ensures Reaches(stream, l, run, last) && Inv(frames, stream, last, h') && Roomy(stream, h', 0)
    ensures last.sender.pending == [] && last.queued == l.queued
    decreases |l.sender.pending|
  {
    hide Inv, AfterCut;
    if l.sender.pending == [] {
      run, last, h' := [], l, h;
    } else {
      var next := AfterCut(l, MAXIMUM_ENCODED);
      LargestCut(frames, stream, l, h);
      var h1 := CutKeeps(frames, stream, l, h, MAXIMUM_ENCODED);
      var rest: seq<Event>;
      rest, last, h' := CutAll(frames, stream, next, h1);
      Prepend(stream, l, Cut(MAXIMUM_ENCODED), rest, last);
      run := [Cut(MAXIMUM_ENCODED)] + rest;
    }
  }

  lemma {:induction false} LargestCut(frames: seq<Frame>, stream: seq<byte>, l: Link, h: History)
    requires Inv(frames, stream, l, h) && l.sender.pending != [] && |stream| <= MAXIMUM_WINDOW
    ensures var n := |l.sender.pending|;
      var next := AfterCut(l, MAXIMUM_ENCODED);
      |next.sender.pending| == n - Min(n, D.MAXIMUM_FRAGMENT) && next.queued == l.queued
  {
  }

  // ---- Delivering the rest -------------------------------------------------------------------

  lemma OneFewer(transit: map<nat, seq<byte>>, k: nat)
    requires k in transit
    ensures |transit - {k}| < |transit|
  {
    assert (transit - {k}).Keys == transit.Keys - {k};
    assert |transit.Keys| == |transit| && |(transit - {k}).Keys| == |transit - {k}|;
  }

  lemma {:induction false} DeliverAll(frames: seq<Frame>, stream: seq<byte>, l: Link, h: History)
    returns (run: seq<Event>, last: Link, h': History)
    requires Inv(frames, stream, l, h)
    ensures Reaches(stream, l, run, last) && Inv(frames, stream, last, h') && h'.ends == h.ends
    ensures last.transit == map[] && last.sender == l.sender && last.queued == l.queued
    decreases |l.transit|
  {
    hide Inv;
    if l.transit == map[] {
      run, last, h' := [], l, h;
    } else {
      assert l.transit.Keys != {};
      var k :| k in l.transit;
      var next := AfterDeliver(l, k);
      var h1 := DeliverKeeps(frames, stream, l, h, k);
      OneFewer(l.transit, k);
      var rest: seq<Event>;
      rest, last, h' := DeliverAll(frames, stream, next, h1);
      Prepend(stream, l, Deliver(k), rest, last);
      run := [Deliver(k)] + rest;
    }
  }

  // ---- Receiving the rest --------------------------------------------------------------------

  /** Reading what there is room for and decoding takes in everything delivered. */
  lemma {:induction false} ReceiveAll(frames: seq<Frame>, stream: seq<byte>, l: Link, h: History)
    returns (run: seq<Event>, last: Link)
    requires Sendable(frames) && Inv(frames, stream, l, h) && Roomy(stream, h, 0)
    ensures Reaches(stream, l, run, last) && last.failure.None? && last.wire == [] && D.Step(last.receiver).Idle?
    ensures last.transit == l.transit && last.sender == l.sender && last.queued == l.queued
    decreases |l.wire|, |frames| - |l.output|
  {
    hide Inv, D.Next, D.Step, Reaches;
    var next := AfterMove(l, D.Next(l.receiver));
    var h1 := DecodeKeeps(frames, stream, l, h);
    NoFault(frames, stream, l, h);
    D.IdleStays(l.receiver);
    Unfailed(frames, stream, l, h);
    Unfailed(frames, stream, next, h1);
    OneEvent(stream, l, Decode);
    var rest: seq<Event>;
    if D.Next(l.receiver).Emit? {
      rest, last := ReceiveAll(frames, stream, next, h1);
      Prepend(stream, l, Decode, rest, last);
      run := [Decode] + rest;
    } else if l.wire == [] {
      run, last := [Decode], next;
    } else {
      var n := RoomFor(next);
      ReadKeeps(frames, stream, next, h1, n);
      rest, last := ReceiveAll(frames, stream, AfterRead(next, n), h1);
      Prepend(stream, next, Read(n), rest, last);
      Prepend(stream, l, Decode, [Read(n)] + rest, last);
      run := [Decode] + ([Read(n)] + rest);
    }
  }

  lemma NoFault(frames: seq<Frame>, stream: seq<byte>, l: Link, h: History)
    requires Sendable(frames) && Inv(frames, stream, l, h) && Roomy(stream, h, 0)
    ensures !D.Next(l.receiver).Fault?
  {
    var h1 := DecodeKeeps(frames, stream, l, h);
  }

  /** A decoder with nothing to say has room for at least one octet. */
  lemma RoomFor(l: Link) returns (n: nat)
    requires D.Step(l.receiver).Idle? && l.wire != []
    ensures 0 < n <= |l.wire| && |l.receiver.outer| + n <= MAXIMUM_ENCODED
  {
    assert ParseFrame(l.receiver.outer).Incomplete?;
    IncompleteIsShort(l.receiver.outer);
    n := Min(|l.wire|, MAXIMUM_ENCODED - |l.receiver.outer|);
  }

  // ---- Finishing -----------------------------------------------------------------------------

  /**
    * From every unfailed state of every run, if the stream fits the window and at most 4091 pieces were cut, the run
    * can go on to its end; it has then returned exactly the frames sent.
    */
  lemma FinishIsReachable(frames: seq<Frame>, events: seq<Event>, l: Link) returns (run: seq<Event>, last: Link)
    requires Sendable(frames) && Reaches(EncodeAll(frames), INITIAL, events, l) && l.failure.None?
    requires |EncodeAll(frames)| <= MAXIMUM_WINDOW && Cuts(events) + 5 <= MAXIMUM_FRAGMENTS
    ensures Reaches(EncodeAll(frames), l, run, last) && Finished(EncodeAll(frames), last) && last.output == frames
  {
    hide Inv, Reaches, EncodeAll, Sendable, Finished;
    var stream := EncodeAll(frames);
    Origin(frames);
    var h := InitiallyInv(frames, stream);
    h := RunKeeps(frames, stream, INITIAL, h, events, l);
    run, last := Finish(frames, stream, l, h);
    Concat(stream, INITIAL, events, l, run, last);
    FinishedIsComplete(frames, events + run, last);
  }

  lemma Origin(frames: seq<Frame>)
    ensures Safe(frames, INITIAL)
  {
  }

  lemma Finish(frames: seq<Frame>, stream: seq<byte>, l: Link, h: History) returns (run: seq<Event>, last: Link)
    requires Sendable(frames) && Inv(frames, stream, l, h) && Roomy(stream, h, 5)
    ensures Reaches(stream, l, run, last) && Finished(stream, last)
  {
    hide Inv, Reaches, Sendable;
    var n := |stream| - l.queued;
    QueueRest(frames, stream, l, h);
    var all := AfterQueue(stream, l, n);
    FewPieces(|all.sender.pending|, 5);
    var r1, cut, h1 := CutAll(frames, stream, all, h);
    var r2, sent, h2 := DeliverAll(frames, stream, cut, h1);
    var r3: seq<Event>;
    r3, last := ReceiveAll(frames, stream, sent, h2);
    Prepend(stream, l, Queue(n), r1, cut);
    Concat(stream, l, [Queue(n)] + r1, cut, r2, sent);
    Concat(stream, l, [Queue(n)] + r1 + r2, sent, r3, last);
    run := [Queue(n)] + r1 + r2 + r3;
  }

  lemma QueueRest(frames: seq<Frame>, stream: seq<byte>, l: Link, h: History)
    requires Inv(frames, stream, l, h) && |stream| <= MAXIMUM_WINDOW
    ensures l.queued <= |stream| && Enabled(stream, l, Queue(|stream| - l.queued))
    ensures var all := AfterQueue(stream, l, |stream| - l.queued);
      Inv(frames, stream, all, h) && all.queued == |stream| && |all.sender.pending| <= MAXIMUM_WINDOW
  {
    QueueKeeps(frames, stream, l, h, |stream| - l.queued);
  }
}
