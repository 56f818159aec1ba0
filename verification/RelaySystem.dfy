/**
  * The relay transport as a whole: frames are encoded and queued in any pieces, cut into packets of any capacity,
  * delivered once each in any order, read in any chunks and decoded at any time. Every interleaving is a run.
  */
module RelaySystem {
  import opened Bytes
  import opened Frames
  import opened PacketFraming
  import D = Decoder

  /**
    * The whole system. `queued` counts the octets of the application's stream handed to the encoder so far; packets
    * in transit are listed by the stream offset they were cut at.
    */
  datatype Link = Link(
    queued: nat,
    sender: Outgoing,
    transit: map<nat, seq<byte>>,
    wire: seq<byte>,
    receiver: D.State,
    output: seq<Frame>,
    failure: Option<D.DecodeError>)

  datatype Event =
    | Queue(size: nat)      // hand the next `size` octets of the stream to the encoder
    | Cut(capacity: nat)    // cut a packet for a transport buffer of this capacity
    | Deliver(offset: nat)  // any packet in transit arrives
    | Read(size: nat)       // feed the decoder the next `size` delivered octets
    | Decode                // call Next

  const INITIAL := Link(0, Outgoing(0, []), map[], [], D.START, [], None)

  /** What may happen next. A read that the decoder's buffer limit refuses is not an event of the run. */
  predicate Enabled(stream: seq<byte>, l: Link, e: Event) {
    match e
    case Queue(n) => l.queued + n <= |stream| && |l.sender.pending| + n <= MAXIMUM_PENDING
    case Cut(_) => true
    case Deliver(i) => i in l.transit
    case Read(n) => l.failure.None? && n <= |l.wire| && |l.receiver.outer| + n <= MAXIMUM_ENCODED
    case Decode => l.failure.None?
  }

  function AfterQueue(stream: seq<byte>, l: Link, n: nat): Link
    requires l.queued + n <= |stream|
  {
    l.(queued := l.queued + n, sender := l.sender.(pending := l.sender.pending + stream[l.queued..l.queued + n]))
  }

  function AfterCut(l: Link, capacity: nat): Link {
    match CutNext(l.sender, capacity)
    case Packet(bytes, rest) => l.(sender := rest, transit := l.transit[l.sender.offset := bytes])
    case _ => l
  }

  function AfterDeliver(l: Link, i: nat): Link
    requires i in l.transit
  {
    l.(transit := l.transit - {i}, wire := l.wire + l.transit[i])
  }

  function AfterRead(l: Link, n: nat): Link
    requires n <= |l.wire|
  {
    l.(receiver := D.Fed(l.receiver, l.wire[..n]), wire := l.wire[n..])
  }

  function AfterMove(l: Link, m: D.Move): Link {
    match m
    case Emit(f, t) => l.(receiver := t, output := l.output + [f])
    case Fault(e, t) => l.(receiver := t, failure := Some(e))
    case Idle(t) => l.(receiver := t)
    case Advance(t) => l.(receiver := t)
  }

  ghost function After(stream: seq<byte>, l: Link, e: Event): Link
    requires Enabled(stream, l, e)
  {
    match e
    case Queue(n) => AfterQueue(stream, l, n)
    case Cut(capacity) => AfterCut(l, capacity)
    case Deliver(i) => AfterDeliver(l, i)
    case Read(n) => AfterRead(l, n)
    case Decode => AfterMove(l, D.Next(l.receiver))
  }

  ghost predicate Reaches(stream: seq<byte>, l: Link, events: seq<Event>, last: Link)
    decreases |events|
  {
    if events == [] then l == last
    else Enabled(stream, l, events[0]) && Reaches(stream, After(stream, l, events[0]), events[1..], last)
  }

  // ---- The invariant -------------------------------------------------------------------------

  /**
    * How the stream was cut and where each piece is. The piece cut at offset `k` is `stream[k..ends[k]]`; `wired` are
    * the pieces on the wire, in order, and `rank` is each one's place in arrival order; `got` are the pieces the
    * receiver has parsed.
    */
  datatype History = History(ends: map<nat, nat>, wired: seq<nat>, got: set<nat>, rank: map<nat, nat>)

  /** A piece starts here, or everything sent ends here. */
  predicate Boundary(ends: map<nat, nat>, sent: nat, k: nat) {
    k == sent || k in ends
  }

  /** The pieces tile `stream[..sent]`. */
  ghost predicate Tiles(ends: map<nat, nat>, sent: nat) {
    && (forall k :: k in ends ==> k < ends[k] <= sent && ends[k] - k <= D.MAXIMUM_FRAGMENT)
    && (forall k {:trigger Boundary(ends, sent, ends[k])} :: k in ends ==> Boundary(ends, sent, ends[k]))
    && (forall j, k {:trigger ends[j], ends[k]} :: j in ends && k in ends && j < k ==> ends[j] <= k)
  }

  function PieceFrame(stream: seq<byte>, k: nat, end: nat): Frame
    requires k <= end <= |stream|
  {
    Frame(FRAGMENT, BigEndian(k, OFFSET_SIZE) + stream[k..end])
  }

  ghost function Packets(stream: seq<byte>, ends: map<nat, nat>, sent: nat, wired: seq<nat>): seq<byte>
    requires Tiles(ends, sent) && sent <= |stream|
    requires forall j :: 0 <= j < |wired| ==> wired[j] in ends
  {
    if wired == [] then []
    else Encode(PieceFrame(stream, wired[0], ends[wired[0]])) + Packets(stream, ends, sent, wired[1..])
  }

  ghost predicate SenderOk(stream: seq<byte>, sender: Outgoing, queued: nat) {
    && sender.offset <= queued <= |stream| && sender.offset <= U64_MAX
    && sender.pending == stream[sender.offset..queued]
  }

  /** Every piece cut so far is in exactly one place: the places are disjoint and together hold all of them. */
  ghost predicate Placed(pieces: set<nat>, flying: set<nat>, wired: seq<nat>, got: set<nat>, rank: map<nat, nat>) {
    && |flying| + |wired| + |got| == |pieces|
    && got <= pieces && flying <= pieces && flying !! got
    && (forall j :: 0 <= j < |wired| ==>
          && wired[j] in pieces && wired[j] !in got && wired[j] !in flying
          && wired[j] in rank && rank[wired[j]] == |got| + j)
  }

  ghost predicate TransitOk(stream: seq<byte>, ends: map<nat, nat>, transit: map<nat, seq<byte>>)
  {
    forall k :: k in transit ==>
      k in ends && k <= ends[k] <= |stream| && transit[k] == Encode(PieceFrame(stream, k, ends[k]))
  }

  /** Pieces before the read offset have been read; parsed pieces after it are stored, and nothing else is. */
  ghost predicate StoreOk(stream: seq<byte>, ends: map<nat, nat>, sent: nat, got: set<nat>, r: Reassembly) {
    && Boundary(ends, sent, r.at)
    && (forall k :: k in ends && k < r.at ==> k in got && ends[k] <= r.at)
    && (forall k :: k in got && k >= r.at ==> k in r.stored)
    && (forall k :: k in r.stored ==>
          k in got && k in ends && r.at <= k <= ends[k] <= |stream| && r.stored[k] == stream[k..ends[k]])
  }

  /** What is buffered and what is still to come is exactly the encoding of the frames not yet returned. */
  ghost predicate OutputOk(frames: seq<Frame>, output: seq<Frame>, inner: seq<byte>, rest: seq<byte>) {
    output <= frames && EncodeAll(frames[|output|..]) == inner + rest
  }

  /** More octets were sent than the window holds, or the store is full. */
  predicate WindowFull(sent: nat, r: Reassembly) {
    sent > r.at + MAXIMUM_WINDOW || |r.stored| >= MAXIMUM_FRAGMENTS
  }

  /** What was returned is what was sent, and nothing but a full window can end a connection. */
  predicate Safe(frames: seq<Frame>, l: Link) {
    && l.output <= frames
    && (l.failure.Some? ==>
          l.failure.value == D.BadFragment(WindowExceeded) && WindowFull(l.sender.offset, l.receiver.reassembly))
  }

  /** The invariant of a connection that has not failed. */
  ghost predicate Inv(frames: seq<Frame>, stream: seq<byte>, l: Link, h: History) {
    && SenderOk(stream, l.sender, l.queued)
    && Tiles(h.ends, l.sender.offset)
    && Placed(h.ends.Keys, l.transit.Keys, h.wired, h.got, h.rank)
    && TransitOk(stream, h.ends, l.transit)
    && l.receiver.outer + l.wire == Packets(stream, h.ends, l.sender.offset, h.wired)
    && StoreOk(stream, h.ends, l.sender.offset, h.got, l.receiver.reassembly)
    && l.receiver.reassembly.at <= l.sender.offset
    && OutputOk(frames, l.output, l.receiver.inner, stream[l.receiver.reassembly.at..])
    && l.failure.None?
  }
}
