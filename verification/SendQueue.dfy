/** The bounded two-class queue of src/core/derp/SendQueue.cpp. */
module SendQueue {
  import opened Bytes

  datatype Priority = Data | Control

  datatype Packet = Packet(destination: seq<byte>, payload: seq<byte>)

  datatype Limits = Limits(packets: nat, bytes: nat)

  datatype Queue = Queue(control: seq<Packet>, data: seq<Packet>)

  function Payload(packets: seq<Packet>): nat {
    if packets == [] then 0 else |packets[0].payload| + Payload(packets[1..])
  }

  lemma {:induction false} PayloadAppend(packets: seq<Packet>, p: Packet)
    ensures Payload(packets + [p]) == Payload(packets) + |p.payload|
  {
    if packets != [] {
      PayloadAppend(packets[1..], p);
      assert (packets + [p])[1..] == packets[1..] + [p];
    }
  }

  function Size(q: Queue): nat {
    |q.control| + |q.data|
  }

  function QueuedBytes(q: Queue): nat {
    Payload(q.control) + Payload(q.data)
  }

  /** The queue after its first `k` victims are gone: data from the front, then control from the front. */
  function Dropped(q: Queue, k: nat): Queue
    requires k <= Size(q)
  {
    if k <= |q.data| then Queue(q.control, q.data[k..]) else Queue(q.control[k - |q.data|..], [])
  }

  lemma DropNone(q: Queue)
    ensures Dropped(q, 0) == q
  {
  }

  lemma DropNext(q: Queue, k: nat)
    requires k < Size(q)
    ensures Size(Dropped(q, k)) == Size(q) - k && Dropped(Dropped(q, k), 1) == Dropped(q, k + 1)
  {
  }

  /** No packet need be dropped for another of this size. */
  predicate HasRoom(l: Limits, q: Queue, size: nat) {
    Size(q) == 0 || (Size(q) < l.packets && QueuedBytes(q) + size <= l.bytes)
  }

  /** Dropping stops as soon as the new packet fits. */
  ghost predicate IsLeastDrop(l: Limits, q: Queue, size: nat, k: nat) {
    && k <= Size(q) && HasRoom(l, Dropped(q, k), size)
    && forall j :: 0 <= j < k ==> !HasRoom(l, Dropped(q, j), size)
  }

  lemma LeastIsUnique(l: Limits, q: Queue, size: nat, j: nat, k: nat)
    requires IsLeastDrop(l, q, size, j) && IsLeastDrop(l, q, size, k)
    ensures j == k
  {
  }

  lemma LeastIsFound(l: Limits, q: Queue, size: nat, k: nat)
    requires k <= Size(q) && HasRoom(l, Dropped(q, k), size)
    requires forall j :: 0 <= j < k ==> !HasRoom(l, Dropped(q, j), size)
    ensures IsLeastDrop(l, q, size, k) && k == Drops(l, q, size)
    ensures Size(Dropped(q, k)) == Size(q) - k
  {
    LeastIsUnique(l, q, size, k, Drops(l, q, size));
  }

  function DropsFrom(l: Limits, q: Queue, size: nat, j: nat): (k: nat)
    requires j <= Size(q)
    ensures j <= k <= Size(q) && HasRoom(l, Dropped(q, k), size)
    ensures forall i :: j <= i < k ==> !HasRoom(l, Dropped(q, i), size)
    decreases Size(q) - j
  {
    if HasRoom(l, Dropped(q, j), size) then j else DropsFrom(l, q, size, j + 1)
  }

  function Drops(l: Limits, q: Queue, size: nat): (k: nat)
    ensures IsLeastDrop(l, q, size, k)
  {
    DropsFrom(l, q, size, 0)
  }

  function Joined(q: Queue, p: Packet, priority: Priority): Queue {
    if priority.Control? then q.(control := q.control + [p]) else q.(data := q.data + [p])
  }

  predicate Within(l: Limits, q: Queue) {
    Size(q) <= l.packets && QueuedBytes(q) <= l.bytes
  }

  /** There is room for a packet that can be accepted at all exactly when the queue with it keeps the limits. */
  lemma RoomIsWithin(l: Limits, q: Queue, p: Packet, priority: Priority)
    requires 0 < l.packets && |p.payload| <= l.bytes
    ensures HasRoom(l, q, |p.payload|) <==> Within(l, Joined(q, p, priority))
  {
    PayloadAppend(q.control, p);
    PayloadAppend(q.data, p);
  }

  /** The least number of drops, by the limits alone: with fewer the queue would exceed them, with these it does not. */
  lemma DropsOnlyToFit(l: Limits, q: Queue, p: Packet, priority: Priority, k: nat)
    requires 0 < l.packets && |p.payload| <= l.bytes && k <= Size(q)
    ensures k == Drops(l, q, |p.payload|) <==>
      && Within(l, Joined(Dropped(q, k), p, priority))
      && forall j :: 0 <= j < k ==> !Within(l, Joined(Dropped(q, j), p, priority))
    ensures Within(l, Joined(q, p, priority)) ==> Drops(l, q, |p.payload|) == 0
  {
    hide Dropped, HasRoom, Within, Joined, DropsFrom, Drops;
    DropNone(q);
    forall j | 0 <= j <= Size(q)
      ensures HasRoom(l, Dropped(q, j), |p.payload|) <==> Within(l, Joined(Dropped(q, j), p, priority))
    {
      RoomIsWithin(l, Dropped(q, j), p, priority);
    }
    var least := Drops(l, q, |p.payload|);
    assert IsLeastDrop(l, q, |p.payload|, least);
  }

  // ---- The object ----------------------------------------------------------------------------

  method Create(maximumPackets: nat, maximumBytes: nat) returns (q: Option<DerpSendQueue>)
    ensures q.Some? <==> maximumPackets > 0 && maximumBytes > 0
    ensures q.Some? ==> fresh(q.value) && q.value.Valid() && q.value.limits == Limits(maximumPackets, maximumBytes)
    ensures q.Some? ==> q.value.Value() == Queue([], [])
  {
    if maximumPackets == 0 || maximumBytes == 0 {
      return None;
    }
    var queue := new DerpSendQueue(maximumPackets, maximumBytes);
    return Some(queue);
  }

  class DerpSendQueue {
    const limits: Limits
    var bytes: nat
    var control: seq<Packet>
    var data: seq<Packet>

    ghost function Value(): Queue
      reads this
    {
      Queue(control, data)
    }

    ghost predicate Valid()
      reads this
    {
      0 < limits.packets && 0 < limits.bytes && bytes == QueuedBytes(Value()) && Within(limits, Value())
    }

    constructor (maximumPackets: nat, maximumBytes: nat)
      requires maximumPackets > 0 && maximumBytes > 0
      ensures Valid() && Value() == Queue([], []) && limits == Limits(maximumPackets, maximumBytes)
    {
      limits, bytes, control, data := Limits(maximumPackets, maximumBytes), 0, [], [];
    }

    method Push(p: Packet, priority: Priority) returns (accepted: bool, dropped: nat)
      requires Valid()
      modifies this`bytes, this`control, this`data
      ensures Valid()
      ensures accepted == (|p.payload| <= limits.bytes)
      ensures !accepted ==> dropped == 0 && Value() == old(Value())
      ensures accepted ==>
        && IsLeastDrop(limits, old(Value()), |p.payload|, dropped)
        && dropped == Drops(limits, old(Value()), |p.payload|)
        && Value() == Joined(Dropped(old(Value()), dropped), p, priority)
        && forall j :: 0 <= j < dropped ==> !Within(limits, Joined(Dropped(old(Value()), j), p, priority))
      ensures accepted && Within(limits, Joined(old(Value()), p, priority)) ==> dropped == 0
    {
      if |p.payload| > limits.bytes {
        return false, 0;
      }
      hide Dropped, Payload, IsLeastDrop, Joined;
      ghost var q := Value();
      DropNone(q);
      dropped := 0;
      while |control| + |data| > 0 && (|control| + |data| >= limits.packets || bytes + |p.payload| > limits.bytes)
        invariant dropped <= Size(q) && Value() == Dropped(q, dropped) && bytes == QueuedBytes(Value())
        invariant forall j :: 0 <= j < dropped ==> !HasRoom(limits, Dropped(q, j), |p.payload|)
        decreases |control| + |data|
      {
        DropNext(q, dropped);
        DropFront();
        dropped := dropped + 1;
      }
      LeastIsFound(limits, q, |p.payload|, dropped);
      DropsOnlyToFit(limits, q, p, priority, dropped);
      Append(p, priority);
      return true, dropped;
    }

    method DropFront()
      requires |control| + |data| > 0 && bytes == QueuedBytes(Value())
      modifies this`bytes, this`control, this`data
      ensures Value() == Dropped(old(Value()), 1) && bytes == QueuedBytes(Value())
      ensures |control| + |data| == old(|control| + |data|) - 1
    {
      if data == [] {
        bytes, control := bytes - |control[0].payload|, control[1..];
      } else {
        bytes, data := bytes - |data[0].payload|, data[1..];
      }
    }

    method Append(p: Packet, priority: Priority)
      requires bytes == QueuedBytes(Value())
      modifies this`bytes, this`control, this`data
      ensures Value() == Joined(old(Value()), p, priority)
      ensures bytes == QueuedBytes(Value()) == old(QueuedBytes(Value())) + |p.payload|
      ensures Size(Value()) == old(Size(Value())) + 1
    {
      bytes := bytes + |p.payload|;
      if priority.Control? {
        PayloadAppend(control, p);
        control := control + [p];
      } else {
        PayloadAppend(data, p);
        data := data + [p];
      }
    }

    method Pop() returns (p: Option<Packet>)
      requires Valid()
      modifies this`bytes, this`control, this`data
      ensures Valid()
      ensures p == Head(old(Value())) && Value() == Popped(old(Value()))
    {
      if control == [] {
        if data == [] {
          return None;
        }
        p := Some(data[0]);
        data := data[1..];
      } else {
        p := Some(control[0]);
        control := control[1..];
      }
      bytes := bytes - |p.value.payload|;
    }
  }

  /** What leaves next: control before data. */
  function Head(q: Queue): Option<Packet> {
    if q.control != [] then Some(q.control[0]) else if q.data != [] then Some(q.data[0]) else None
  }

  function Popped(q: Queue): Queue {
    if q.control != [] then q.(control := q.control[1..]) else if q.data != [] then q.(data := q.data[1..]) else q
  }

  /** The packets that pops return until the queue is empty. */
  function Emptied(q: Queue): seq<Packet>
    decreases Size(q)
  {
    if Head(q).None? then [] else [Head(q).value] + Emptied(Popped(q))
  }

  /** Every packet comes out once: all control, then all data, each in the order of its arrival. */
  lemma {:induction false} EmptiesInOrder(q: Queue)
    ensures Emptied(q) == q.control + q.data
    decreases Size(q)
  {
    if Head(q).Some? {
      EmptiesInOrder(Popped(q));
      assert q.control != [] ==> q.control == [q.control[0]] + q.control[1..];
      assert q.control == [] && q.data != [] ==> q.data == [q.data[0]] + q.data[1..];
    }
  }

  // ---- Histories -----------------------------------------------------------------------------

  datatype Call = Push(packet: Packet, priority: Priority) | Pop

  /** How a packet left, and how many packets of the other class were queued then. */
  datatype Departure = Departure(packet: Packet, popped: bool, others: nat)

  datatype History = History(queue: Queue, control: seq<Departure>, data: seq<Departure>)

  const EMPTY := History(Queue([], []), [], [])

  /** The class that is now shorter has lost its front packet; what is left of the other class is counted as it was. */
  function Leave(h: History, next: Queue, popped: bool): History {
    var q := h.queue;
    History(next,
            h.control + (if |next.control| < |q.control| then [Departure(q.control[0], popped, |q.data|)] else []),
            h.data + (if |next.data| < |q.data| then [Departure(q.data[0], popped, |q.control|)] else []))
  }

  function AfterDrops(h: History, k: nat): History
    requires k <= Size(h.queue)
    decreases k
  {
    if k == 0 then h else AfterDrops(Leave(h, Dropped(h.queue, 1), false), k - 1)
  }

  function Step(l: Limits, h: History, c: Call): History {
    match c
    case Push(p, priority) =>
      if |p.payload| > l.bytes then h
      else
        var t := AfterDrops(h, Drops(l, h.queue, |p.payload|));
        t.(queue := Joined(t.queue, p, priority))
    case Pop => Leave(h, Popped(h.queue), true)
  }

  function After(l: Limits, h: History, run: seq<Call>): History
    decreases |run|
  {
    if run == [] then h else After(l, Step(l, h, run[0]), run[1..])
  }

  /** The packets of a class that the run had accepted, in order. */
  function Accepted(l: Limits, run: seq<Call>, priority: Priority): seq<Packet> {
    if run == [] then []
    else Entering(l, run[0], priority) + Accepted(l, run[1..], priority)
  }

  function Packets(gone: seq<Departure>): seq<Packet> {
    seq(|gone|, i requires 0 <= i < |gone| => gone[i].packet)
  }

  /** Control is dropped only when no data is left; data is popped only when no control is. */
  ghost predicate Ranked(h: History) {
    && (forall i :: 0 <= i < |h.control| && !h.control[i].popped ==> h.control[i].others == 0)
    && (forall i :: 0 <= i < |h.data| && h.data[i].popped ==> h.data[i].others == 0)
  }

  /** All that ever entered a class, by what became of it: first what left, then what is queued. */
  function ControlFlow(h: History): seq<Packet> {
    Packets(h.control) + h.queue.control
  }

  function DataFlow(h: History): seq<Packet> {
    Packets(h.data) + h.queue.data
  }

  /** One class at most loses its front packet, and nothing else changes. */
  predicate LosesFront(q: Queue, next: Queue) {
    || next == q
    || (q.control != [] && next == q.(control := q.control[1..]))
    || (q.data != [] && next == q.(data := q.data[1..]))
  }

  lemma LeaveConserves(h: History, next: Queue, popped: bool)
    requires LosesFront(h.queue, next)
    ensures ControlFlow(Leave(h, next, popped)) == ControlFlow(h) && DataFlow(Leave(h, next, popped)) == DataFlow(h)
  {
    var q, t := h.queue, Leave(h, next, popped);
    if next.control != q.control {
      assert Packets(t.control) == Packets(h.control) + [q.control[0]];
    } else if next.data != q.data {
      assert Packets(t.data) == Packets(h.data) + [q.data[0]];
    }
  }

  /** Dropping loses control only from a queue without data; popping loses data only from one without control. */
  lemma LeaveRanks(h: History)
    requires Ranked(h)
    ensures Size(h.queue) > 0 ==> Ranked(Leave(h, Dropped(h.queue, 1), false))
    ensures Ranked(Leave(h, Popped(h.queue), true))
  {
  }

  lemma {:induction false} DropsConserve(h: History, k: nat)
    requires k <= Size(h.queue) && Ranked(h)
    ensures var t := AfterDrops(h, k);
      t.queue == Dropped(h.queue, k) && ControlFlow(t) == ControlFlow(h) && DataFlow(t) == DataFlow(h) && Ranked(t)
    decreases k
  {
    if k > 0 {
      var next := Leave(h, Dropped(h.queue, 1), false);
      LeaveConserves(h, Dropped(h.queue, 1), false);
      LeaveRanks(h);
      hide Ranked, ControlFlow, DataFlow;
      DropsConserve(next, k - 1);
      DropRest(h.queue, k);
    }
  }

  lemma DropRest(q: Queue, k: nat)
    requires 0 < k <= Size(q)
    ensures Size(Dropped(q, 1)) == Size(q) - 1 && Dropped(Dropped(q, 1), k - 1) == Dropped(q, k)
  {
  }

  lemma JoinConserves(h: History, p: Packet, priority: Priority)
    ensures var t := h.(queue := Joined(h.queue, p, priority));
      && ControlFlow(t) == ControlFlow(h) + (if priority.Control? then [p] else [])
      && DataFlow(t) == DataFlow(h) + (if priority.Data? then [p] else [])
  {
  }

  /** What one call adds to a class. */
  function Entering(l: Limits, c: Call, priority: Priority): seq<Packet> {
    if c.Push? && c.priority == priority && |c.packet.payload| <= l.bytes then [c.packet] else []
  }

  lemma StepConserves(l: Limits, h: History, c: Call)
    requires Ranked(h)
    ensures var t := Step(l, h, c);
      && ControlFlow(t) == ControlFlow(h) + Entering(l, c, Control)
      && DataFlow(t) == DataFlow(h) + Entering(l, c, Data)
      && Ranked(t)
  {
    hide ControlFlow, DataFlow, AfterDrops, Joined;
    if c.Pop? {
      LeaveConserves(h, Popped(h.queue), true);
      LeaveRanks(h);
    } else if |c.packet.payload| <= l.bytes {
      var k := Drops(l, h.queue, |c.packet.payload|);
      DropsConserve(h, k);
      JoinConserves(AfterDrops(h, k), c.packet, c.priority);
    }
  }

  lemma StepStaysWithin(l: Limits, h: History, c: Call)
    requires 0 < l.packets && Within(l, h.queue) && Ranked(h)
    ensures Within(l, Step(l, h, c).queue)
  {
    if c.Push? {
      DropsConserve(h, Drops(l, h.queue, |c.packet.payload|));
      var q := Dropped(h.queue, Drops(l, h.queue, |c.packet.payload|));
      PayloadAppend(q.control, c.packet);
      PayloadAppend(q.data, c.packet);
    }
  }

  /**
   * Over every history: the packets accepted in a class are those of the class that left, in order, followed by those
   * still queued, in order; control is dropped only when no data remains; and the limits hold.
   */
  lemma {:induction false} HistoryIsConserved(l: Limits, h: History, run: seq<Call>)
    requires 0 < l.packets && Within(l, h.queue) && Ranked(h)
    ensures var t := After(l, h, run);
      && ControlFlow(t) == ControlFlow(h) + Accepted(l, run, Control)
      && DataFlow(t) == DataFlow(h) + Accepted(l, run, Data)
      && Ranked(t) && Within(l, t.queue)
    decreases |run|
  {
    hide ControlFlow, DataFlow, Step, Ranked, Within, Entering;
    if run != [] {
      var t := Step(l, h, run[0]);
      StepConserves(l, h, run[0]);
      StepStaysWithin(l, h, run[0]);
      HistoryIsConserved(l, t, run[1..]);
      Associate(ControlFlow(h), Entering(l, run[0], Control), Accepted(l, run[1..], Control));
      Associate(DataFlow(h), Entering(l, run[0], Data), Accepted(l, run[1..], Data));
    }
  }

  /** The same from an empty queue, class by class. */
  lemma EveryPacketIsAccountedFor(l: Limits, run: seq<Call>)
    requires 0 < l.packets
    ensures var t := After(l, EMPTY, run);
      && Packets(t.control) + t.queue.control == Accepted(l, run, Control)
      && Packets(t.data) + t.queue.data == Accepted(l, run, Data)
      && Ranked(t) && Within(l, t.queue)
  {
    HistoryIsConserved(l, EMPTY, run);
    assert ControlFlow(EMPTY) == [] && DataFlow(EMPTY) == [];
    assert [] + Accepted(l, run, Control) == Accepted(l, run, Control);
    assert [] + Accepted(l, run, Data) == Accepted(l, run, Data);
  }
}
