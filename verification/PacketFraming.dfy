/**
  * The relay fragment transport of src/core/hosted/PacketFraming.cpp. `PacketEncoder` cuts a byte stream into
  * fragments that carry their stream offset; `PacketReassembler` puts fragments back in stream order.
  */
module PacketFraming {
  import opened Bytes
  import opened Frames

  const OFFSET_SIZE := 8
  const OVERHEAD := HEADER_SIZE + OFFSET_SIZE
  const MAXIMUM_PENDING := 4 * 1024 * 1024
  const MAXIMUM_WINDOW := 4 * 1024 * 1024
  const MAXIMUM_FRAGMENTS := 4096

  datatype FramingError =
    | InvalidCapacity | InvalidFragment | OverlappingFragment | WindowExceeded | NestedFragment | MixedFraming

  // ---- Sending -------------------------------------------------------------------------------

  /** The stream not yet sent, and the offset at which it continues. */
  datatype Outgoing = Outgoing(offset: nat, pending: seq<byte>)

  datatype Cut = Refused(error: FramingError) | NothingPending | Packet(bytes: seq<byte>, rest: Outgoing)

  /** A transport buffer holding `data`, the part of the stream that starts at `offset`. */
  function FragmentPacket(offset: nat, data: seq<byte>): seq<byte> {
    Encode(Frame(FRAGMENT, BigEndian(offset, OFFSET_SIZE) + data))
  }

  function CutSize(pending: nat, capacity: nat): (count: nat)
    requires capacity > OVERHEAD
    ensures count == 0 <==> pending == 0
  {
    Min(Min(pending, capacity - OVERHEAD), MAXIMUM_PAYLOAD - OFFSET_SIZE)
  }

  function CutNext(o: Outgoing, capacity: nat): Cut {
    if capacity <= OVERHEAD then Refused(InvalidCapacity)
    else
      var count := CutSize(|o.pending|, capacity);
      if count == 0 then NothingPending
      else if count > U64_MAX - o.offset then Refused(InvalidFragment)
      else Packet(FragmentPacket(o.offset, o.pending[..count]), Outgoing(o.offset + count, o.pending[count..]))
  }

  /** A packet never exceeds the buffer it was cut for, and is always an encodable frame. */
  lemma PacketFits(o: Outgoing, capacity: nat)
    requires CutNext(o, capacity).Packet?
    ensures |CutNext(o, capacity).bytes| <= Min(capacity, MAXIMUM_ENCODED)
    ensures ParseFrame(CutNext(o, capacity).bytes).Parsed?
  {
    var count := CutSize(|o.pending|, capacity);
    var frame := Frame(FRAGMENT, BigEndian(o.offset, OFFSET_SIZE) + o.pending[..count]);
    ParseInvertsEncode(Encode(frame), frame);
  }

  /** It carries the next octets of the stream and where they belong, and it is full unless nothing is left to send. */
  lemma PacketCarriesNext(o: Outgoing, capacity: nat)
    requires CutNext(o, capacity).Packet?
    ensures var c := CutNext(o, capacity);
      exists data: seq<byte> ::
        && data != [] && data + c.rest.pending == o.pending && c.rest.offset == o.offset + |data|
        && c.bytes == Encode(Frame(FRAGMENT, BigEndian(o.offset, 8) + data))
        && (c.rest.pending == [] || |c.bytes| == Min(capacity, MAXIMUM_ENCODED))
  {
    var c, count := CutNext(o, capacity), CutSize(|o.pending|, capacity);
    var data := o.pending[..count];
    assert data + c.rest.pending == o.pending;
    assert c.bytes == Encode(Frame(FRAGMENT, BigEndian(o.offset, 8) + data));
  }

  /** The stream held by `parts` from the given part on, when `skip` octets of the first part are already sent. */
  function Unsent(parts: seq<seq<byte>>, skip: nat, part: nat): seq<byte>
    requires part <= |parts|
    requires parts != [] ==> skip <= |parts[0]|
    decreases |parts| - part
  {
    if part == |parts| then []
    else parts[part][if part == 0 then skip else 0..] + Unsent(parts, skip, part + 1)
  }

  lemma {:induction false} UnsentTail(parts: seq<seq<byte>>, skip: nat, part: nat)
    requires 0 < part <= |parts| && skip <= |parts[0]|
    ensures Unsent(parts, skip, part) == Flatten(parts[part..])
    decreases |parts| - part
  {
    if part < |parts| {
      UnsentTail(parts, skip, part + 1);
      assert parts[part..][1..] == parts[part + 1..];
    }
  }

  lemma UnsentIsPending(parts: seq<seq<byte>>, skip: nat)
    requires if parts == [] then skip == 0 else skip < |parts[0]|
    ensures skip <= |Flatten(parts)| && Unsent(parts, skip, 0) == Flatten(parts)[skip..]
  {
    if parts != [] {
      UnsentTail(parts, skip, 1);
    }
  }

  lemma MovePrefix(data: seq<byte>, rest: seq<byte>, size: nat)
    requires size <= |rest|
    ensures data + rest[..size] + rest[size..] == data + rest
  {
  }

  /** Copies the first `count` unsent octets out of as many parts as they span. */
  method Collect(parts: seq<seq<byte>>, skip: nat, count: nat) returns (data: seq<byte>)
    requires if parts == [] then skip == 0 else skip < |parts[0]|
    requires skip + count <= |Flatten(parts)|
    ensures data == Flatten(parts)[skip..skip + count]
  {
    UnsentIsPending(parts, skip);
    ghost var all := Unsent(parts, skip, 0);
    ghost var rest := all;
    data := [];
    var remaining := count;
    var part := 0;
    while remaining != 0
      invariant 0 <= remaining <= count && |data| == count - remaining
      invariant part <= |parts|
      invariant data + rest == all
      invariant remaining != 0 ==> rest == Unsent(parts, skip, part)
      decreases |parts| - part
    {
      var offset := if part == 0 then skip else 0;
      var size := Min(remaining, |parts[part]| - offset);
      MovePrefix(data, rest, size);
      assert parts[part][offset..offset + size] == rest[..size];
      data := data + parts[part][offset..offset + size];
      rest := rest[size..];
      remaining := remaining - size;
      part := part + 1;
    }
    assert all[..count] == data;
  }

  lemma DropPart(parts: seq<seq<byte>>)
    requires parts != []
    ensures |Flatten(parts)| == |parts[0]| + |Flatten(parts[1..])|
    ensures Flatten(parts)[|parts[0]|..] == Flatten(parts[1..])
  {
  }

  method BuildFragment(offset: nat, data: seq<byte>) returns (encoded: seq<byte>)
    ensures encoded == FragmentPacket(offset, data)
  {
    var payload := AppendBigEndian([], offset, OFFSET_SIZE);
    payload := payload + data;
    assert payload == BigEndian(offset, OFFSET_SIZE) + data;
    encoded := AppendTo(Frame(FRAGMENT, payload), []);
    assert encoded == Encode(Frame(FRAGMENT, payload));
  }

  class PacketEncoder {
    var offset: nat
    var pending: seq<seq<byte>>
    var pendingOffset: nat
    var pendingBytes: nat

    ghost predicate Valid()
      reads this
    {
      && (forall i :: 0 <= i < |pending| ==> pending[i] != [])
      && pendingOffset <= |Flatten(pending)|
      && (if pending == [] then pendingOffset == 0 else pendingOffset < |pending[0]|)
      && pendingBytes == |Flatten(pending)| - pendingOffset <= MAXIMUM_PENDING
      && offset <= U64_MAX
    }

    ghost function State(): Outgoing
      requires Valid()
      reads this
    {
      Outgoing(offset, Flatten(pending)[pendingOffset..])
    }

    constructor ()
      ensures Valid() && State() == Outgoing(0, [])
    {
      offset, pending, pendingOffset, pendingBytes := 0, [], 0, 0;
    }

    method Queue(bytes: seq<byte>) returns (refused: Option<FramingError>)
      requires Valid()
      modifies this
      ensures Valid()
      ensures refused == if |old(State()).pending| + |bytes| > MAXIMUM_PENDING then Some(WindowExceeded) else None
      ensures State() == if refused.None? then old(State()).(pending := old(State()).pending + bytes) else old(State())
    {
      if |bytes| > MAXIMUM_PENDING - pendingBytes {
        return Some(WindowExceeded);
      }
      if bytes != [] {
        FlattenAppend(pending, [bytes]);
        assert Flatten([bytes]) == bytes;
        pending := pending + [bytes];
        pendingBytes := pendingBytes + |bytes|;
      }
      return None;
    }

    predicate HasPending()
      requires Valid()
      reads this
      ensures HasPending() <==> State().pending != []
    {
      pending != []
    }

    method Next(capacity: nat) returns (r: Result<seq<byte>, FramingError>)
      requires Valid()
      modifies this
      ensures Valid()
      ensures var cut := CutNext(old(State()), capacity);
        && r == (match cut case Refused(e) => Err(e) case NothingPending => Ok([]) case Packet(b, _) => Ok(b))
        && State() == if cut.Packet? then cut.rest else old(State())
    {
      if capacity <= OVERHEAD {
        return Err(InvalidCapacity);
      }
      var count := Min(Min(pendingBytes, capacity - OVERHEAD), MAXIMUM_PAYLOAD - OFFSET_SIZE);
      if count == 0 {
        return Ok([]);
      }
      if count > U64_MAX - offset {
        return Err(InvalidFragment);
      }
      ghost var before := State();
      var data := Collect(pending, pendingOffset, count);
      assert data == before.pending[..count];
      var encoded := BuildFragment(offset, data);
      Consume(count);
      offset := offset + count;
      pendingBytes := pendingBytes - count;
      return Ok(encoded);
    }

    /** Drops the first `count` pending octets, releasing each part as it is used up. */
    method Consume(count: nat)
      requires Valid() && 0 < count <= pendingBytes
      modifies this`pending, this`pendingOffset
      ensures forall i :: 0 <= i < |pending| ==> pending[i] != []
      ensures if pending == [] then pendingOffset == 0 else pendingOffset < |pending[0]|
      ensures pendingOffset <= |Flatten(pending)|
      ensures Flatten(pending)[pendingOffset..] == old(State().pending)[count..]
    {
      ghost var all := State().pending;
      var remaining := count;
      while remaining != 0
        invariant 0 <= remaining <= count
        invariant forall i :: 0 <= i < |pending| ==> pending[i] != []
        invariant if pending == [] then pendingOffset == 0 else pendingOffset < |pending[0]|
        invariant pendingOffset <= |Flatten(pending)|
        invariant Flatten(pending)[pendingOffset..] == all[count - remaining..]
      {
        var size := Min(remaining, |pending[0]| - pendingOffset);
        DropPart(pending);
        DropTwice(Flatten(pending), pendingOffset, size);
        DropTwice(all, count - remaining, size);
        pendingOffset := pendingOffset + size;
        remaining := remaining - size;
        if pendingOffset == |pending[0]| {
          pending := pending[1..];
          pendingOffset := 0;
        }
      }
    }
  }

  // ---- Receiving -----------------------------------------------------------------------------

  /** How far the stream has been read, and the fragments received beyond that, by offset. */
  datatype Reassembly = Reassembly(at: nat, stored: map<nat, seq<byte>>)

  datatype Acceptance = Rejected(error: FramingError) | Accepted(next: Reassembly)

  predicate Overlap(a: nat, m: nat, b: nat, n: nat) {
    a < b + n && b < a + m
  }

  /** `[at, at + size)` meets some stored fragment, wherever that fragment is. */
  ghost predicate OverlapsAny(stored: map<nat, seq<byte>>, at: nat, size: nat) {
    exists k :: k in stored && Overlap(at, size, k, |stored[k]|)
  }

  ghost function Accept(r: Reassembly, payload: seq<byte>): Acceptance {
    if |payload| <= OFFSET_SIZE then Rejected(InvalidFragment)
    else
      var at := FromBigEndian(payload[..OFFSET_SIZE]);
      var data := payload[OFFSET_SIZE..];
      if at < r.at then Rejected(OverlappingFragment)
      else if at + |data| > r.at + MAXIMUM_WINDOW || at + |data| > U64_MAX || |r.stored| >= MAXIMUM_FRAGMENTS
      then Rejected(WindowExceeded)
      else if OverlapsAny(r.stored, at, |data|) then Rejected(OverlappingFragment)
      else Accepted(Reassembly(r.at, r.stored[at := data]))
  }

  predicate CanTake(r: Reassembly) {
    r.at in r.stored
  }

  function Take(r: Reassembly): Reassembly
    requires CanTake(r)
  {
    Reassembly(r.at + |r.stored[r.at]|, r.stored - {r.at})
  }

  function End(m: map<nat, seq<byte>>, k: nat): nat
    requires k in m
  {
    k + |m[k]|
  }

  ghost predicate Disjoint(m: map<nat, seq<byte>>) {
    forall j, k :: j in m && k in m && j < k ==> End(m, j) <= k
  }

  /** Non-empty fragments that start at or after `offset` and end within the window. */
  ghost predicate Windowed(m: map<nat, seq<byte>>, offset: nat) {
    forall k :: k in m ==> m[k] != [] && offset <= k && End(m, k) <= offset + MAXIMUM_WINDOW
  }

  /** What every operation keeps: a disjoint, counted window of fragments beyond the read offset. */
  ghost predicate Consistent(r: Reassembly, bytes: nat) {
    && Disjoint(r.stored)
    && Windowed(r.stored, r.at)
    && bytes == Total(r.stored)
    && |r.stored| <= MAXIMUM_FRAGMENTS
  }

  ghost function Total(m: map<nat, seq<byte>>): nat
    decreases |m|
  {
    if m == map[] then 0
    else
      var k :| k in m;
      |m[k]| + Total(m - {k})
  }

  lemma {:induction false} TotalWithout(m: map<nat, seq<byte>>, k: nat)
    requires k in m
    ensures Total(m) == |m[k]| + Total(m - {k})
    decreases |m|
  {
    var j :| j in m && Total(m) == |m[j]| + Total(m - {j});
    if j != k {
      TotalWithout(m - {j}, k);
      TotalWithout(m - {k}, j);
      assert m - {j} - {k} == m - {k} - {j};
    }
  }

  lemma TotalWith(m: map<nat, seq<byte>>, k: nat, data: seq<byte>)
    requires k !in m
    ensures Total(m[k := data]) == Total(m) + |data|
  {
    TotalWithout(m[k := data], k);
    assert m[k := data] - {k} == m;
  }

  /** Disjoint fragments inside a window hold at most a window of octets. */
  lemma {:induction false} TotalWithin(m: map<nat, seq<byte>>, low: nat, high: nat)
    requires Disjoint(m) && low <= high
    requires forall k :: k in m ==> low <= k && End(m, k) <= high
    ensures Total(m) <= high - low
    decreases |m|
  {
    if m != map[] {
      var k := LeastKey(m);
      TotalWithout(m, k);
      var rest := m - {k};
      assert Disjoint(rest);
      forall j | j in rest
        ensures End(m, k) <= j && End(rest, j) <= high
      {
      }
      TotalWithin(rest, End(m, k), high);
    }
  }

  lemma {:induction false} LeastKey(m: map<nat, seq<byte>>) returns (k: nat)
    requires m != map[]
    ensures k in m && forall j :: j in m ==> k <= j
    decreases |m|
  {
    k :| k in m;
    var rest := m - {k};
    if rest != map[] {
      var j := LeastKey(rest);
      assert forall i :: i in m ==> i == k || i in rest;
      k := Min(j, k);
    }
  }

  /** Comparing with the two neighbours decides overlap with every stored fragment. */
  lemma NeighboursDecideOverlap(m: map<nat, seq<byte>>, at: nat, size: nat, next: Option<nat>, prev: Option<nat>)
    requires Disjoint(m) && size > 0
    requires forall k :: k in m ==> m[k] != []
    requires IsLowerBound(m, at, next) && IsPredecessor(m, at, prev)
    ensures OverlapsAny(m, at, size)
       <==> (next.Some? && at + size > next.value) || (prev.Some? && End(m, prev.value) > at)
  {
    if next.Some? && at + size > next.value {
      assert Overlap(at, size, next.value, |m[next.value]|);
    } else if prev.Some? && End(m, prev.value) > at {
      assert Overlap(at, size, prev.value, |m[prev.value]|);
    }
  }

  /** The first key at or after `at`. */
  ghost predicate IsLowerBound(m: map<nat, seq<byte>>, at: nat, next: Option<nat>) {
    && (next.Some? ==> next.value in m && at <= next.value)
    && (forall k :: k in m && at <= k ==> next.Some? && next.value <= k)
  }

  /** The last key before `at`. */
  ghost predicate IsPredecessor(m: map<nat, seq<byte>>, at: nat, prev: Option<nat>) {
    && (prev.Some? ==> prev.value in m && prev.value < at)
    && (forall k :: k in m && k < at ==> prev.Some? && k <= prev.value)
  }

  lemma FirstDecidesTake(r: Reassembly, first: Option<nat>)
    requires Windowed(r.stored, r.at) && IsLowerBound(r.stored, 0, first)
    ensures CanTake(r) <==> first == Some(r.at)
  {
  }

  lemma StoreKeepsConsistent(r: Reassembly, bytes: nat, payload: seq<byte>)
    requires Consistent(r, bytes) && Accept(r, payload).Accepted?
    ensures Consistent(Accept(r, payload).next, bytes + |payload| - OFFSET_SIZE)
  {
    var at, data := FromBigEndian(payload[..OFFSET_SIZE]), payload[OFFSET_SIZE..];
    var m := r.stored;
    assert forall k :: k in m ==> !Overlap(at, |data|, k, |m[k]|);
    TotalWith(m, at, data);
  }

  lemma TakenIsNotEmpty(r: Reassembly, bytes: nat)
    requires Consistent(r, bytes) && CanTake(r)
    ensures r.stored[r.at] != []
  {
  }

  lemma TakeKeepsConsistent(r: Reassembly, bytes: nat)
    requires Consistent(r, bytes) && CanTake(r)
    ensures |r.stored[r.at]| <= bytes
    ensures Consistent(Take(r), bytes - |r.stored[r.at]|)
  {
    var m, rest := r.stored, r.stored - {r.at};
    TotalWithout(m, r.at);
    forall k | k in rest
      ensures End(m, r.at) <= k && End(rest, k) <= End(m, r.at) + MAXIMUM_WINDOW
    {
      assert r.at < k;
    }
    assert Disjoint(rest);
  }

  class PacketReassembler {
    var fragments: map<nat, seq<byte>>
    var offset: nat
    var bytes: nat

    ghost predicate Valid()
      reads this
    {
      Consistent(State(), bytes)
    }

    ghost function State(): Reassembly
      reads this
    {
      Reassembly(offset, fragments)
    }

    constructor ()
      ensures Valid() && State() == Reassembly(0, map[])
    {
      fragments, offset, bytes := map[], 0, 0;
    }

    /** `std::map::lower_bound`. */
    method LowerBound(at: nat) returns (next: Option<nat>)
      ensures IsLowerBound(fragments, at, next)
    {
      next := None;
      var keys := fragments.Keys;
      while keys != {}
        invariant keys <= fragments.Keys
        invariant next.Some? ==> next.value in fragments && at <= next.value
        invariant forall k :: k in fragments && k !in keys && at <= k ==> next.Some? && next.value <= k
        decreases keys
      {
        var k :| k in keys;
        keys := keys - {k};
        if at <= k && (next.None? || k < next.value) {
          next := Some(k);
        }
      }
    }

    /** `std::prev` of the lower bound. */
    method Predecessor(at: nat) returns (prev: Option<nat>)
      ensures IsPredecessor(fragments, at, prev)
    {
      prev := None;
      var keys := fragments.Keys;
      while keys != {}
        invariant keys <= fragments.Keys
        invariant prev.Some? ==> prev.value in fragments && prev.value < at
        invariant forall k :: k in fragments && k !in keys && k < at ==> prev.Some? && k <= prev.value
        decreases keys
      {
        var k :| k in keys;
        keys := keys - {k};
        if k < at && (prev.None? || prev.value < k) {
          prev := Some(k);
        }
      }
    }

    /** `Accept`: a rejected fragment leaves the object as it was. */
    method Store(payload: seq<byte>) returns (rejected: Option<FramingError>)
      requires Valid()
      modifies this
      ensures Valid()
      ensures var a := Accept(old(State()), payload);
        && rejected == (if a.Rejected? then Some(a.error) else None)
        && State() == (if a.Rejected? then old(State()) else a.next)
      ensures rejected.Some? ==> unchanged(this)
    {
      assert Disjoint(fragments) && forall k :: k in fragments ==> fragments[k] != [];
      hide Consistent, Total, Disjoint;
      if |payload| <= OFFSET_SIZE {
        return Some(InvalidFragment);
      }
      var at := ReadBigEndian(payload[..OFFSET_SIZE]);
      var data := payload[OFFSET_SIZE..];
      if at < offset {
        return Some(OverlappingFragment);
      }
      if |data| > MAXIMUM_WINDOW || at - offset > MAXIMUM_WINDOW - |data|
         || |data| > U64_MAX - at || |fragments| >= MAXIMUM_FRAGMENTS {
        return Some(WindowExceeded);
      }
      var next := LowerBound(at);
      var prev := Predecessor(at);
      NeighboursDecideOverlap(fragments, at, |data|, next, prev);
      if (next.Some? && at + |data| > next.value) || (prev.Some? && End(fragments, prev.value) > at) {
        return Some(OverlappingFragment);
      }
      StoreKeepsConsistent(State(), bytes, payload);
      fragments := fragments[at := data];
      bytes := bytes + |data|;
      return None;
    }

    method TakeNext() returns (data: seq<byte>)
      requires Valid()
      modifies this
      ensures Valid()
      ensures var r := old(State());
        if CanTake(r) then data == r.stored[r.at] != [] && State() == Take(r) else data == [] && State() == r
    {
      var first := LowerBound(0);
      FirstDecidesTake(State(), first);
      if first.None? || first.value != offset {
        return [];
      }
      data := RemoveFirst();
    }

    method RemoveFirst() returns (data: seq<byte>)
      requires Valid() && CanTake(State())
      modifies this
      ensures Valid()
      ensures data == old(State()).stored[old(offset)] != [] && State() == Take(old(State()))
    {
      hide Consistent, Total;
      TakenIsNotEmpty(State(), bytes);
      TakeKeepsConsistent(State(), bytes);
      data := fragments[offset];
      fragments := fragments - {offset};
      bytes := bytes - |data|;
      offset := offset + |data|;
    }

    /** The running count is the number of stored octets, and never exceeds the window. */
    method BufferedBytes() returns (n: nat)
      requires Valid()
      ensures n == Total(fragments) <= MAXIMUM_WINDOW
    {
      TotalWithin(fragments, offset, offset + MAXIMUM_WINDOW);
      return bytes;
    }
  }
}
