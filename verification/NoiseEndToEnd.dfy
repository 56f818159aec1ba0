/** A sender and a receiver of the record layer, joined by a stream that moves any number of bytes at a time. */
module NoiseEndToEnd {
  import opened Bytes
  import opened NoiseTransport

  /** A message that was sent, the nonce it took and the number of sends refused before it. */
  datatype Entry = Entry(nonce: nat, plaintext: seq<byte>, refusedBefore: nat)

  datatype Link = Link(
    txNonce: nat, pending: seq<byte>, wire: seq<byte>, buffer: seq<byte>, rxNonce: nat,
    log: seq<Entry>, refused: nat, received: seq<seq<byte>>, failed: bool)

  const INITIAL := Link(0, [], [], [], 0, [], 0, [], false)

  datatype Event = Send(plaintext: seq<byte>) | Write(count: nat) | Read(count: nat) | Take

  predicate Enabled(c: Cipher, l: Link, e: Event) {
    match e
    case Send(_) => true
    case Write(n) => n <= |l.pending|
    case Read(n) =>
      && !l.failed && TakeFrame(c, l.rxNonce, l.buffer).NotYet?
      && 1 <= n <= |l.wire| && n <= HEADER_SIZE + MAXIMUM_CIPHERTEXT - |l.buffer|
    case Take => !l.failed
  }

  function Wrap(n: nat): (w: nat)
    ensures w < NONCES
  {
    n % NONCES
  }

  function Sent(c: Cipher, l: Link, p: seq<byte>): Link {
    var ciphertext := c.encrypt(l.txNonce, p);
    var next := l.(txNonce := Wrap(l.txNonce + 1));
    if |ciphertext| > MAXIMUM_CIPHERTEXT then next.(refused := l.refused + 1)
    else next.(pending := l.pending + Framed(ciphertext), log := l.log + [Entry(l.txNonce, p, l.refused)])
  }

  function Took(c: Cipher, l: Link): Link {
    match TakeFrame(c, l.rxNonce, l.buffer)
    case NotYet => l
    case Got(p, rest) => l.(buffer := rest, received := l.received + [p], rxNonce := Wrap(l.rxNonce + 1))
    case _ => l.(failed := true)
  }

  function Step(c: Cipher, l: Link, e: Event): Link
    requires Enabled(c, l, e)
  {
    match e
    case Send(p) => Sent(c, l, p)
    case Write(n) => l.(pending := l.pending[n..], wire := l.wire + l.pending[..n])
    case Read(n) => l.(wire := l.wire[n..], buffer := l.buffer + l.wire[..n])
    case Take => Took(c, l)
  }

  ghost predicate Reaches(c: Cipher, from: Link, run: seq<Event>, to: Link)
    decreases |run|
  {
    if run == [] then to == from
    else Enabled(c, from, run[0]) && Reaches(c, Step(c, from, run[0]), run[1..], to)
  }

  // ---- The records in flight -----------------------------------------------------------------

  ghost predicate AllFit(log: seq<Entry>) {
    forall i :: 0 <= i < |log| ==> Fits(log[i].plaintext)
  }

  ghost function Records(c: Cipher, log: seq<Entry>): seq<byte>
    requires c.Correct() && AllFit(log)
  {
    if log == [] then []
    else Framed(c.encrypt(log[0].nonce, log[0].plaintext)) + Records(c, log[1..])
  }

  lemma {:induction false} RecordsAppend(c: Cipher, log: seq<Entry>, e: Entry)
    requires c.Correct() && AllFit(log) && Fits(e.plaintext)
    ensures AllFit(log + [e]) && Records(c, log + [e]) == Records(c, log) + Framed(c.encrypt(e.nonce, e.plaintext))
  {
    if log == [] {
      assert ([] + [e])[1..] == [];
    } else {
      RecordsAppend(c, log[1..], e);
      assert (log + [e])[1..] == log[1..] + [e];
    }
  }

  /** What a receiver finds at the head of the records: the first of them, whole, or too little of it. */
  lemma HeadRecord(c: Cipher, nonce: nat, log: seq<Entry>, buffer: seq<byte>, rest: seq<byte>)
    requires c.Correct() && AllFit(log) && buffer + rest == Records(c, log)
    ensures match TakeFrame(c, nonce, buffer)
      case NotYet => log == [] || |buffer| < |Framed(c.encrypt(log[0].nonce, log[0].plaintext))|
      case WrongType => false
      case Unauthentic => log != [] && c.decrypt(nonce, c.encrypt(log[0].nonce, log[0].plaintext)) == None
      case Got(p, after) =>
        && log != [] && c.decrypt(nonce, c.encrypt(log[0].nonce, log[0].plaintext)) == Some(p)
        && AllFit(log[1..]) && after + rest == Records(c, log[1..])
  {
    if log != [] {
      var ciphertext := c.encrypt(log[0].nonce, log[0].plaintext);
      var record := Framed(ciphertext);
      TakeWhole(c, nonce, ciphertext, Records(c, log[1..]));
      if TakeFrame(c, nonce, buffer).NotYet? {
        ShortOfRecord(c, nonce, ciphertext, buffer, rest, Records(c, log[1..]));
      } else {
        TakeIsStable(c, nonce, buffer, rest);
      }
    }
  }

  lemma TakeWhole(c: Cipher, nonce: nat, ciphertext: seq<byte>, rest: seq<byte>)
    requires |ciphertext| <= MAXIMUM_CIPHERTEXT
    ensures TakeFrame(c, nonce, Framed(ciphertext) + rest) ==
      match c.decrypt(nonce, ciphertext) case None => Unauthentic case Some(p) => Got(p, rest)
  {
    var b := Framed(ciphertext) + rest;
    assert b[1] as int * 256 + b[2] == |ciphertext|;
    assert b[HEADER_SIZE..HEADER_SIZE + |ciphertext|] == ciphertext;
    assert b[HEADER_SIZE + |ciphertext|..] == rest;
  }

  lemma ShortOfRecord(c: Cipher, nonce: nat, ciphertext: seq<byte>,
                      buffer: seq<byte>, rest: seq<byte>, later: seq<byte>)
    requires |ciphertext| <= MAXIMUM_CIPHERTEXT && buffer + rest == Framed(ciphertext) + later
    requires TakeFrame(c, nonce, buffer).NotYet?
    ensures |buffer| < HEADER_SIZE + |ciphertext|
  {
    var b := Framed(ciphertext) + later;
    assert forall i :: 0 <= i < |buffer| ==> buffer[i] == b[i];
  }

  // ---- What every run keeps ------------------------------------------------------------------

  lemma WrapNext(n: nat)
    ensures Wrap(Wrap(n) + 1) == Wrap(n + 1)
  {
  }

  /** Every send took a nonce, refused or not. */
  ghost predicate Numbered(log: seq<Entry>, refused: nat) {
    forall i :: 0 <= i < |log| ==> log[i].nonce == Wrap(i + log[i].refusedBefore) && log[i].refusedBefore <= refused
  }

  /** The i-th message received is what the i-th record opens to under nonce i. */
  ghost predicate Opened(c: Cipher, log: seq<Entry>, received: seq<seq<byte>>) {
    && |received| <= |log|
    && forall i :: 0 <= i < |received| ==> Opens(c, i, log[i]) == Some(received[i])
  }

  ghost function Opens(c: Cipher, i: nat, e: Entry): Option<seq<byte>> {
    c.decrypt(Wrap(i), c.encrypt(e.nonce, e.plaintext))
  }

  /** While the receiver has not failed, the bytes between the two ends are the records not yet received. */
  ghost predicate InFlight(c: Cipher, l: Link)
    requires c.Correct() && AllFit(l.log)
  {
    && |l.received| <= |l.log|
    && if l.failed then |l.received| < |l.log| && Opens(c, |l.received|, l.log[|l.received|]) == None
       else l.buffer + l.wire + l.pending == Records(c, l.log[|l.received|..])
  }

  ghost predicate Inv(c: Cipher, l: Link)
    requires c.Correct()
  {
    && l.txNonce == Wrap(|l.log| + l.refused) && l.rxNonce == Wrap(|l.received|)
    && AllFit(l.log) && Numbered(l.log, l.refused) && Opened(c, l.log, l.received) && InFlight(c, l)
  }

  lemma NumberedNext(log: seq<Entry>, refused: nat, p: seq<byte>)
    requires Numbered(log, refused)
    ensures Numbered(log + [Entry(Wrap(|log| + refused), p, refused)], refused) && Numbered(log, refused + 1)
  {
    hide Wrap;
  }

  lemma OpenedStays(c: Cipher, log: seq<Entry>, received: seq<seq<byte>>, e: Entry)
    requires Opened(c, log, received)
    ensures Opened(c, log + [e], received)
  {
    hide Opens;
  }

  lemma OpenedNext(c: Cipher, log: seq<Entry>, received: seq<seq<byte>>, p: seq<byte>)
    requires Opened(c, log, received) && |received| < |log| && Opens(c, |received|, log[|received|]) == Some(p)
    ensures Opened(c, log, received + [p])
  {
    hide Opens;
  }

  lemma SendInFlight(c: Cipher, l: Link, p: seq<byte>)
    requires c.Correct() && AllFit(l.log) && InFlight(c, l) && Fits(p)
    ensures AllFit(Sent(c, l, p).log) && InFlight(c, Sent(c, l, p))
  {
    hide Opens;
    var e, r := Entry(l.txNonce, p, l.refused), |l.received|;
    assert (l.log + [e])[r..] == l.log[r..] + [e];
    RecordsAppend(c, l.log[r..], e);
    hide Records, Framed;
    Associate(l.buffer + l.wire, l.pending, Framed(c.encrypt(e.nonce, p)));
  }

  lemma SendKeeps(c: Cipher, l: Link, p: seq<byte>)
    requires c.Correct() && Inv(c, l)
    ensures Inv(c, Sent(c, l, p))
  {
    hide Wrap, Numbered, Opened, InFlight;
    WrapNext(|l.log| + l.refused);
    NumberedNext(l.log, l.refused, p);
    OpenedStays(c, l.log, l.received, Entry(l.txNonce, p, l.refused));
    if Fits(p) {
      SendInFlight(c, l, p);
    } else {
      SameFlight(c, l, Sent(c, l, p));
    }
  }

  lemma SameFlight(c: Cipher, l: Link, m: Link)
    requires c.Correct() && AllFit(l.log) && InFlight(c, l)
    requires m.log == l.log && m.received == l.received && m.failed == l.failed
    requires m.buffer + m.wire + m.pending == l.buffer + l.wire + l.pending
    ensures InFlight(c, m)
  {
  }

  lemma MoveKeeps(a: seq<byte>, b: seq<byte>, n: nat)
    requires n <= |b|
    ensures a + b[..n] + b[n..] == a + b
  {
    assert b[..n] + b[n..] == b;
  }

  lemma TakeInFlight(c: Cipher, l: Link)
    requires c.Correct() && AllFit(l.log) && InFlight(c, l) && !l.failed && l.rxNonce == Wrap(|l.received|)
    ensures InFlight(c, Took(c, l))
    ensures var t := TakeFrame(c, l.rxNonce, l.buffer);
      t.Got? ==> |l.received| < |l.log| && Opens(c, |l.received|, l.log[|l.received|]) == Some(t.plaintext)
  {
    var r := |l.received|;
    Associate(l.buffer, l.wire, l.pending);
    HeadRecord(c, l.rxNonce, l.log[r..], l.buffer, l.wire + l.pending);
    hide Records, Framed, TakeFrame, Wrap;
    if r < |l.log| {
      assert l.log[r..][0] == l.log[r] && l.log[r..][1..] == l.log[r + 1..];
    }
    var t := TakeFrame(c, l.rxNonce, l.buffer);
    if t.Got? {
      Associate(t.rest, l.wire, l.pending);
    }
  }

  lemma TakeKeeps(c: Cipher, l: Link)
    requires c.Correct() && Inv(c, l) && !l.failed
    ensures Inv(c, Took(c, l))
  {
    hide Wrap, Numbered, Opened, InFlight, Opens;
    TakeInFlight(c, l);
    WrapNext(|l.received|);
    var t := TakeFrame(c, l.rxNonce, l.buffer);
    if t.Got? {
      OpenedNext(c, l.log, l.received, t.plaintext);
    }
  }

  lemma StepKeeps(c: Cipher, l: Link, e: Event)
    requires c.Correct() && Inv(c, l) && Enabled(c, l, e)
    ensures Inv(c, Step(c, l, e))
  {
    hide Wrap, Numbered, Opened, InFlight, Sent, Took;
    match e
    case Send(p) => SendKeeps(c, l, p);
    case Write(n) =>
      MoveKeeps(l.wire, l.pending, n);
      Associate(l.buffer, l.wire + l.pending[..n], l.pending[n..]);
      Associate(l.buffer, l.wire, l.pending);
      SameFlight(c, l, Step(c, l, e));
    case Read(n) =>
      MoveKeeps(l.buffer, l.wire, n);
      SameFlight(c, l, Step(c, l, e));
    case Take => TakeKeeps(c, l);
  }

  lemma {:induction false} RunKeeps(c: Cipher, from: Link, run: seq<Event>, to: Link)
    requires c.Correct() && Inv(c, from) && Reaches(c, from, run, to)
    ensures Inv(c, to)
    decreases |run|
  {
    if run != [] {
      StepKeeps(c, from, run[0]);
      RunKeeps(c, Step(c, from, run[0]), run[1..], to);
    }
  }

  // ---- What was sent -------------------------------------------------------------------------

  function Messages(run: seq<Event>): seq<seq<byte>> {
    if run == [] then []
    else Message(run[0]) + Messages(run[1..])
  }

  function Plaintexts(log: seq<Entry>): seq<seq<byte>> {
    seq(|log|, i requires 0 <= i < |log| => log[i].plaintext)
  }

  ghost predicate NoneRefused(run: seq<Event>) {
    forall e :: e in run && e.Send? ==> Fits(e.plaintext)
  }

  function Message(e: Event): seq<seq<byte>> {
    if e.Send? && Fits(e.plaintext) then [e.plaintext] else []
  }

  lemma StepLogs(c: Cipher, l: Link, e: Event)
    requires c.Correct() && Enabled(c, l, e)
    ensures Plaintexts(Step(c, l, e).log) == Plaintexts(l.log) + Message(e)
    ensures l.refused <= Step(c, l, e).refused
    ensures (e.Send? ==> Fits(e.plaintext)) ==> Step(c, l, e).refused == l.refused
  {
    hide TakeFrame, Framed, Wrap;
  }

  lemma {:induction false} LogIsMessages(c: Cipher, from: Link, run: seq<Event>, to: Link)
    requires c.Correct() && Reaches(c, from, run, to)
    ensures Plaintexts(to.log) == Plaintexts(from.log) + Messages(run)
    ensures from.refused <= to.refused && (NoneRefused(run) ==> to.refused == from.refused)
    decreases |run|
  {
    hide Step, Enabled, Plaintexts, Message;
    if run == [] {
      assert Plaintexts(from.log) + [] == Plaintexts(from.log);
    } else {
      var next := Step(c, from, run[0]);
      StepLogs(c, from, run[0]);
      LogIsMessages(c, next, run[1..], to);
      Associate(Plaintexts(from.log), Message(run[0]), Messages(run[1..]));
    }
  }

  /**
   * With no refused send, whatever the writes, reads and interleaving: the messages received are a prefix of those
   * sent, nothing fails, and record i carries nonce i on both sides.
   */
  lemma ReceivedIsPrefix(c: Cipher, run: seq<Event>, l: Link)
    requires c.Correct() && Reaches(c, INITIAL, run, l) && NoneRefused(run)
    ensures !l.failed && l.received <= Messages(run)
    ensures l.rxNonce == Wrap(|l.received|) && forall i :: 0 <= i < |l.log| ==> l.log[i].nonce == Wrap(i)
  {
    RunKeeps(c, INITIAL, run, l);
    LogIsMessages(c, INITIAL, run, l);
    assert Plaintexts(INITIAL.log) + Messages(run) == Messages(run);
    hide Wrap, InFlight, Messages, Opened, Numbered, Opens;
    OwnNonces(l.log);
    InOrder(c, l.log, l.received);
    DoesNotFail(c, l);
  }

  lemma OwnNonces(log: seq<Entry>)
    requires Numbered(log, 0)
    ensures forall i :: 0 <= i < |log| ==> log[i].nonce == Wrap(i)
  {
    hide Wrap;
  }

  lemma InOrder(c: Cipher, log: seq<Entry>, received: seq<seq<byte>>)
    requires c.Correct() && Opened(c, log, received) && (forall i :: 0 <= i < |log| ==> log[i].nonce == Wrap(i))
    ensures received <= Plaintexts(log)
  {
    hide Wrap, Opens;
    forall i | 0 <= i < |received|
      ensures received[i] == log[i].plaintext
    {
      OpensOwn(c, i, log[i]);
    }
  }

  lemma OpensOwn(c: Cipher, i: nat, e: Entry)
    requires c.Correct() && e.nonce == Wrap(i)
    ensures Opens(c, i, e) == Some(e.plaintext)
  {
  }

  lemma DoesNotFail(c: Cipher, l: Link)
    requires c.Correct() && AllFit(l.log) && InFlight(c, l)
    requires forall i :: 0 <= i < |l.log| ==> l.log[i].nonce == Wrap(i)
    ensures !l.failed
  {
    hide Wrap;
    var r := |l.received|;
    if r < |l.log| {
      OpensOwn(c, r, l.log[r]);
    }
  }

  /** Once every byte has been moved and no frame can be taken, all that was sent has been received. */
  lemma NothingIsLost(c: Cipher, run: seq<Event>, l: Link)
    requires c.Correct() && Reaches(c, INITIAL, run, l) && NoneRefused(run)
    requires l.pending == [] && l.wire == [] && TakeFrame(c, l.rxNonce, l.buffer).NotYet?
    ensures l.received == Messages(run) && l.buffer == []
  {
    ReceivedIsPrefix(c, run, l);
    RunKeeps(c, INITIAL, run, l);
    LogIsMessages(c, INITIAL, run, l);
    hide Messages, Reaches, Wrap, Numbered, Opened;
    assert Plaintexts(INITIAL.log) + Messages(run) == Messages(run);
    AllTaken(c, l);
  }

  lemma AllTaken(c: Cipher, l: Link)
    requires c.Correct() && AllFit(l.log) && InFlight(c, l) && !l.failed
    requires l.pending == [] && l.wire == [] && TakeFrame(c, l.rxNonce, l.buffer).NotYet?
    ensures |l.received| == |l.log| && l.buffer == []
  {
    hide TakeFrame, Opens;
    assert l.buffer + l.wire + l.pending == l.buffer + [] == l.buffer;
    HeadRecord(c, l.rxNonce, l.log[|l.received|..], l.buffer, []);
  }

  // ---- Refused sends -------------------------------------------------------------------------

  lemma Shifted(i: nat, k: nat)
    ensures Wrap(i + k) == Wrap(i) <==> Wrap(k) == 0
  {
  }

  /**
   * A refused send has taken a nonce.  With a cipher that binds the nonce, the next whole record is received exactly
   * when the sends refused before it number a multiple of 2^64; otherwise the receiver stops there for good.
   */
  lemma RefusedSendDesynchronises(c: Cipher, run: seq<Event>, l: Link)
    requires c.Correct() && c.Binding() && Reaches(c, INITIAL, run, l) && !l.failed
    requires |l.received| < |l.log| && !TakeFrame(c, l.rxNonce, l.buffer).NotYet?
    ensures var next, r := Took(c, l), |l.received|;
      if Wrap(l.log[r].refusedBefore) == 0 then next.received == l.received + [l.log[r].plaintext] && !next.failed
      else next.received == l.received && next.failed
  {
    RunKeeps(c, INITIAL, run, l);
    var r := |l.received|;
    Associate(l.buffer, l.wire, l.pending);
    HeadRecord(c, l.rxNonce, l.log[r..], l.buffer, l.wire + l.pending);
    assert l.log[r..][0] == l.log[r];
    hide Wrap, Records, Framed, TakeFrame;
    Shifted(r, l.log[r].refusedBefore);
  }

  // ---- A failing run -------------------------------------------------------------------------

  /** A cipher that only tags: correct, and binding its nonce. */
  function Seal(nonce: nat, plaintext: seq<byte>): seq<byte> {
    plaintext + BigEndian(nonce, TAG_SIZE)
  }

  function Unseal(nonce: nat, ciphertext: seq<byte>): Option<seq<byte>> {
    if |ciphertext| < TAG_SIZE then None
    else
      var n := |ciphertext| - TAG_SIZE;
      if ciphertext[n..] == BigEndian(nonce, TAG_SIZE) then Some(ciphertext[..n]) else None
  }

  function Tagging(): Cipher {
    Cipher(Seal, Unseal)
  }

  lemma TagsDiffer(n: nat, m: nat)
    requires n < NONCES && m < NONCES && n != m
    ensures BigEndian(n, TAG_SIZE) != BigEndian(m, TAG_SIZE)
  {
    assert Power256(4) == 4294967296;
    assert Power256(8) == 256 * (256 * (256 * (256 * Power256(4)))) && Power256(8) == NONCES;
    WideEnough(8, TAG_SIZE);
    ReadAppended(n, TAG_SIZE);
    ReadAppended(m, TAG_SIZE);
  }

  lemma {:induction false} WideEnough(i: nat, j: nat)
    requires i <= j
    ensures Power256(i) <= Power256(j)
    decreases j
  {
    if i < j {
      WideEnough(i, j - 1);
    }
  }

  lemma TaggingIsSound()
    ensures Tagging().Correct() && Tagging().Binding()
  {
    var c := Tagging();
    forall n: nat, p: seq<byte>
      ensures |c.encrypt(n, p)| == |p| + TAG_SIZE && c.decrypt(n, c.encrypt(n, p)) == Some(p)
    {
      assert Seal(n, p)[|p|..] == BigEndian(n, TAG_SIZE) && Seal(n, p)[..|p|] == p;
    }
    forall n: nat, m: nat, p: seq<byte> | n < NONCES && m < NONCES && n != m
      ensures c.decrypt(m, c.encrypt(n, p)) == None
    {
      assert Seal(n, p)[|p|..] == BigEndian(n, TAG_SIZE);
      TagsDiffer(n, m);
    }
  }

  /** One message too long by a single octet, then an empty one: the receiver fails on the first record it is sent. */
  lemma OneRefusalStopsReceiver() returns (c: Cipher, long: seq<byte>, run: seq<Event>, l: Link)
    ensures c.Correct() && c.Binding() && |long| + TAG_SIZE == MAXIMUM_CIPHERTEXT + 1
    ensures run == [Send(long), Send([]), Write(19), Read(19), Take] && Reaches(c, INITIAL, run, l)
    ensures l.failed && l.received == [] && Messages(run) == [[]]
  {
    c, long := Tagging(), seq(65520, _ => 0);
    TaggingIsSound();
    run := [Send(long), Send([]), Write(19), Read(19), Take];
    LongIsNoMessage(long, run);
    l := FailingRun(c, long, run);
  }

  /** The same with any sound cipher. */
  lemma FailingRun(c: Cipher, long: seq<byte>, run: seq<Event>) returns (l: Link)
    requires c.Correct() && c.Binding() && !Fits(long) && run == [Send(long), Send([]), Write(19), Read(19), Take]
    ensures Reaches(c, INITIAL, run, l) && l.failed && l.received == []
  {
    hide Wrap, Framed, TakeFrame;
    assert Wrap(0) == 0 && Wrap(1) == 1 && Wrap(2) == 2 by {
      SmallNonces();
    }
    var ciphertext := c.encrypt(1, []);
    var record := OneRecord(c, ciphertext);
    var l1 := INITIAL.(txNonce := 1, refused := 1);
    var l2 := l1.(txNonce := 2, pending := record, log := [Entry(1, [], 1)]);
    var l3 := l2.(pending := [], wire := record);
    var l4 := l3.(wire := [], buffer := record);
    l := l4.(failed := true);
    assert Sent(c, INITIAL, long) == l1;
    assert Sent(c, l1, []) == l2;
    assert record[..19] == record && record[19..] == [];
    RunOfFive(c, run, l1, l2, l3, l4, l);
  }

  lemma SmallNonces()
    ensures Wrap(0) == 0 && Wrap(1) == 1 && Wrap(2) == 2
  {
  }

  lemma OneRecord(c: Cipher, ciphertext: seq<byte>) returns (record: seq<byte>)
    requires c.Correct() && c.Binding() && ciphertext == c.encrypt(1, [])
    ensures |ciphertext| == 16 && record == Framed(ciphertext) && |record| == 19
    ensures TakeFrame(c, 0, []).NotYet? && TakeFrame(c, 0, record).Unauthentic?
  {
    assert |ciphertext| == 16;
    record := Framed(ciphertext);
    TakeWhole(c, 0, ciphertext, []);
    assert record + [] == record;
    assert c.decrypt(0, c.encrypt(1, [])) == None;
  }

  lemma LongIsNoMessage(long: seq<byte>, run: seq<Event>)
    requires !Fits(long) && run == [Send(long), Send([]), Write(19), Read(19), Take]
    ensures Messages(run) == [[]]
  {
    assert run[1..] == [Send([]), Write(19), Read(19), Take] && run[1..][1..] == [Write(19), Read(19), Take];
    assert Messages([Take]) == [] && [Read(19), Take][1..] == [Take];
    assert Messages([Read(19), Take]) == [] && [Write(19), Read(19), Take][1..] == [Read(19), Take];
    assert Messages([Write(19), Read(19), Take]) == [];
  }

  lemma RunOfFive(c: Cipher, run: seq<Event>, l1: Link, l2: Link, l3: Link, l4: Link, l5: Link)
    requires |run| == 5
    requires Enabled(c, INITIAL, run[0]) && Step(c, INITIAL, run[0]) == l1
    requires Enabled(c, l1, run[1]) && Step(c, l1, run[1]) == l2
    requires Enabled(c, l2, run[2]) && Step(c, l2, run[2]) == l3 && Enabled(c, l3, run[3]) && Step(c, l3, run[3]) == l4
    requires Enabled(c, l4, run[4]) && Step(c, l4, run[4]) == l5
    ensures Reaches(c, INITIAL, run, l5)
  {
    hide Enabled, Step;
    assert Reaches(c, l5, run[5..], l5);
    assert run[4..][1..] == run[5..] && Reaches(c, l4, run[4..], l5);
    assert run[3..][1..] == run[4..] && Reaches(c, l3, run[3..], l5);
    assert run[2..][1..] == run[3..] && Reaches(c, l2, run[2..], l5);
    assert run[1..][1..] == run[2..] && Reaches(c, l1, run[1..], l5);
  }
}
