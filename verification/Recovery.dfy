/**
 * Recovery of a hosted relay connection, src/core/hosted/Recovery.cpp: an owner that schedules, a bootstrap thread
 * that connects, a stop request and a completion slot under a mutex.  A step is what one thread does between two
 * points at which the other can see or block it.
 */
module Recovery {
  import opened Bytes

  datatype Options = Options(target: string, networkInterface: string)

  datatype Phase = Connecting | Finished(connected: bool) | Published | Exited

  /** `epoch` is not in the program: the number of cancellations before the thread started. */
  datatype Thread = Thread(generation: nat, options: Options, epoch: nat, stop: bool, phase: Phase)

  /** A connection is known by the thread that made it. */
  datatype Completion = Completion(generation: nat, connection: Option<nat>)

  datatype Next = Return | SetOptions(options: Options) | SetInterface(networkInterface: string) | JoinAndWipe

  /** Where the owner is: between calls, or inside one. */
  datatype Owner =
    | Idle | Clearing(next: Next) | Joining | Wiping
    | Taken(held: Completion) | Judging(held: Completion) | Scheduling

  /**
   * `handle` is the joinable thread.  `woken` says that the event loop, which polls on every turn, has a turn to come
   * without waiting for a deadline.  The last two fields are not in the program: `epoch` counts all cancellations,
   * without wrapping; `wanted` says that a failure or a network change has been reported since the last cancellation
   * or the last connection handed out.
   */
  datatype System = System(
    generation: nat, options: Option<Options>, deadline: Option<int>, slot: Option<Completion>,
    threads: seq<Thread>, handle: Option<nat>, owner: Owner, woken: bool, epoch: nat, wanted: bool)

  const INITIAL := System(0, None, None, None, [], None, Idle, false, 0, false)

  const GENERATIONS := 0x1_0000_0000_0000_0000

  datatype Event =
    | Configure(options: Options) | Cancel | ChangeNetwork(networkInterface: string) | Reset
    | Failed(now: int, delay: nat)
    | ClearSlot(now: int) | Join | Wipe
    | Take | Judge(now: int, delay: nat) | Schedule(now: int)
    | Finish(thread: nat, connected: bool) | Publish(thread: nat) | Exit(thread: nat)

  predicate Enabled(s: System, e: Event) {
    match e
    case Configure(_) => s.owner.Idle?
    case Cancel => s.owner.Idle?
    case ChangeNetwork(_) => s.owner.Idle?
    case Reset => s.owner.Idle?
    case Failed(_, _) => s.owner.Idle?
    case ClearSlot(_) => s.owner.Clearing?
    case Join => if s.handle.None? then s.owner.Joining?
                 else (s.owner.Joining? || s.owner.Taken?) && ThreadIs(s.threads, s.handle.value, Exited)
    case Wipe => s.owner.Wiping?
    case Take => s.owner.Idle?
    case Judge(_, _) => s.owner.Judging?
    case Schedule(_) => s.owner.Scheduling?
    case Finish(i, _) => ThreadIs(s.threads, i, Connecting)
    case Publish(i) => i < |s.threads| && s.threads[i].phase.Finished?
    case Exit(i) => ThreadIs(s.threads, i, Published)
  }

  predicate ThreadIs(threads: seq<Thread>, i: nat, phase: Phase) {
    i < |threads| && threads[i].phase == phase
  }

  /** The first part of every cancellation, up to taking the lock. */
  function Stop(s: System, next: Next): System {
    s.(generation := (s.generation + 1) % GENERATIONS, epoch := s.epoch + 1, deadline := None, wanted := false,
       threads := if s.handle.Some? && s.handle.value < |s.threads|
                  then s.threads[s.handle.value := s.threads[s.handle.value].(stop := true)] else s.threads,
       owner := Clearing(next))
  }

  function Cleared(s: System, now: int): System
    requires s.owner.Clearing?
  {
    var t := s.(slot := if s.slot.Some? then Some(s.slot.value.(connection := None)) else None, owner := Idle);
    match s.owner.next
    case Return => t
    case SetOptions(options) => t.(options := Some(options))
    case SetInterface(networkInterface) =>
      if s.options.None? then t
      else
        t.(options := Some(s.options.value.(networkInterface := networkInterface)),
           deadline := Some(now), woken := true, wanted := true)
    case JoinAndWipe => t.(owner := Joining)
  }

  function Reported(s: System, now: int, delay: nat): System {
    if s.options.Some? && s.deadline.None? then s.(deadline := Some(now + delay)) else s
  }

  function Judged(s: System, now: int, delay: nat): System
    requires s.owner.Judging?
  {
    if s.owner.held.generation != s.generation then s.(owner := Scheduling)
    else if s.owner.held.connection.Some? then s.(deadline := None, wanted := false, owner := Idle)
    else Reported(s.(deadline := None, owner := Scheduling), now, delay)
  }

  /** What this step of `Poll` hands to its caller. */
  function Returned(s: System, e: Event): Option<nat> {
    if e.Judge? && s.owner.Judging? && s.owner.held.generation == s.generation then s.owner.held.connection else None
  }

  predicate Starts(s: System, now: int) {
    s.options.Some? && s.deadline.Some? && s.handle.None? && s.deadline.value <= now
  }

  function Scheduled(s: System, now: int): System {
    if !Starts(s, now) then s.(owner := Idle)
    else
      s.(deadline := None, handle := Some(|s.threads|), owner := Idle,
         threads := s.threads + [Thread(s.generation, s.options.value, s.epoch, false, Connecting)])
  }

  function InPhase(threads: seq<Thread>, i: nat, phase: Phase): seq<Thread>
    requires i < |threads|
  {
    threads[i := threads[i].(phase := phase)]
  }

  /** The worker's locked region: a connection is dropped when a stop has been requested. */
  function PublishedBy(s: System, i: nat): System
    requires i < |s.threads| && s.threads[i].phase.Finished?
  {
    var t := s.threads[i];
    s.(slot := Some(Completion(t.generation, if t.phase.connected && !t.stop then Some(i) else None)),
       threads := InPhase(s.threads, i, Published))
  }

  function Step(s: System, e: Event): System
    requires Enabled(s, e)
  {
    match e
    case Configure(options) => Stop(s, SetOptions(options))
    case Cancel => Stop(s, Return)
    case ChangeNetwork(networkInterface) => if s.options.None? then s else Stop(s, SetInterface(networkInterface))
    case Reset => Stop(s, JoinAndWipe)
    case Failed(now, delay) => Reported(s, now, delay).(wanted := s.wanted || s.options.Some?)
    case ClearSlot(now) => Cleared(s, now)
    case Join => s.(handle := None, owner := if s.owner.Joining? then Wiping else Judging(s.owner.held))
    case Wipe => s.(slot := None, options := None, owner := Idle)
    case Take =>
      if s.slot.None? then s.(owner := Scheduling, woken := false)
      else s.(slot := None, owner := Taken(s.slot.value), woken := false)
    case Judge(now, delay) => Judged(s, now, delay)
    case Schedule(now) => Scheduled(s, now)
    case Finish(i, connected) => s.(threads := InPhase(s.threads, i, Finished(connected)))
    case Publish(i) => PublishedBy(s, i)
    case Exit(i) => s.(threads := InPhase(s.threads, i, Exited), woken := true)
  }

  ghost predicate Reaches(from: System, run: seq<Event>, to: System)
    decreases |run|
  {
    if run == [] then to == from
    else Enabled(from, run[0]) && Reaches(Step(from, run[0]), run[1..], to)
  }

  // ---- What every reachable state satisfies --------------------------------------------------

  /** Only the joinable thread can still be alive; the epoch of a thread explains its generation. */
  ghost predicate ThreadsOk(threads: seq<Thread>, handle: Option<nat>, epoch: nat) {
    && (handle.Some? ==> handle.value < |threads|)
    && forall i :: 0 <= i < |threads| ==>
        && (handle != Some(i) ==> threads[i].phase.Exited?)
        && threads[i].epoch <= epoch && threads[i].generation == threads[i].epoch % GENERATIONS
  }

  /** The joinable thread runs for the current options, or it has been told to stop. */
  ghost predicate HandleOk(t: Thread, options: Option<Options>, epoch: nat, owner: Owner) {
    && (t.stop <==> t.epoch < epoch)
    && (owner.Clearing? || owner.Joining? ==> t.stop)
    && (t.epoch == epoch ==> options == Some(t.options))
  }

  /** A completion waiting in the slot, or taken from it, is the joinable thread's. */
  ghost predicate CompletionOk(c: Completion, threads: seq<Thread>, h: nat) {
    && h < |threads| && (threads[h].phase.Published? || threads[h].phase.Exited?)
    && c.generation == threads[h].generation
    && (c.connection.Some? ==> c.connection.value == h)
  }

  ghost predicate ConnectionIsCurrent(c: Completion, threads: seq<Thread>, options: Option<Options>, epoch: nat) {
    c.connection.Some? ==>
      && c.connection.value < |threads|
      && threads[c.connection.value].epoch == epoch && options == Some(threads[c.connection.value].options)
  }

  ghost predicate SlotOk(s: System) {
    && (s.slot.Some? && !s.owner.Wiping? ==> s.handle.Some? && CompletionOk(s.slot.value, s.threads, s.handle.value))
    && (s.slot.Some? && !s.owner.Clearing? ==> ConnectionIsCurrent(s.slot.value, s.threads, s.options, s.epoch))
    && (s.handle.Some? && s.slot.None? && s.handle.value < |s.threads| && !s.owner.Taken? ==>
          s.threads[s.handle.value].phase.Connecting? || s.threads[s.handle.value].phase.Finished?)
  }

  ghost predicate HeldOk(s: System) {
    && (s.owner.Taken? ==> s.slot.None? && s.handle.Some? && CompletionOk(s.owner.held, s.threads, s.handle.value))
    && (s.owner.Taken? || s.owner.Judging? ==> ConnectionIsCurrent(s.owner.held, s.threads, s.options, s.epoch))
    && (s.owner.Judging? || s.owner.Wiping? ==> s.handle.None?)
    && (s.owner.Judging? ==> s.slot.None?)
    && (s.owner.Clearing? && s.owner.next.SetInterface? ==> s.options.Some?)
  }

  /** A wanted recovery has a deadline, or a thread of the current epoch whose outcome has not been judged. */
  ghost predicate WantedOk(s: System) {
    s.wanted ==>
      && s.options.Some? && !s.owner.Clearing? && !s.owner.Joining? && !s.owner.Wiping?
      && (s.deadline.Some?
          || (s.handle.Some? && s.handle.value < |s.threads| && s.threads[s.handle.value].epoch == s.epoch)
          || (s.owner.Judging? && s.owner.held.generation == s.generation))
  }

  /** The completion of a thread that is gone is announced. */
  ghost predicate WokenOk(s: System) {
    s.slot.Some? && s.handle.Some? && ThreadIs(s.threads, s.handle.value, Exited) ==> s.woken
  }

  ghost predicate Inv(s: System) {
    && s.generation == s.epoch % GENERATIONS
    && ThreadsOk(s.threads, s.handle, s.epoch)
    && (s.handle.Some? ==> HandleOk(s.threads[s.handle.value], s.options, s.epoch, s.owner))
    && SlotOk(s) && HeldOk(s) && WantedOk(s) && WokenOk(s)
  }

  lemma StopKeeps(s: System, next: Next)
    requires Inv(s) && s.owner.Idle? && (next.SetInterface? ==> s.options.Some?)
    ensures Inv(Stop(s, next))
  {
  }

  lemma ClearKeeps(s: System, now: int)
    requires Inv(s) && s.owner.Clearing?
    ensures Inv(Cleared(s, now))
  {
  }

  lemma JudgeKeeps(s: System, now: int, delay: nat)
    requires Inv(s) && s.owner.Judging?
    ensures Inv(Judged(s, now, delay))
  {
  }

  lemma ScheduleKeeps(s: System, now: int)
    requires Inv(s) && s.owner.Scheduling?
    ensures Inv(Scheduled(s, now))
  {
  }

  lemma OwnerKeeps(s: System, e: Event)
    requires Inv(s) && Enabled(s, e) && (e.Failed? || e.Join? || e.Wipe? || e.Take?)
    ensures Inv(Step(s, e))
  {
  }

  lemma ThreadKeeps(s: System, e: Event)
    requires Inv(s) && Enabled(s, e) && (e.Finish? || e.Publish? || e.Exit?)
    ensures Inv(Step(s, e))
  {
    assert s.handle == Some(e.thread);
  }

  lemma StepKeeps(s: System, e: Event)
    requires Inv(s) && Enabled(s, e)
    ensures Inv(Step(s, e))
  {
    hide Inv, Stop, Cleared, Judged, Scheduled, PublishedBy, Reported;
    match e
    case Configure(options) => StopKeeps(s, SetOptions(options));
    case Cancel => StopKeeps(s, Return);
    case ChangeNetwork(networkInterface) =>
      if s.options.Some? {
        StopKeeps(s, SetInterface(networkInterface));
      }
    case Reset => StopKeeps(s, JoinAndWipe);
    case ClearSlot(now) => ClearKeeps(s, now);
    case Judge(now, delay) => JudgeKeeps(s, now, delay);
    case Schedule(now) => ScheduleKeeps(s, now);
    case Finish(_, _) => ThreadKeeps(s, e);
    case Publish(_) => ThreadKeeps(s, e);
    case Exit(_) => ThreadKeeps(s, e);
    case _ => OwnerKeeps(s, e);
  }

  lemma {:induction false} RunKeeps(from: System, run: seq<Event>, to: System)
    requires Inv(from) && Reaches(from, run, to)
    ensures Inv(to)
    decreases |run|
  {
    if run != [] {
      StepKeeps(from, run[0]);
      RunKeeps(Step(from, run[0]), run[1..], to);
    }
  }

  // ---- The cancellation race -----------------------------------------------------------------

  ghost predicate Reachable(s: System) {
    exists run: seq<Event> :: Reaches(INITIAL, run, s)
  }

  lemma ReachableKeeps(s: System)
    requires Reachable(s)
    ensures Inv(s)
  {
    var run :| Reaches(INITIAL, run, s);
    RunKeeps(INITIAL, run, s);
  }

  /**
   * At most one bootstrap thread is alive, it is the joinable one, and a new one starts only after all have exited.
   * A completion in the slot between calls has its thread to join, `Poll` never joins nothing, and `Reset` touches
   * the slot without the lock only when no thread can.
   */
  lemma OneWorker(s: System, i: nat)
    requires Reachable(s) && i < |s.threads|
    ensures !s.threads[i].phase.Exited? ==> s.handle == Some(i)
    ensures s.handle.None? || s.owner.Wiping? ==> s.threads[i].phase.Exited?
    ensures s.slot.Some? && s.owner.Idle? ==> s.handle.Some?
    ensures s.owner.Taken? ==> s.handle.Some?
  {
    ReachableKeeps(s);
  }

  // ---- Freshness -----------------------------------------------------------------------------

  predicate IsCancellation(e: Event) {
    e.Configure? || e.Cancel? || e.ChangeNetwork? || e.Reset?
  }

  lemma StepRecords(s: System, e: Event, i: nat)
    requires Enabled(s, e) && i < |s.threads|
    ensures var t := Step(s, e);
      && s.epoch <= t.epoch && i < |t.threads|
      && t.threads[i].epoch == s.threads[i].epoch && t.threads[i].options == s.threads[i].options
  {
  }

  lemma {:induction false} RecordsStay(from: System, run: seq<Event>, to: System, i: nat)
    requires Reaches(from, run, to) && i < |from.threads|
    ensures from.epoch <= to.epoch && i < |to.threads|
    ensures to.threads[i].epoch == from.threads[i].epoch && to.threads[i].options == from.threads[i].options
    decreases |run|
  {
    hide Step, Enabled;
    if run != [] {
      StepRecords(from, run[0], i);
      RecordsStay(Step(from, run[0]), run[1..], to, i);
    }
  }

  /**
   * The cancellation race: once a cancellation has begun, whatever the threads do, no thread started before it has
   * its connection in the slot outside a call that is still clearing it, and `Poll` never hands that connection out.
   */
  lemma NoStaleConnection(before: System, cancel: Event, run: seq<Event>, s: System, e: Event, i: nat)
    requires Reachable(before) && Enabled(before, cancel) && i < |before.threads|
    requires IsCancellation(cancel) && (cancel.ChangeNetwork? ==> before.options.Some?)
    requires Reaches(Step(before, cancel), run, s)
    ensures s.slot.Some? && !s.owner.Clearing? ==> s.slot.value.connection != Some(i)
    ensures Returned(s, e) != Some(i)
  {
    ReachableKeeps(before);
    StepKeeps(before, cancel);
    RunKeeps(Step(before, cancel), run, s);
    RecordsStay(Step(before, cancel), run, s, i);
  }

  /** Between calls or in a poll, with options. */
  ghost predicate Settled(s: System) {
    s.options.Some? && !s.owner.Clearing? && !s.owner.Joining? && !s.owner.Wiping?
  }

  lemma StepSettles(s: System, e: Event)
    requires Enabled(s, e) && Settled(s)
    ensures var t := Step(s, e);
      if IsCancellation(e) then t.epoch > s.epoch else t.epoch == s.epoch && Settled(t) && t.options == s.options
  {
  }

  /** With a thread on record, the epoch tells whether anything was cancelled. */
  lemma {:induction false} Undisturbed(from: System, run: seq<Event>, to: System, i: nat)
    requires Reaches(from, run, to) && i < |from.threads| && from.epoch == to.epoch && Settled(from)
    ensures to.options == from.options
    ensures forall e :: e in run ==> !IsCancellation(e)
    decreases |run|
  {
    hide Step, Enabled, Settled, IsCancellation;
    if run != [] {
      var next := Step(from, run[0]);
      StepRecords(from, run[0], i);
      StepSettles(from, run[0]);
      RecordsStay(next, run[1..], to, i);
      Undisturbed(next, run[1..], to, i);
      assert forall e :: e in run ==> e == run[0] || e in run[1..];
    }
  }

  /**
   * A connection handed out by `Poll` was started from the options configured now: since its thread was started
   * there was no `Configure`, `Cancel`, `ChangeNetwork` or `Reset`.  This holds however often the generation wraps.
   */
  lemma ReturnedIsFresh(before: System, now: int, middle: seq<Event>, s: System, e: Event)
    requires Reachable(before) && before.owner.Scheduling? && Starts(before, now)
    requires Reaches(Scheduled(before, now), middle, s)
    requires Returned(s, e) == Some(|before.threads|)
    ensures s.options == before.options
    ensures forall e :: e in middle ==> !IsCancellation(e)
  {
    ReachableKeeps(before);
    ScheduleKeeps(before, now);
    var started := Scheduled(before, now);
    RunKeeps(started, middle, s);
    RecordsStay(started, middle, s, |before.threads|);
    Undisturbed(started, middle, s, |before.threads|);
  }

  // ---- No lost retry -------------------------------------------------------------------------

  /** When the event loop is to call `Poll` again. */
  function Deadline(s: System): Option<int> {
    if s.handle.Some? then None else s.deadline
  }

  ghost predicate Quiet(from: System, run: seq<Event>)
    decreases |run|
  {
    run == [] ||
    (Enabled(from, run[0]) && !IsCancellation(run[0]) && Returned(from, run[0]).None?
     && Quiet(Step(from, run[0]), run[1..]))
  }

  lemma {:induction false} StaysWanted(from: System, run: seq<Event>, to: System)
    requires from.wanted && !from.owner.Clearing? && Quiet(from, run) && Reaches(from, run, to)
    ensures to.wanted
    decreases |run|
  {
    if run != [] {
      StaysWanted(Step(from, run[0]), run[1..], to);
    }
  }

  /**
   * Once a failure is reported, until something is cancelled or a connection handed out: there is a deadline, or a
   * thread that runs, unstopped, on the current options; and the owner will poll again.
   */
  lemma RetryIsNotLost(before: System, report: Event, run: seq<Event>, s: System)
    requires Reachable(before) && report.Failed? && Enabled(before, report) && before.options.Some?
    requires Quiet(Step(before, report), run) && Reaches(Step(before, report), run, s) && s.owner.Idle?
    ensures s.options.Some? && (s.deadline.Some? || (s.handle.Some? && RunsForNow(s, s.handle.value)))
    ensures WillPoll(s)
  {
    ReachableKeeps(before);
    StepKeeps(before, report);
    RunKeeps(Step(before, report), run, s);
    StaysWanted(Step(before, report), run, s);
  }

  /** The event loop has a deadline to wake at, or has been woken, or a thread is alive that will wake it. */
  ghost predicate WillPoll(s: System) {
    || Deadline(s).Some? || s.woken
    || (s.handle.Some? && s.handle.value < |s.threads| && !s.threads[s.handle.value].phase.Exited?)
  }

  ghost predicate RunsForNow(s: System, i: nat) {
    i < |s.threads| && !s.threads[i].stop && s.options == Some(s.threads[i].options)
  }

  /** The same after a network change, whose retry is due at once. */
  lemma ChangedNetworkIsRetried(before: System, networkInterface: string, racing: seq<Event>, cleared: System,
                                now: int, run: seq<Event>, s: System)
    requires Reachable(before) && before.owner.Idle? && before.options.Some?
    requires Reaches(Step(before, ChangeNetwork(networkInterface)), racing, cleared)
    requires cleared.owner == Clearing(SetInterface(networkInterface))
    requires Quiet(Step(cleared, ClearSlot(now)), run) && s.owner.Idle?
    requires Reaches(Step(cleared, ClearSlot(now)), run, s)
    ensures Step(cleared, ClearSlot(now)).deadline == Some(now)
    ensures s.options.Some? && (s.deadline.Some? || (s.handle.Some? && RunsForNow(s, s.handle.value)))
    ensures WillPoll(s)
  {
    ReachableKeeps(before);
    StepKeeps(before, ChangeNetwork(networkInterface));
    RunKeeps(Step(before, ChangeNetwork(networkInterface)), racing, cleared);
    StepKeeps(cleared, ClearSlot(now));
    RunKeeps(Step(cleared, ClearSlot(now)), run, s);
    StaysWanted(Step(cleared, ClearSlot(now)), run, s);
  }

  /** A `Poll` at or after the deadline starts a thread on the current options. */
  lemma DuePollStarts(s: System, now: int)
    requires Reachable(s) && s.owner.Idle? && s.options.Some? && Deadline(s).Some? && Deadline(s).value <= now
    ensures Enabled(s, Take) && Enabled(Step(s, Take), Schedule(now))
    ensures var t := Step(Step(s, Take), Schedule(now));
      && t.handle == Some(|s.threads|) && |t.threads| == |s.threads| + 1
      && RunsForNow(t, |s.threads|) && t.epoch == s.epoch
  {
    ReachableKeeps(s);
  }
}
