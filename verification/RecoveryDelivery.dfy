/** What src/core/hosted/Recovery.cpp achieves: connections are handed out, calls take effect, deadlines are kept. */
module RecoveryDelivery {
  import opened Bytes
  import opened Recovery

  // ---- A connection that was made is handed out ----------------------------------------------

  /** An unstopped joinable thread has made a connection that it has not published. */
  ghost predicate Made(s: System, i: nat) {
    s.handle == Some(i) && ThreadIs(s.threads, i, Finished(true)) && !s.threads[i].stop
  }

  /** The connection of thread `i`, of the current epoch, is on its way: in the thread, the slot or the owner. */
  ghost predicate Carries(s: System, i: nat) {
    && i < |s.threads| && s.threads[i].epoch == s.epoch
    && (|| (s.owner == Judging(Completion(s.generation, Some(i))) && s.handle.None?)
        || (&& s.handle == Some(i)
            && (|| (s.threads[i].phase == Finished(true) && s.slot.None? && !s.owner.Taken?)
                || (s.slot == Some(Completion(s.generation, Some(i))) && !s.owner.Taken?)
                || s.owner == Taken(Completion(s.generation, Some(i))))))
  }

  lemma MadeIsCarried(s: System, i: nat)
    requires Inv(s) && Made(s, i)
    ensures Carries(s, i)
  {
  }

  lemma OwnerCarries(s: System, e: Event, i: nat)
    requires Inv(s) && Carries(s, i) && Enabled(s, e) && !e.Judge? && !IsCancellation(e)
    requires !(e.Finish? || e.Publish? || e.Exit?)
    ensures Carries(Step(s, e), i)
  {
  }

  lemma ThreadCarries(s: System, e: Event, i: nat)
    requires Inv(s) && Carries(s, i) && Enabled(s, e) && (e.Finish? || e.Publish? || e.Exit?)
    ensures Carries(Step(s, e), i)
  {
    assert s.handle == Some(e.thread);
  }

  /** Until a poll judges it or something is cancelled, no step loses it. */
  lemma {:induction false} RunCarries(from: System, run: seq<Event>, to: System, i: nat)
    requires Inv(from) && Carries(from, i) && Reaches(from, run, to)
    requires forall e :: e in run ==> !e.Judge? && !IsCancellation(e)
    ensures Carries(to, i)
    decreases |run|
  {
    hide Inv, Carries, Step, Enabled, IsCancellation;
    if run != [] {
      var e := run[0];
      if e.Finish? || e.Publish? || e.Exit? {
        ThreadCarries(from, e, i);
      } else {
        OwnerCarries(from, e, i);
      }
      StepKeeps(from, e);
      RunCarries(Step(from, e), run[1..], to, i);
    }
  }

  /**
    * A connection made by a thread that has not been told to stop is what the next completion judged by `Poll` hands
    * out, on every run from there without a cancellation; no retry is left behind.
    */
  lemma ConnectionIsHandedOut(s: System, run: seq<Event>, to: System, i: nat, now: int, delay: nat)
    requires Reachable(s) && Made(s, i)
    requires Reaches(s, run, to) && to.owner.Judging?
    requires forall e :: e in run ==> !e.Judge? && !IsCancellation(e)
    ensures Returned(to, Judge(now, delay)) == Some(i)
    ensures var t := Step(to, Judge(now, delay));
      t.owner.Idle? && t.deadline == None && t.handle == None && t.slot == None
  {
    ReachableKeeps(s);
    MadeIsCarried(s, i);
    RunCarries(s, run, to, i);
    RunKeeps(s, run, to);
  }

  /** A poll gets there: the thread publishes and exits, the owner takes and joins. */
  function Delivery(s: System, i: nat): seq<Event> {
    (if s.owner.Scheduling? then [Schedule(0)] else []) + [Publish(i), Exit(i), Take, Join]
  }

  lemma DeliveryIsUndisturbed(s: System, i: nat)
    ensures forall e :: e in Delivery(s, i) ==> !e.Judge? && !IsCancellation(e)
  {
  }

  lemma DeliveryRuns(s: System, i: nat) returns (to: System)
    requires Reachable(s) && Made(s, i)
    ensures Reaches(s, Delivery(s, i), to) && to.owner.Judging?
    ensures forall e :: e in Delivery(s, i) ==> !e.Judge? && !IsCancellation(e)
    ensures forall now: int, delay: nat :: Returned(to, Judge(now, delay)) == Some(i)
  {
    hide Reachable, Delivery, Made, Step, Enabled, Returned, IsCancellation;
    DeliveryIsUndisturbed(s, i);
    BetweenPolls(s, i);
    if s.owner.Idle? {
      to := FromIdle(s, i);
    } else {
      to := FromScheduling(s, i);
    }
    forall now: int, delay: nat
      ensures Returned(to, Judge(now, delay)) == Some(i)
    {
      ConnectionIsHandedOut(s, Delivery(s, i), to, i, now, delay);
    }
  }

  /** While an unstopped thread has a connection to publish, the owner is between calls or about to end a poll. */
  lemma BetweenPolls(s: System, i: nat)
    requires Reachable(s) && Made(s, i)
    ensures s.owner.Idle? || s.owner.Scheduling?
  {
    ReachableKeeps(s);
  }

  lemma FromScheduling(s: System, i: nat) returns (to: System)
    requires s.owner.Scheduling? && Made(s, i)
    ensures Reaches(s, Delivery(s, i), to) && to.owner.Judging?
  {
    var t := Step(s, Schedule(0));
    assert t == s.(owner := Idle) && Made(t, i);
    to := FromIdle(t, i);
    assert Delivery(s, i) == [Schedule(0)] + Delivery(t, i);
    hide Made, Delivery, Step, Enabled;
    ReachesAfter(s, Schedule(0), Delivery(t, i), to);
  }

  lemma FromIdle(s: System, i: nat) returns (to: System)
    requires s.owner.Idle? && Made(s, i)
    ensures Reaches(s, Delivery(s, i), to) && to.owner.Judging?
  {
    var a := Step(s, Publish(i));
    var b := Step(a, Exit(i));
    var c := Step(b, Take);
    assert Enabled(a, Exit(i)) && Enabled(b, Take) && Enabled(c, Join);
    to := Step(c, Join);
    assert to.owner.Judging?;
    assert Delivery(s, i) == [Publish(i)] + ([Exit(i)] + ([Take] + [Join]));
    hide Delivery, Step, Enabled, Made;
    ReachesNext(c, Join);
    ReachesAfter(b, Take, [Join], to);
    ReachesAfter(a, Exit(i), [Take] + [Join], to);
    ReachesAfter(s, Publish(i), [Exit(i)] + ([Take] + [Join]), to);
  }

  lemma ReachesNext(s: System, e: Event)
    requires Enabled(s, e)
    ensures Reaches(s, [e], Step(s, e))
  {
    assert [e][1..] == [];
  }

  lemma ReachesAfter(s: System, e: Event, run: seq<Event>, to: System)
    requires Enabled(s, e) && Reaches(Step(s, e), run, to)
    ensures Reaches(s, [e] + run, to)
  {
    assert ([e] + run)[1..] == run;
  }

  /** From a poll that is due, a thread that connects is all it takes. */
  lemma DueRecoveryCanSucceed(s: System, now: int) returns (run: seq<Event>, to: System)
    requires Reachable(s) && s.owner.Idle? && s.options.Some? && Deadline(s).Some? && Deadline(s).value <= now
    ensures Reaches(s, run, to) && to.options == s.options
    ensures forall e :: e in run ==> !IsCancellation(e)
    ensures forall n: int, delay: nat :: Returned(to, Judge(n, delay)) == Some(|s.threads|)
  {
    var i, taken := |s.threads|, Step(s, Take);
    DuePollStarts(s, now);
    var started := Step(taken, Schedule(now));
    DueThread(s, now);
    var made := Step(started, Finish(i, true));
    assert Made(made, i);
    hide Reachable, Delivery, Made, Step, Enabled, Returned, IsCancellation, RunsForNow, Deadline, Reaches, ThreadIs;
    StepIsReachable(s, Take);
    StepIsReachable(taken, Schedule(now));
    StepIsReachable(started, Finish(i, true));
    to := DeliveryRuns(made, i);
    var tail := Delivery(made, i);
    ReachesAfter(started, Finish(i, true), tail, to);
    ReachesAfter(taken, Schedule(now), [Finish(i, true)] + tail, to);
    run := [Take] + ([Schedule(now)] + ([Finish(i, true)] + tail));
    ReachesAfter(s, Take, [Schedule(now)] + ([Finish(i, true)] + tail), to);
    RecordsStay(started, [Finish(i, true)] + tail, to, i);
    NotCancellations(now, i);
    ReachableBy(s, run, to);
    HandedOutIsCurrent(to, i);
  }

  lemma DueThread(s: System, now: int)
    requires Reachable(s) && s.owner.Idle? && s.options.Some? && Deadline(s).Some? && Deadline(s).value <= now
    ensures Enabled(s, Take) && Enabled(Step(s, Take), Schedule(now))
    ensures var t := Step(Step(s, Take), Schedule(now));
      && t.handle == Some(|s.threads|) && ThreadIs(t.threads, |s.threads|, Connecting) && !t.threads[|s.threads|].stop
      && s.options == Some(t.threads[|s.threads|].options) && Enabled(t, Finish(|s.threads|, true))
  {
    ReachableKeeps(s);
  }

  lemma NotCancellations(now: int, i: nat)
    ensures !IsCancellation(Take) && !IsCancellation(Schedule(now)) && !IsCancellation(Finish(i, true))
  {
  }

  lemma HandedOutIsCurrent(s: System, i: nat)
    requires Reachable(s) && Returned(s, Judge(0, 0)) == Some(i)
    ensures i < |s.threads| && s.options == Some(s.threads[i].options)
  {
    ReachableKeeps(s);
  }

  lemma ReachableBy(s: System, run: seq<Event>, to: System)
    requires Reachable(s) && Reaches(s, run, to)
    ensures Reachable(to)
  {
    var before :| Reaches(INITIAL, before, s);
    ReachesBoth(INITIAL, before, s, run, to);
  }

  lemma StepIsReachable(s: System, e: Event)
    requires Reachable(s) && Enabled(s, e)
    ensures Reachable(Step(s, e))
  {
    ReachesNext(s, e);
    ReachableBy(s, [e], Step(s, e));
  }

  lemma {:induction false} ReachesBoth(a: System, first: seq<Event>, b: System, second: seq<Event>, c: System)
    requires Reaches(a, first, b) && Reaches(b, second, c)
    ensures Reaches(a, first + second, c)
    decreases |first|
  {
    hide Step, Enabled;
    if first == [] {
      assert first + second == second;
    } else {
      ReachesBoth(Step(a, first[0]), first[1..], b, second, c);
      assert (first + second)[1..] == first[1..] + second;
    }
  }

  // ---- Calls take effect ---------------------------------------------------------------------

  /** While a call waits for the lock, the bootstrap thread can step, and changes nothing that the call decided. */
  lemma {:induction false} ClearingWaits(from: System, run: seq<Event>, to: System)
    requires from.owner.Clearing? && Reaches(from, run, to)
    requires forall e :: e in run ==> !e.ClearSlot?
    ensures to.owner == from.owner && to.options == from.options && to.deadline == from.deadline
    ensures to.generation == from.generation && to.handle == from.handle
    decreases |run|
  {
    if run != [] {
      ClearingWaits(Step(from, run[0]), run[1..], to);
    }
  }

  /** However a call races with the thread, it ends with what it was given. */
  lemma CallTakesEffect(before: System, call: Event, racing: seq<Event>, s: System, now: int)
    requires Enabled(before, call) && IsCancellation(call) && (call.ChangeNetwork? ==> before.options.Some?)
    requires Reaches(Step(before, call), racing, s)
    requires forall e :: e in racing ==> !e.ClearSlot?
    ensures Enabled(s, ClearSlot(now))
    ensures var t := Step(s, ClearSlot(now));
      && (t.slot.Some? ==> t.slot.value.connection.None?) && t.handle == before.handle
      && match call
         case Configure(options) => t.owner.Idle? && t.options == Some(options) && t.deadline == None
         case ChangeNetwork(networkInterface) =>
           && t.owner.Idle? && t.options == Some(Options(before.options.value.target, networkInterface))
           && t.deadline == Some(now) && t.woken
         case Cancel => t.owner.Idle? && t.options == before.options && t.deadline == None
         case _ => t.owner.Joining? && t.deadline == None
  {
    ClearingWaits(Step(before, call), racing, s);
  }

  /** A reset that has cleared the slot waits for the thread, and nothing gives the recovery a deadline meanwhile. */
  lemma {:induction false} ResetWaits(from: System, run: seq<Event>, to: System)
    requires Inv(from) && (from.owner.Joining? || from.owner.Wiping?) && from.deadline == None && Reaches(from, run, to)
    requires forall e :: e in run ==> !e.Wipe?
    ensures (to.owner.Joining? || to.owner.Wiping?) && to.deadline == None
    decreases |run|
  {
    hide Inv;
    if run != [] {
      StepKeeps(from, run[0]);
      ResetWaits(Step(from, run[0]), run[1..], to);
    }
  }

  /** A reset ends with no options, no deadline, no completion and no thread. */
  lemma ResetEndsEmpty(cleared: System, run: seq<Event>, s: System, i: nat)
    requires Reachable(cleared) && cleared.owner.Joining? && cleared.deadline == None && Reaches(cleared, run, s)
    requires s.owner.Wiping? && forall e :: e in run ==> !e.Wipe?
    ensures var t := Step(s, Wipe);
      && t.owner.Idle? && t.options == None && t.deadline == None && t.slot == None && t.handle == None
      && (i < |t.threads| ==> t.threads[i].phase.Exited?)
  {
    ReachableKeeps(cleared);
    RunKeeps(cleared, run, s);
    ResetWaits(cleared, run, s);
  }

  // ---- No retry before its time --------------------------------------------------------------

  /** Waiting for a deadline, with no thread. */
  ghost predicate Waits(s: System, deadline: int) {
    && s.options.Some? && s.deadline == Some(deadline) && s.handle.None? && s.slot.None?
    && (s.owner.Idle? || s.owner.Scheduling?) && forall i :: 0 <= i < |s.threads| ==> s.threads[i].phase.Exited?
  }

  lemma WaitsAStep(s: System, e: Event, deadline: int)
    requires Waits(s, deadline) && Enabled(s, e) && !IsCancellation(e) && (e.Schedule? ==> e.now < deadline)
    ensures var t := Step(s, e); Waits(t, deadline) && t.threads == s.threads && t.options == s.options
  {
  }

  /** Whatever is reported meanwhile, the deadline stays, and polls before it start nothing. */
  lemma {:induction false} WaitsForDeadline(from: System, run: seq<Event>, to: System, deadline: int)
    requires Waits(from, deadline) && Reaches(from, run, to)
    requires forall e :: e in run ==> !IsCancellation(e) && (e.Schedule? ==> e.now < deadline)
    ensures Waits(to, deadline) && to.threads == from.threads && to.options == from.options
    decreases |run|
  {
    hide Waits, Step, Enabled, IsCancellation;
    if run != [] {
      WaitsAStep(from, run[0], deadline);
      WaitsForDeadline(Step(from, run[0]), run[1..], to, deadline);
    }
  }

  /** A failure reported at `now` is not retried before `now + delay`. */
  lemma ReportedFailureWaits(s: System, now: int, delay: nat, run: seq<Event>, to: System)
    requires Reachable(s) && s.owner.Idle? && s.options.Some? && s.deadline == None && s.handle == None
    requires Reaches(Step(s, Failed(now, delay)), run, to)
    requires forall e :: e in run ==> !IsCancellation(e) && (e.Schedule? ==> e.now < now + delay)
    ensures Waits(to, now + delay) && to.threads == s.threads
  {
    ReachableKeeps(s);
    WaitsForDeadline(Step(s, Failed(now, delay)), run, to, now + delay);
  }

  /** Nor is an attempt that failed, counted from when its completion is judged. */
  lemma FailedAttemptWaits(s: System, now: int, delay: nat, run: seq<Event>, to: System)
    requires Reachable(s) && s.owner.Judging? && s.options.Some?
    requires s.owner.held.generation == s.generation && s.owner.held.connection.None?
    requires Reaches(Step(s, Judge(now, delay)), run, to)
    requires forall e :: e in run ==> !IsCancellation(e) && (e.Schedule? ==> e.now < now + delay)
    ensures Waits(to, now + delay) && to.threads == s.threads
  {
    ReachableKeeps(s);
    WaitsForDeadline(Step(s, Judge(now, delay)), run, to, now + delay);
  }
}
