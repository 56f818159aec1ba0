/** How many sessions of a key can be past the replacement barrier: one, and exactly what it takes to get a second. */
module SessionExclusion {
  import opened Bytes
  import opened SessionReplacement

  /** Past the replacement barrier and not yet completed. */
  ghost predicate Active(s: System, i: nat) {
    i < |s.sessions| && s.sessions[i].passed && !s.sessions[i].completed
  }

  /** Past the barrier, or still on its way there: not completed, and not giving up. */
  ghost predicate Live(t: Session) {
    !t.completed && (t.passed || !t.phase.Stopping?)
  }

  ghost predicate LiveBefore(s: System, i: nat)
    requires i < |s.sessions|
  {
    exists q :: 0 <= q < i && s.sessions[q].key == s.sessions[i].key && Live(s.sessions[q])
  }

  /** Nothing waits behind this session but what has itself given up; a new session would wait for another one. */
  ghost predicate Shielded(s: System, i: nat)
    requires i < |s.sessions|
  {
    && !Newest(s, s.sessions[i].key, i)
    && forall k :: 0 <= k < |s.sessions| && s.sessions[k].previous == Some(i) ==> !Live(s.sessions[k])
  }

  /** A session that gave up unregisters ahead of a live one, and so lets in the next. */
  ghost predicate Harmful(s: System, e: Event) {
    && e.Unregister? && e.session < |s.sessions| && !s.sessions[e.session].passed
    && LiveBefore(s, e.session) && !Shielded(s, e.session)
  }

  ghost predicate ReachesCalmly(from: System, run: seq<Event>, to: System)
    decreases |run|
  {
    if run == [] then to == from
    else Enabled(from, run[0]) && !Harmful(from, run[0]) && ReachesCalmly(Step(from, run[0]), run[1..], to)
  }

  // ---- The guard -----------------------------------------------------------------------------

  /** Behind a live session: gone, or short of the barrier and, if live, with the session it waits for still there. */
  ghost predicate Waits(s: System, k: nat)
    requires k < |s.sessions|
  {
    var t := s.sessions[k];
    t.completed || (!t.passed && (Live(t) ==> HasPrevious(s, k) && !s.sessions[t.previous.value].completed))
  }

  /** With a live session, the newest of its key has not completed, so a new one would wait. */
  ghost predicate Closed(s: System) {
    forall q: nat, k: nat :: q < |s.sessions| && Live(s.sessions[q]) && Newest(s, s.sessions[q].key, k) ==>
      !s.sessions[k].completed
  }

  ghost predicate Guarded(s: System) {
    && Closed(s)
    && forall q: nat, k: nat ::
        q < k < |s.sessions| && s.sessions[q].key == s.sessions[k].key && Live(s.sessions[q]) ==> Waits(s, k)
  }

  lemma GuardedAt(s: System, q: nat, k: nat)
    requires Guarded(s) && q < k < |s.sessions| && s.sessions[q].key == s.sessions[k].key && Live(s.sessions[q])
    ensures Waits(s, k)
  {
  }

  /** A session may pass, or complete, when nothing live is before it, or complete when it is shielded. */
  ghost predicate Allowed(s: System, i: nat, u: Session)
    requires i < |s.sessions|
  {
    var t := s.sessions[i];
    && u.key == t.key && u.previous == t.previous
    && (Live(u) ==> Live(t)) && (t.completed ==> u.completed)
    && (LiveBefore(s, i) ==> (u.passed ==> t.passed) && (u.completed && !t.completed ==> Shielded(s, i)))
  }

  lemma ChangeKeepsGuard(s: System, i: nat, u: Session)
    requires Inv(s) && Guarded(s) && i < |s.sessions| && Allowed(s, i, u)
    ensures Guarded(Changed(s, i, u))
  {
    ChangeKeepsClosed(s, i, u);
    var t := Changed(s, i, u);
    forall q: nat, k: nat | q < k < |t.sessions| && t.sessions[q].key == t.sessions[k].key && Live(t.sessions[q])
      ensures Waits(t, k)
    {
      ChangeKeepsWaiting(s, i, u, q, k);
    }
  }

  lemma ChangeKeepsClosed(s: System, i: nat, u: Session)
    requires Closed(s) && i < |s.sessions| && Allowed(s, i, u)
    ensures Closed(Changed(s, i, u))
  {
    var t := Changed(s, i, u);
    assert forall j :: 0 <= j < |s.sessions| ==> t.sessions[j].key == s.sessions[j].key;
    forall q: nat, k: nat | q < |t.sessions| && Live(t.sessions[q]) && Newest(t, t.sessions[q].key, k)
      ensures !t.sessions[k].completed
    {
      assert Newest(s, s.sessions[q].key, k) && Live(s.sessions[q]);
    }
  }

  lemma ChangeKeepsWaiting(s: System, i: nat, u: Session, q: nat, k: nat)
    requires Inv(s) && Guarded(s) && i < |s.sessions| && Allowed(s, i, u)
    requires q < k < |s.sessions| && s.sessions[q].key == s.sessions[k].key
    requires Live(s.sessions[q]) && Live(Changed(s, i, u).sessions[q])
    ensures Waits(Changed(s, i, u), k)
  {
    GuardedAt(s, q, k);
    hide Guarded;
    var t := Changed(s, i, u);
    if k == i {
      assert LiveBefore(s, i);
    } else if Live(t.sessions[k]) {
      var p := s.sessions[k].previous.value;
      if p == i && u.completed {
        EachOk(s, k);
        NothingBetween(s, k, p, q);
      }
    }
  }

  lemma NothingBetween(s: System, i: nat, p: nat, j: nat)
    requires PrecededBy(s, i, p) && j < i && s.sessions[j].key == s.sessions[i].key
    ensures j <= p
  {
  }

  lemma JoinKeepsGuard(s: System, key: string)
    requires Inv(s) && Guarded(s)
    ensures Guarded(Joined(s, key))
  {
    var n, t := |s.sessions|, Joined(s, key);
    assert forall j :: 0 <= j < n ==> t.sessions[j] == s.sessions[j];
    forall q: nat, k: nat | q < k < |t.sessions| && t.sessions[q].key == t.sessions[k].key && Live(t.sessions[q])
      ensures Waits(t, k)
    {
      if k < n {
        GuardedAt(s, q, k);
      } else {
        var m := NewestOf(s, key, q);
        RegisteredIsAlive(s, key);
      }
    }
    forall q: nat, k: nat | q < |t.sessions| && Live(t.sessions[q]) && Newest(t, t.sessions[q].key, k)
      ensures !t.sessions[k].completed
    {
      if k < n {
        assert q < n;
        assert Newest(s, s.sessions[q].key, k);
      }
    }
  }

  lemma SameSessions(s: System, t: System)
    requires Guarded(s) && s.sessions == t.sessions
    ensures Guarded(t)
  {
    assert forall k :: 0 <= k < |s.sessions| ==> (Waits(s, k) <==> Waits(t, k));
    assert forall key, k :: Newest(s, key, k) <==> Newest(t, key, k);
  }

  lemma StepKeepsGuard(s: System, e: Event)
    requires Inv(s) && Guarded(s) && Enabled(s, e) && !Harmful(s, e)
    ensures Guarded(Step(s, e))
  {
    StepAllowed(s, e);
    hide Guarded, Inv, LiveBefore, Shielded, Allowed;
    match e
    case Register(key) => JoinKeepsGuard(s, key);
    case Close(i) => ChangeKeepsGuard(s, i, s.sessions[i].(phase := Waiting));
    case Pass(i) => ChangeKeepsGuard(s, i, s.sessions[i].(phase := Serving, passed := true));
    case TimeOut(i) => ChangeKeepsGuard(s, i, s.sessions[i].(phase := Stopping));
    case Stop(i) => ChangeKeepsGuard(s, i, s.sessions[i].(phase := Stopping));
    case Unregister(i) =>
      ChangeKeepsGuard(s, i, s.sessions[i].(phase := Ended, completed := true));
      SameSessions(Changed(s, i, s.sessions[i].(phase := Ended, completed := true)), Step(s, e));
    case Destroy(i) => SameSessions(s, Step(s, e));
  }

  /** Every step but a harmful one is allowed. */
  lemma StepAllowed(s: System, e: Event)
    requires Inv(s) && Guarded(s) && Enabled(s, e) && !Harmful(s, e)
    ensures match e
      case Close(i) => Allowed(s, i, s.sessions[i].(phase := Waiting))
      case Pass(i) => Allowed(s, i, s.sessions[i].(phase := Serving, passed := true))
      case TimeOut(i) => Allowed(s, i, s.sessions[i].(phase := Stopping))
      case Stop(i) => Allowed(s, i, s.sessions[i].(phase := Stopping))
      case Unregister(i) => Allowed(s, i, s.sessions[i].(phase := Ended, completed := true))
      case _ => true
  {
    match e
    case Pass(i) => PassIsAllowed(s, i);
    case Unregister(i) => UnregisterIsAllowed(s, i);
    case _ =>
  }

  /** A session whose predecessor completed has nothing live before it: this is all it looks at. */
  lemma PassIsAllowed(s: System, i: nat)
    requires Guarded(s) && Enabled(s, Pass(i)) && Inv(s)
    ensures !LiveBefore(s, i)
  {
    EachOk(s, i);
    if q :| 0 <= q < i && s.sessions[q].key == s.sessions[i].key && Live(s.sessions[q]) {
      GuardedAt(s, q, i);
    }
  }

  lemma UnregisterIsAllowed(s: System, i: nat)
    requires Guarded(s) && Inv(s) && Enabled(s, Unregister(i)) && !Harmful(s, Unregister(i))
    ensures LiveBefore(s, i) ==> Shielded(s, i)
  {
    EachOk(s, i);
    if q :| 0 <= q < i && s.sessions[q].key == s.sessions[i].key && Live(s.sessions[q]) {
      GuardedAt(s, q, i);
    }
  }

  lemma {:induction false} RunKeepsGuard(from: System, run: seq<Event>, to: System)
    requires Inv(from) && Guarded(from) && ReachesCalmly(from, run, to)
    ensures Inv(to) && Guarded(to)
    decreases |run|
  {
    if run != [] {
      StepKeeps(from, run[0]);
      StepKeepsGuard(from, run[0]);
      RunKeepsGuard(Step(from, run[0]), run[1..], to);
    }
  }

  /** On every run without a harmful step, timeouts or not, a key has at most one active session. */
  lemma AtMostOneActive(run: seq<Event>, s: System, i: nat, j: nat)
    requires ReachesCalmly(INITIAL, run, s)
    requires Active(s, i) && Active(s, j) && s.sessions[i].key == s.sessions[j].key
    ensures i == j
  {
    RunKeepsGuard(INITIAL, run, s);
    if i < j {
      GuardedAt(s, i, j);
    } else if j < i {
      GuardedAt(s, j, i);
    }
  }

  // ---- Without timeouts ----------------------------------------------------------------------

  /** Without a timeout only a session that passed gets to unregister. */
  ghost predicate StoppedPassed(s: System) {
    forall i :: 0 <= i < |s.sessions| && s.sessions[i].phase.Stopping? ==> s.sessions[i].passed
  }

  lemma {:induction false} NoTimeoutIsCalm(from: System, run: seq<Event>, to: System)
    requires Inv(from) && StoppedPassed(from) && Reaches(from, run, to)
    requires forall e :: e in run ==> !e.TimeOut?
    ensures ReachesCalmly(from, run, to)
    decreases |run|
  {
    if run != [] {
      var e := run[0];
      StepKeeps(from, e);
      assert !e.TimeOut?;
      if e.Stop? {
        EachOk(from, e.session);
      }
      NoTimeoutIsCalm(Step(from, e), run[1..], to);
    }
  }

  /** The replacement guarantee as promised: no wait times out, so at most one session is past the barrier. */
  lemma ReplacementIsExclusive(run: seq<Event>, s: System, i: nat, j: nat)
    requires Reaches(INITIAL, run, s) && (forall e :: e in run ==> !e.TimeOut?)
    requires Active(s, i) && Active(s, j) && s.sessions[i].key == s.sessions[j].key
    ensures i == j
  {
    NoTimeoutIsCalm(INITIAL, run, s);
    AtMostOneActive(run, s, i, j);
  }

  // ---- Harm is real --------------------------------------------------------------------------

  lemma {:induction false} Concat(a: System, first: seq<Event>, b: System, second: seq<Event>, c: System)
    requires ReachesCalmly(a, first, b) && ReachesCalmly(b, second, c)
    ensures ReachesCalmly(a, first + second, c)
    decreases |first|
  {
    if first == [] {
      assert first + second == second;
    } else {
      Concat(Step(a, first[0]), first[1..], b, second, c);
      assert (first + second)[1..] == first[1..] + second;
    }
  }

  lemma OneStep(s: System, e: Event)
    requires Enabled(s, e) && !Harmful(s, e)
    ensures ReachesCalmly(s, [e], Step(s, e))
  {
    assert [e][1..] == [];
  }

  /** The sessions other than `i` and the one it waits for are untouched, and so is the registry. */
  ghost predicate Apart(s: System, t: System, i: nat)
    requires i < |s.sessions|
  {
    && |t.sessions| == |s.sessions| && t.registry == s.registry && t.expired == s.expired
    && forall x :: 0 <= x < |s.sessions| && x != i && s.sessions[i].previous != Some(x) ==>
        t.sessions[x] == s.sessions[x]
  }

  /** The session it waits for has completed, or can be torn down without harm. */
  ghost predicate CanEnter(s: System, i: nat)
    requires i < |s.sessions|
  {
    && HasPrevious(s, i)
    && var p := s.sessions[i].previous.value;
      s.sessions[p].completed || (s.sessions[p].phase.Stopping? && !LiveBefore(s, p))
  }

  lemma TearDown(s: System, i: nat) returns (run: seq<Event>, t: System)
    requires Inv(s) && i < |s.sessions| && CanEnter(s, i)
    ensures ReachesCalmly(s, run, t) && Inv(t) && Apart(s, t, i)
    ensures t.sessions[i] == s.sessions[i] && t.sessions[s.sessions[i].previous.value].completed
  {
    var p := s.sessions[i].previous.value;
    EachOk(s, i);
    if s.sessions[p].completed {
      run, t := [], s;
    } else {
      run, t := [Unregister(p)], Step(s, Unregister(p));
      OneStep(s, Unregister(p));
      StepKeeps(s, Unregister(p));
      assert !Newest(s, s.sessions[p].key, p);
    }
  }

  lemma CloseFirst(s: System, i: nat) returns (run: seq<Event>, t: System)
    requires Inv(s) && i < |s.sessions| && HasPrevious(s, i) && s.sessions[i].previous.value != i
    requires s.sessions[i].phase.Closing? || s.sessions[i].phase.Waiting?
    ensures ReachesCalmly(s, run, t) && Inv(t) && Apart(s, t, i)
    ensures t.sessions[i] == s.sessions[i].(phase := Waiting)
    ensures var p := s.sessions[i].previous.value; t.sessions[p].completed == s.sessions[p].completed
  {
    if s.sessions[i].phase.Waiting? {
      run, t := [], s;
    } else {
      run, t := [Close(i)], Step(s, Close(i));
      OneStep(s, Close(i));
      StepKeeps(s, Close(i));
    }
  }

  /** A live session gets past the barrier without harm. */
  lemma Enter(s: System, i: nat) returns (run: seq<Event>, t: System)
    requires Inv(s) && i < |s.sessions| && Live(s.sessions[i]) && (s.sessions[i].passed || CanEnter(s, i))
    ensures ReachesCalmly(s, run, t) && Inv(t) && Apart(s, t, i) && Active(t, i)
    ensures t.sessions[i].key == s.sessions[i].key
  {
    EachOk(s, i);
    if s.sessions[i].passed {
      run, t := [], s;
    } else {
      var r1, t1 := TearDown(s, i);
      var r2, t2 := CloseFirst(t1, i);
      hide Inv, SessionOk;
      t := Step(t2, Pass(i));
      OneStep(t2, Pass(i));
      StepKeeps(t2, Pass(i));
      Concat(s, r1, t1, r2, t2);
      Concat(s, r1 + r2, t2, [Pass(i)], t);
      run := r1 + r2 + [Pass(i)];
    }
  }

  lemma {:induction false} FirstLive(s: System, i: nat) returns (q: nat)
    requires i < |s.sessions| && LiveBefore(s, i)
    ensures q < i && s.sessions[q].key == s.sessions[i].key && Live(s.sessions[q]) && !LiveBefore(s, q)
    decreases i
  {
    q :| 0 <= q < i && s.sessions[q].key == s.sessions[i].key && Live(s.sessions[q]);
    if LiveBefore(s, q) {
      q := FirstLive(s, q);
    }
  }

  /** After a harmful step the first live session before it can be made active, the sessions behind it untouched. */
  lemma FirstEnters(s: System, i: nat) returns (q: nat, run: seq<Event>, t: System)
    requires Inv(s) && Enabled(s, Unregister(i)) && LiveBefore(s, i)
    ensures var after := Step(s, Unregister(i));
      && q < i && s.sessions[q].key == s.sessions[i].key && Live(s.sessions[q])
      && ReachesCalmly(after, run, t) && Inv(t) && Apart(after, t, q) && Active(t, q)
      && t.sessions[q].key == s.sessions[q].key && after.sessions[q] == s.sessions[q]
  {
    var after := Step(s, Unregister(i));
    StepKeeps(s, Unregister(i));
    q := FirstLive(s, i);
    EachOk(s, q);
    Unchanged(s, i, q);
    if !s.sessions[q].passed {
      var p := s.sessions[q].previous.value;
      EachOk(s, p);
      assert !Live(s.sessions[p]);
      Unchanged(s, i, p);
    }
    run, t := Enter(after, q);
  }

  lemma Unchanged(s: System, i: nat, x: nat)
    requires Enabled(s, Unregister(i)) && x < i && !LiveBefore(s, x)
    ensures !LiveBefore(Step(s, Unregister(i)), x) && Step(s, Unregister(i)).sessions[x] == s.sessions[x]
  {
  }

  /** What is behind the session that gave up then passes as well: its successor, or the next to register. */
  lemma NextEnters(s: System, i: nat, q: nat, u: System) returns (k: nat, run: seq<Event>, t: System)
    requires Inv(s) && Enabled(s, Unregister(i)) && !Shielded(s, i)
    requires q < i && s.sessions[q].key == s.sessions[i].key
    requires Inv(u) && Apart(Step(s, Unregister(i)), u, q) && Active(u, q) && u.sessions[q].key == s.sessions[q].key
    ensures ReachesCalmly(u, run, t) && q != k && Active(t, q) && Active(t, k) && t.sessions[q].key == t.sessions[k].key
  {
    var after := Step(s, Unregister(i));
    var key := s.sessions[i].key;
    EachOk(s, i);
    EachOk(s, q);
    if Newest(s, key, i) {
      RegisteredIsAlive(s, key);
      k := |s.sessions|;
      run, t := [Register(key)], Joined(u, key);
      OneStep(u, Register(key));
    } else {
      k :| 0 <= k < |s.sessions| && s.sessions[k].previous == Some(i) && Live(s.sessions[k]);
      EachOk(s, k);
      assert u.sessions[k] == s.sessions[k] && u.sessions[i] == after.sessions[i];
      run, t := Enter(u, k);
    }
  }

  /**
   * The condition is exact: after a harmful step in a state reached calmly, a calm continuation has two active sessions
   * under one key.
   */
  lemma HarmIsReal(before: seq<Event>, s: System, e: Event) returns (run: seq<Event>, t: System, q: nat, k: nat)
    requires ReachesCalmly(INITIAL, before, s) && Enabled(s, e) && Harmful(s, e)
    ensures ReachesCalmly(Step(s, e), run, t) && q != k
    ensures Active(t, q) && Active(t, k) && t.sessions[q].key == t.sessions[k].key
  {
    RunKeepsGuard(INITIAL, before, s);
    var r1: seq<Event>, u: System;
    q, r1, u := FirstEnters(s, e.session);
    var r2: seq<Event>;
    k, r2, t := NextEnters(s, e.session, q, u);
    Concat(Step(s, e), r1, u, r2, t);
    run := r1 + r2;
  }

  /**
   * And it is within reach of one timeout: from every reachable state with an active, registered session, a run with a
   * single timed-out wait has two.
   */
  lemma OneTimeoutBreaksIt(before: seq<Event>, s: System, i: nat) returns (run: seq<Event>, t: System, j: nat)
    requires Reaches(INITIAL, before, s) && Active(s, i) && Lock(s.registry, s.sessions[i].key, s.expired) == Some(i)
    ensures Reaches(s, run, t) && i != j
    ensures Active(t, i) && Active(t, j) && t.sessions[i].key == t.sessions[j].key
    ensures var key, n := s.sessions[i].key, |s.sessions|;
      run == [Register(key), Close(n), TimeOut(n), Unregister(n), Register(key)]
  {
    RunKeeps(INITIAL, before, s);
    var key, n := s.sessions[i].key, |s.sessions|;
    var s1 := Joined(s, key);
    JoinKeeps(s, key);
    EachOk(s1, n);
    hide Inv, SessionOk;
    var s2, s3, s4 := GivesUp(s1, n, i);
    hide Enabled, Step;
    j := n + 1;
    t := Joined(s4, key);
    run := [Register(key), Close(n), TimeOut(n), Unregister(n), Register(key)];
    Registering(s, key);
    Registering(s4, key);
    FiveSteps(s, run, s1, s2, s3, s4, t);
  }

  /** A session that waits for session `i` in vain, and what it leaves. */
  lemma GivesUp(s1: System, n: nat, i: nat) returns (s2: System, s3: System, s4: System)
    requires i < n < |s1.sessions| && s1.sessions[n].previous == Some(i) && s1.sessions[n].phase.Closing?
    requires Lock(s1.registry, s1.sessions[n].key, s1.expired) == Some(n) && !s1.sessions[i].completed
    ensures Enabled(s1, Close(n)) && s2 == Step(s1, Close(n))
    ensures Enabled(s2, TimeOut(n)) && s3 == Step(s2, TimeOut(n))
    ensures Enabled(s3, Unregister(n)) && s4 == Step(s3, Unregister(n))
    ensures |s4.sessions| == |s1.sessions| && s4.sessions[i] == s1.sessions[i]
    ensures s1.sessions[n].key !in s4.registry
  {
    s2 := Step(s1, Close(n));
    s3 := Step(s2, TimeOut(n));
    s4 := Step(s3, Unregister(n));
  }

  lemma Registering(s: System, key: string)
    ensures Enabled(s, Register(key)) && Step(s, Register(key)) == Joined(s, key)
  {
  }

  lemma FiveSteps(s: System, run: seq<Event>, s1: System, s2: System, s3: System, s4: System, t: System)
    requires |run| == 5
    requires Enabled(s, run[0]) && s1 == Step(s, run[0]) && Enabled(s1, run[1]) && s2 == Step(s1, run[1])
    requires Enabled(s2, run[2]) && s3 == Step(s2, run[2]) && Enabled(s3, run[3]) && s4 == Step(s3, run[3])
    requires Enabled(s4, run[4]) && t == Step(s4, run[4])
    ensures Reaches(s, run, t)
  {
    hide Enabled, Step;
    assert run[..1] == [run[0]] && run[..2] == run[..1] + [run[1]] && run[..3] == run[..2] + [run[2]];
    assert run[..4] == run[..3] + [run[3]] && run == run[..4] + [run[4]];
    Follow(s, [], s, run[0]);
    Follow(s, run[..1], s1, run[1]);
    Follow(s, run[..2], s2, run[2]);
    Follow(s, run[..3], s3, run[3]);
    Follow(s, run[..4], s4, run[4]);
  }

  lemma {:induction false} Follow(from: System, run: seq<Event>, mid: System, e: Event)
    requires Reaches(from, run, mid) && Enabled(mid, e)
    ensures Reaches(from, run + [e], Step(mid, e))
    decreases |run|
  {
    if run == [] {
      assert ([] + [e])[1..] == [];
    } else {
      Follow(Step(from, run[0]), run[1..], mid, e);
      assert (run + [e])[1..] == run[1..] + [e];
    }
  }
}
