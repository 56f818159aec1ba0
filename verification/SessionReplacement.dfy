/**
 * Replacement of hosted sessions: the registry of src/platform/linux/HostedConnectionRegistry.cpp and the barrier and
 * teardown of `RunHostedServer` in src/platform/linux/HostedServer.cpp, run by any number of sessions at once.
 */
module SessionReplacement {
  import opened Bytes

  // ---- The registry --------------------------------------------------------------------------

  /** What the weak pointer stored for a key gives, when the registrations in `expired` have been destroyed. */
  function Lock<T(==)>(connections: map<string, T>, key: string, expired: set<T>): Option<T> {
    if key in connections && connections[key] !in expired then Some(connections[key]) else None
  }

  function Without<T(==)>(connections: map<string, T>, key: string, registration: T, expired: set<T>): map<string, T> {
    if Lock(connections, key, expired) == Some(registration) then connections - {key} else connections
  }

  class Registration {
    var completed: bool

    constructor ()
      ensures !completed
    {
      completed := false;
    }
  }

  class Registry {
    var connections: map<string, Registration>

    constructor ()
      ensures connections == map[]
    {
      connections := map[];
    }

    method Register(key: string, expired: set<Registration>)
      returns (current: Registration, previous: Option<Registration>)
      modifies this
      ensures fresh(current) && !current.completed
      ensures previous == Lock(old(connections), key, expired)
      ensures connections == old(connections)[key := current]
    {
      current := new Registration();
      previous := Lock(connections, key, expired);
      connections := connections[key := current];
    }

    method Unregister(key: string, registration: Registration, expired: set<Registration>)
      modifies this, registration
      ensures connections == Without(old(connections), key, registration, expired)
      ensures registration.completed
    {
      if key in connections && connections[key] !in expired && connections[key] == registration {
        connections := connections - {key};
      }
      registration.completed := true;
    }
  }

  // ---- The sessions --------------------------------------------------------------------------

  datatype Phase = Closing | Waiting | Serving | Stopping | Ended

  /** A session from the moment it registers; `passed` records that it has passed the replacement barrier. */
  datatype Session = Session(key: string, previous: Option<nat>, phase: Phase, passed: bool, completed: bool)

  /** Sessions in the order in which they registered. */
  datatype System = System(sessions: seq<Session>, registry: map<string, nat>, expired: set<nat>)

  const INITIAL := System([], map[], {})

  /** `Close` asks the predecessor to stop; a session that serves may `Stop` for that or for any other reason. */
  datatype Event =
    | Register(key: string)
    | Close(session: nat) | Pass(session: nat) | TimeOut(session: nat)
    | Stop(session: nat) | Unregister(session: nat) | Destroy(session: nat)

  ghost predicate Enabled(s: System, e: Event) {
    match e
    case Register(_) => true
    case Close(i) => InPhase(s, i, Closing) && HasPrevious(s, i)
    case Pass(i) => InPhase(s, i, Waiting) && HasPrevious(s, i) && PreviousCompleted(s, i)
    case TimeOut(i) => InPhase(s, i, Waiting) && HasPrevious(s, i) && !PreviousCompleted(s, i)
    case Stop(i) => InPhase(s, i, Serving)
    case Unregister(i) => InPhase(s, i, Stopping)
    case Destroy(i) => InPhase(s, i, Ended) && !Awaited(s, i)
  }

  predicate InPhase(s: System, i: nat, phase: Phase) {
    i < |s.sessions| && s.sessions[i].phase == phase
  }

  predicate HasPrevious(s: System, i: nat)
    requires i < |s.sessions|
  {
    s.sessions[i].previous.Some? && s.sessions[i].previous.value < |s.sessions|
  }

  predicate PreviousCompleted(s: System, i: nat)
    requires i < |s.sessions| && HasPrevious(s, i)
  {
    s.sessions[s.sessions[i].previous.value].completed
  }

  /** Some session still holds this one as the predecessor it waits for. */
  ghost predicate Awaited(s: System, i: nat) {
    exists j :: 0 <= j < |s.sessions| && s.sessions[j].previous == Some(i) &&
      (s.sessions[j].phase.Closing? || s.sessions[j].phase.Waiting?)
  }

  function Joined(s: System, key: string): System {
    var previous := Lock(s.registry, key, s.expired);
    var phase := if previous.None? then Serving else Closing;
    s.(sessions := s.sessions + [Session(key, previous, phase, previous.None?, false)],
       registry := s.registry[key := |s.sessions|])
  }

  function Changed(s: System, i: nat, session: Session): System
    requires i < |s.sessions|
  {
    s.(sessions := s.sessions[i := session])
  }

  ghost function Step(s: System, e: Event): System
    requires Enabled(s, e)
  {
    match e
    case Register(key) => Joined(s, key)
    case Close(i) => Changed(s, i, s.sessions[i].(phase := Waiting))
    case Pass(i) => Changed(s, i, s.sessions[i].(phase := Serving, passed := true))
    case TimeOut(i) => Changed(s, i, s.sessions[i].(phase := Stopping))
    case Stop(i) => Changed(s, i, s.sessions[i].(phase := Stopping))
    case Unregister(i) =>
      Changed(s, i, s.sessions[i].(phase := Ended, completed := true)).
        (registry := Without(s.registry, s.sessions[i].key, i, s.expired))
    case Destroy(i) => s.(expired := s.expired + {i})
  }

  ghost predicate Reaches(from: System, run: seq<Event>, to: System)
    decreases |run|
  {
    if run == [] then to == from
    else Enabled(from, run[0]) && Reaches(Step(from, run[0]), run[1..], to)
  }

  // ---- The registry holds the newest session -------------------------------------------------

  ghost predicate Newest(s: System, key: string, i: nat) {
    && i < |s.sessions| && s.sessions[i].key == key
    && forall j :: i < j < |s.sessions| ==> s.sessions[j].key != key
  }

  ghost predicate SessionOk(s: System, i: nat)
    requires i < |s.sessions|
  {
    var t := s.sessions[i];
    && (t.completed <==> t.phase.Ended?)
    && (t.phase.Serving? ==> t.passed)
    && (t.phase.Closing? || t.phase.Waiting? ==> !t.passed)
    && (t.previous.None? ==> t.passed)
    && (t.previous.Some? ==> PrecededBy(s, i, t.previous.value))
    && (i in s.expired ==> t.completed)
  }

  /** The predecessor of a session is the one that registered last before it under the same key. */
  ghost predicate PrecededBy(s: System, i: nat, p: nat) {
    && p < i < |s.sessions| && s.sessions[p].key == s.sessions[i].key
    && forall j :: p < j < i ==> s.sessions[j].key != s.sessions[i].key
  }

  ghost predicate RegistryOk(s: System) {
    && (forall key :: key in s.registry ==> Newest(s, key, s.registry[key]) && !s.sessions[s.registry[key]].completed)
    && (forall i :: 0 <= i < |s.sessions| && !s.sessions[i].completed && Newest(s, s.sessions[i].key, i) ==>
          s.sessions[i].key in s.registry && s.registry[s.sessions[i].key] == i)
  }

  ghost predicate Inv(s: System) {
    && RegistryOk(s)
    && (forall i :: i in s.expired ==> i < |s.sessions|)
    && (forall i :: 0 <= i < |s.sessions| ==> SessionOk(s, i))
  }

  lemma JoinKeeps(s: System, key: string)
    requires Inv(s)
    ensures Inv(Joined(s, key))
  {
    var t := Joined(s, key);
    var n := |s.sessions|;
    forall i | 0 <= i < |t.sessions|
      ensures SessionOk(t, i)
    {
      if i < n {
        assert SessionOk(s, i) && t.sessions[i] == s.sessions[i];
      }
    }
    forall i | 0 <= i < |t.sessions| && Newest(t, t.sessions[i].key, i)
      ensures i == n || (i < n && Newest(s, s.sessions[i].key, i))
    {
      assert t.sessions[n].key == key;
      assert forall j :: 0 <= j < n ==> t.sessions[j] == s.sessions[j];
    }
  }

  /** A change of phase, with the registration where it was. */
  lemma ChangeKeeps(s: System, i: nat, u: Session)
    requires Inv(s) && i < |s.sessions|
    requires u.key == s.sessions[i].key && u.previous == s.sessions[i].previous
    requires u.completed == s.sessions[i].completed
    requires u.phase.Ended? <==> s.sessions[i].phase.Ended?
    requires u.phase.Serving? || u.previous.None? ==> u.passed
    requires u.phase.Closing? || u.phase.Waiting? ==> !u.passed
    ensures Inv(Changed(s, i, u))
  {
    var t := Changed(s, i, u);
    assert forall j :: 0 <= j < |s.sessions| ==>
        t.sessions[j].key == s.sessions[j].key && t.sessions[j].previous == s.sessions[j].previous;
    forall j | 0 <= j < |t.sessions|
      ensures SessionOk(t, j)
    {
      assert SessionOk(s, j);
    }
    forall j | 0 <= j < |t.sessions| && Newest(t, t.sessions[j].key, j)
      ensures Newest(s, s.sessions[j].key, j)
    {
    }
  }

  lemma UnregisterKeeps(s: System, i: nat)
    requires Inv(s) && Enabled(s, Unregister(i))
    ensures Inv(Step(s, Unregister(i)))
  {
    var t := Step(s, Unregister(i));
    assert forall j :: 0 <= j < |s.sessions| ==>
        t.sessions[j].key == s.sessions[j].key && t.sessions[j].previous == s.sessions[j].previous;
    forall j | 0 <= j < |t.sessions|
      ensures SessionOk(t, j)
    {
      assert SessionOk(s, j);
    }
    assert SessionOk(s, i);
    forall j | 0 <= j < |t.sessions| && Newest(t, t.sessions[j].key, j)
      ensures Newest(s, s.sessions[j].key, j)
    {
    }
  }

  lemma DestroyKeeps(s: System, i: nat)
    requires Inv(s) && Enabled(s, Destroy(i))
    ensures Inv(Step(s, Destroy(i)))
  {
    var t := Step(s, Destroy(i));
    forall j | 0 <= j < |t.sessions|
      ensures SessionOk(t, j)
    {
      assert SessionOk(s, j);
    }
    forall j | 0 <= j < |t.sessions| && Newest(t, t.sessions[j].key, j)
      ensures Newest(s, s.sessions[j].key, j)
    {
    }
  }

  lemma StepKeeps(s: System, e: Event)
    requires Inv(s) && Enabled(s, e)
    ensures Inv(Step(s, e))
  {
    match e
    case Register(key) => JoinKeeps(s, key);
    case Close(i) =>
      assert SessionOk(s, i);
      ChangeKeeps(s, i, s.sessions[i].(phase := Waiting));
    case Pass(i) =>
      assert SessionOk(s, i);
      ChangeKeeps(s, i, s.sessions[i].(phase := Serving, passed := true));
    case TimeOut(i) =>
      assert SessionOk(s, i);
      ChangeKeeps(s, i, s.sessions[i].(phase := Stopping));
    case Stop(i) =>
      assert SessionOk(s, i);
      ChangeKeeps(s, i, s.sessions[i].(phase := Stopping));
    case Unregister(i) => UnregisterKeeps(s, i);
    case Destroy(i) => DestroyKeeps(s, i);
  }

  lemma {:induction false} RunKeeps(from: System, run: seq<Event>, to: System)
    requires Inv(from) && Reaches(from, run, to)
    ensures Inv(to)
    decreases |run|
  {
    if run != [] {
      StepKeeps(from, run[0]);
      RunKeeps(Step(from, run[0]), run[1..], to);
    }
  }

  lemma RegisteredIsAlive(s: System, key: string)
    requires Inv(s)
    ensures key in s.registry ==> Lock(s.registry, key, s.expired) == Some(s.registry[key])
  {
    if key in s.registry {
      assert SessionOk(s, s.registry[key]);
    }
  }

  /** Among the sessions of a key, one is the newest. */
  lemma {:induction false} NewestOf(s: System, key: string, i: nat) returns (m: nat)
    requires i < |s.sessions| && s.sessions[i].key == key
    ensures i <= m && Newest(s, key, m)
    decreases |s.sessions| - i
  {
    m := i;
    if j :| i < j < |s.sessions| && s.sessions[j].key == key {
      m := NewestOf(s, key, j);
    }
  }

  lemma EachOk(s: System, i: nat)
    requires Inv(s) && i < |s.sessions|
    ensures SessionOk(s, i)
  {
  }

  /**
   * On every run, timeouts included, the registry holds under a key exactly the newest session registered under it,
   * until that session itself unregisters: no superseded session's `Unregister` removes its successor.
   */
  lemma RegistryHoldsNewest(run: seq<Event>, s: System, key: string, i: nat)
    requires Reaches(INITIAL, run, s)
    ensures key in s.registry && s.registry[key] == i <==> Newest(s, key, i) && !s.sessions[i].completed
    ensures key in s.registry ==> Lock(s.registry, key, s.expired) == Some(s.registry[key])
  {
    RunKeeps(INITIAL, run, s);
    RegisteredIsAlive(s, key);
  }
}
