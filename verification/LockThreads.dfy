/**
  How a process lock's acquisition ends: the owner's calls and the heartbeat thread, interleaved
  in any way over the shared lease state.
 */
module LockThreads {
  import opened Basics

  type OwnerId = nat

  /** The lease as a value. */
  datatype Lease = Lease(held: bool, ownerId: OwnerId)

  /** An acquisition takes the lease. */
  function HeldBy(o: OwnerId): Lease {
    Lease(true, o)
  }

  /** What a release takes out of the lease. */
  function Taken(l: Lease): Option<OwnerId> {
    if l.held then Some(l.ownerId) else None
  }

  function Unheld(l: Lease): Lease {
    l.(held := false)
  }

  /** Loss clears a lease only while it is still the acquisition the heartbeat belongs to. */
  predicate StillOwned(l: Lease, o: OwnerId) {
    l.held && l.ownerId == o
  }

  /** The lease under its mutex. Each method is one critical section: a step of the machine below. */
  class LeaseState {
    var held: bool
    var ownerId: OwnerId

    function Value(): Lease
      reads this
    {
      Lease(held, ownerId)
    }

    constructor ()
      ensures Value() == Initial(false).lease
    {
      held := false;
      ownerId := 0;
    }

    method SetHeld(o: OwnerId)
      modifies this
      ensures Value() == HeldBy(o)
    {
      held := true;
      ownerId := o;
    }

    method TakeForRelease() returns (taken: Option<OwnerId>)
      modifies this
      ensures taken == Taken(old(Value())) && Value() == Unheld(old(Value()))
    {
      taken := if held then Some(ownerId) else None;
      held := false;
    }

    method ClearIfOwned(o: OwnerId) returns (cleared: bool)
      modifies this
      ensures cleared <==> StillOwned(old(Value()), o)
      ensures Value() == if cleared then Unheld(old(Value())) else old(Value())
    {
      if !held || ownerId != o {
        return false;
      }
      held := false;
      return true;
    }
  }

  /** The owner's thread. `Starting` and `Releasing` wait for the heartbeat thread to end. */
  datatype Main = Ready | Starting(o: OwnerId) | Releasing | Removing

  datatype Beat =
    | NoThread
    | Waiting(o: OwnerId, stop: bool)
    | Refreshing(o: OwnerId, stop: bool)
    | Losing(o: OwnerId, stop: bool)
    | CallingBack(o: OwnerId)
    | InCallback(o: OwnerId)
    | Finished

  datatype Event =
    | Acquired(o: OwnerId)
    | Released(o: OwnerId)
    | Lost(o: OwnerId)
    | CallbackBegun(o: OwnerId)
    | CallbackEnded(o: OwnerId)
    | ReleaseReturned

  /** `next` is the next owner id; ids are never used twice. */
  datatype Machine = Machine(hasCallback: bool, lease: Lease, next: OwnerId, main: Main, beat: Beat, events: seq<Event>)

  datatype Action =
    | Acquire
    | StartHeartbeat
    | BeginRelease
    | SendStop
    | JoinHeartbeat
    | EndRelease
    | Tick
    | StopReceived
    | Refreshed(lost: bool)
    | HandleLoss
    | BeginCallback
    | EndCallback

  function Initial(hasCallback: bool): Machine {
    Machine(hasCallback, Lease(false, 0), 1, Ready, NoThread, [])
  }

  predicate Ended(b: Beat) {
    b.NoThread? || b.Finished?
  }

  function Stopped(b: Beat): Beat {
    match b
    case Waiting(o, _) => Waiting(o, true)
    case Refreshing(o, _) => Refreshing(o, true)
    case Losing(o, _) => Losing(o, true)
    case _ => b
  }

  /** One step; `None` when the thread is not at this point or has to wait. */
  function Apply(m: Machine, a: Action): Option<Machine> {
    match a
    case Acquire =>
      if !m.main.Ready? || m.lease.held then None
      else
        Some(m.(lease := HeldBy(m.next), next := m.next + 1, main := Starting(m.next),
                events := m.events + [Acquired(m.next)]))
    case StartHeartbeat =>
      if !m.main.Starting? || !Ended(m.beat) then None
      else Some(m.(main := Ready, beat := Waiting(m.main.o, false)))
    case BeginRelease =>
      if !m.main.Ready? then None
      else
        Some(m.(lease := Unheld(m.lease), main := Releasing,
                events := if Taken(m.lease).Some? then m.events + [Released(Taken(m.lease).value)] else m.events))
    case SendStop =>
      if !m.main.Starting? && !m.main.Releasing? then None
      else Some(m.(beat := Stopped(m.beat)))
    case JoinHeartbeat =>
      if !m.main.Releasing? || !Ended(m.beat) then None
      else Some(m.(main := Removing, beat := NoThread))
    case EndRelease =>
      if !m.main.Removing? then None
      else Some(m.(main := Ready, events := m.events + [ReleaseReturned]))
    case Tick =>
      if !m.beat.Waiting? || m.beat.stop then None
      else Some(m.(beat := Refreshing(m.beat.o, false)))
    case StopReceived =>
      if !m.beat.Waiting? || !m.beat.stop then None
      else Some(m.(beat := Finished))
    case Refreshed(lost) =>
      if !m.beat.Refreshing? then None
      else Some(m.(beat := if lost then Losing(m.beat.o, m.beat.stop) else Waiting(m.beat.o, m.beat.stop)))
    case HandleLoss =>
      if !m.beat.Losing? then None
      else if !StillOwned(m.lease, m.beat.o) then Some(m.(beat := Finished))
      else
        Some(m.(lease := Unheld(m.lease), events := m.events + [Lost(m.beat.o)],
                beat := if m.hasCallback then CallingBack(m.beat.o) else Finished))
    case BeginCallback =>
      if !m.beat.CallingBack? then None
      else Some(m.(beat := InCallback(m.beat.o), events := m.events + [CallbackBegun(m.beat.o)]))
    case EndCallback =>
      if !m.beat.InCallback? then None
      else Some(m.(beat := Finished, events := m.events + [CallbackEnded(m.beat.o)]))
  }

  function Run(m: Machine, actions: seq<Action>): Option<Machine>
    decreases |actions|
  {
    if actions == [] then Some(m)
    else
      match Apply(m, actions[0])
      case None => None
      case Some(next) => Run(next, actions[1..])
  }

  function Count(events: seq<Event>, e: Event): nat {
    multiset(events)[e]
  }

  function One(b: bool): nat {
    if b then 1 else 0
  }

  /** Every acquisition is still held or was cleared once, by release or by loss. */
  predicate ClearedOnce(m: Machine, o: OwnerId) {
    && Count(m.events, Acquired(o)) == One(0 < o < m.next)
    && Count(m.events, Released(o)) + Count(m.events, Lost(o)) + One(m.lease.held && m.lease.ownerId == o)
       == Count(m.events, Acquired(o))
  }

  /** Every loss is called back once, unless the call is still pending. */
  predicate CalledBackOnce(m: Machine, o: OwnerId) {
    && Count(m.events, CallbackBegun(o)) + One(m.beat == CallingBack(o)) == (if m.hasCallback then Count(m.events, Lost(o)) else 0)
    && Count(m.events, CallbackEnded(o)) + One(m.beat == InCallback(o)) == Count(m.events, CallbackBegun(o))
  }

  predicate Watches(b: Beat, o: OwnerId) {
    (b.Waiting? && b.o == o && !b.stop) || (b.Refreshing? && b.o == o && !b.stop) || (b.Losing? && b.o == o && !b.stop)
  }

  /** Whenever a release has returned, every callback owed until then has run to its end. */
  ghost predicate QuietAtReturns(hasCallback: bool, events: seq<Event>) {
    forall i | 0 <= i < |events| && events[i] == ReleaseReturned :: Quiet(hasCallback, events[..i])
  }

  ghost predicate Quiet(hasCallback: bool, events: seq<Event>) {
    forall o: OwnerId ::
      && Count(events, CallbackEnded(o)) == Count(events, CallbackBegun(o))
      && Count(events, CallbackBegun(o)) == (if hasCallback then Count(events, Lost(o)) else 0)
  }

  /** Which thread may be where. */
  predicate Shape(m: Machine) {
    && m.next > 0
    && (m.lease.held ==> 0 < m.lease.ownerId < m.next)
    && (m.lease.held ==> m.main.Ready? || m.main.Starting?)
    && (m.main.Ready? && m.lease.held ==> Watches(m.beat, m.lease.ownerId))
    && (m.main.Starting? ==> m.lease.held && m.main.o == m.lease.ownerId)
    && (m.main.Removing? ==> m.beat.NoThread?)
    && (Live(m.beat) ==> m.beat.o < m.next)
    && (m.main.Starting? && Live(m.beat) ==> m.beat.o != m.lease.ownerId)
  }

  predicate Live(b: Beat) {
    b.Waiting? || b.Refreshing? || b.Losing?
  }

  ghost predicate Invariant(m: Machine) {
    && Shape(m) && QuietAtReturns(m.hasCallback, m.events)
    && forall o: OwnerId :: ClearedOnce(m, o) && CalledBackOnce(m, o)
  }

  lemma CountAppend(events: seq<Event>, e: Event, f: Event)
    ensures Count(events + [e], f) == Count(events, f) + One(e == f)
  {
    assert multiset(events + [e]) == multiset(events) + multiset{e};
  }

  lemma QuietGrows(hasCallback: bool, events: seq<Event>, e: Event)
    requires QuietAtReturns(hasCallback, events) && (e == ReleaseReturned ==> Quiet(hasCallback, events))
    ensures QuietAtReturns(hasCallback, events + [e])
  {
    hide Quiet;
    forall i | 0 <= i < |events + [e]| && (events + [e])[i] == ReleaseReturned
      ensures Quiet(hasCallback, (events + [e])[..i])
    {
      assert (events + [e])[..i] == events[..i];
      assert events[..|events|] == events;
    }
  }

  /** A step either leaves the history alone or adds one event to it. */
  function Added(m: Machine, a: Action): Option<Event> {
    match a
    case Acquire => Some(Acquired(m.next))
    case BeginRelease => if m.lease.held then Some(Released(m.lease.ownerId)) else None
    case EndRelease => Some(ReleaseReturned)
    case HandleLoss => if m.beat.Losing? && m.lease.held && m.lease.ownerId == m.beat.o then Some(Lost(m.lease.ownerId)) else None
    case BeginCallback => if m.beat.CallingBack? then Some(CallbackBegun(m.beat.o)) else None
    case EndCallback => if m.beat.InCallback? then Some(CallbackEnded(m.beat.o)) else None
    case _ => None
  }

  lemma StepShape(m: Machine, a: Action)
    requires Shape(m) && Apply(m, a).Some?
    ensures Shape(Apply(m, a).value)
  {
  }

  lemma StepClears(m: Machine, a: Action, o: OwnerId)
    requires Shape(m) && ClearedOnce(m, o) && Apply(m, a).Some?
    ensures ClearedOnce(Apply(m, a).value, o)
  {
    hide Count;
    var added := Added(m, a);
    if added.Some? {
      CountAppend(m.events, added.value, Acquired(o));
      CountAppend(m.events, added.value, Released(o));
      CountAppend(m.events, added.value, Lost(o));
    }
  }

  lemma StepCallsBack(m: Machine, a: Action, o: OwnerId)
    requires Shape(m) && CalledBackOnce(m, o) && Apply(m, a).Some?
    ensures CalledBackOnce(Apply(m, a).value, o)
  {
    hide Count;
    var added := Added(m, a);
    if added.Some? {
      CountAppend(m.events, added.value, Lost(o));
      CountAppend(m.events, added.value, CallbackBegun(o));
      CountAppend(m.events, added.value, CallbackEnded(o));
    }
  }

  lemma StepQuiet(m: Machine, a: Action)
    requires Invariant(m) && Apply(m, a).Some?
    ensures QuietAtReturns(m.hasCallback, Apply(m, a).value.events)
  {
    hide Count, QuietAtReturns;
    var added := Added(m, a);
    if added.Some? {
      if a.EndRelease? {
        forall o: OwnerId
          ensures Count(m.events, CallbackEnded(o)) == Count(m.events, CallbackBegun(o))
          ensures Count(m.events, CallbackBegun(o)) == (if m.hasCallback then Count(m.events, Lost(o)) else 0)
        {
          assert CalledBackOnce(m, o);
        }
      }
      QuietGrows(m.hasCallback, m.events, added.value);
    }
  }

  /** Every step keeps the invariant. */
  lemma StepKeepsInvariant(m: Machine, a: Action)
    requires Invariant(m) && Apply(m, a).Some?
    ensures Invariant(Apply(m, a).value)
  {
    StepQuiet(m, a);
    hide Apply, Shape, QuietAtReturns, CalledBackOnce, ClearedOnce;
    StepShape(m, a);
    StepKeepsCallback(m, a);
    forall o: OwnerId
      ensures ClearedOnce(Apply(m, a).value, o) && CalledBackOnce(Apply(m, a).value, o)
    {
      StepClears(m, a, o);
      StepCallsBack(m, a, o);
    }
  }

  lemma StepKeepsCallback(m: Machine, a: Action)
    requires Apply(m, a).Some?
    ensures Apply(m, a).value.hasCallback == m.hasCallback
  {
  }

  lemma {:induction false} RunKeepsInvariant(m: Machine, actions: seq<Action>)
    requires Invariant(m) && Run(m, actions).Some?
    ensures Invariant(Run(m, actions).value)
    decreases |actions|
  {
    hide Invariant;
    if actions != [] {
      StepKeepsInvariant(m, actions[0]);
      RunKeepsInvariant(Apply(m, actions[0]).value, actions[1..]);
    }
  }

  lemma InitialInvariant(hasCallback: bool)
    ensures Invariant(Initial(hasCallback))
  {
  }

  /** Each acquisition ends at most once, by release or by loss and not both, and has ended once
      the lease is no longer its own; the lost callback runs at most once and only after a loss. */
  lemma AcquisitionEndsOnce(hasCallback: bool, actions: seq<Action>, m: Machine, o: OwnerId)
    requires Run(Initial(hasCallback), actions) == Some(m)
    ensures Count(m.events, Acquired(o)) <= 1
    ensures Count(m.events, Released(o)) + Count(m.events, Lost(o)) ==
            (if m.lease.held && m.lease.ownerId == o then 0 else Count(m.events, Acquired(o)))
    ensures Count(m.events, CallbackEnded(o)) <= Count(m.events, CallbackBegun(o)) <= Count(m.events, Lost(o)) <= 1
  {
    InitialInvariant(hasCallback);
    RunKeepsInvariant(Initial(hasCallback), actions);
    assert ClearedOnce(m, o) && CalledBackOnce(m, o);
    RunKeepsCallback(Initial(hasCallback), actions);
  }

  lemma {:induction false} RunKeepsCallback(m: Machine, actions: seq<Action>)
    requires Run(m, actions).Some?
    ensures Run(m, actions).value.hasCallback == m.hasCallback
    decreases |actions|
  {
    if actions != [] {
      RunKeepsCallback(Apply(m, actions[0]).value, actions[1..]);
    }
  }

  /** When a release returns, the callback of every loss so far has finished, and no heartbeat
      thread is left to start another. */
  lemma CallbacksFinishBeforeReleaseReturns(hasCallback: bool, actions: seq<Action>, m: Machine)
    requires Run(Initial(hasCallback), actions) == Some(m)
    ensures QuietAtReturns(hasCallback, m.events)
    ensures m.main.Removing? ==> m.beat.NoThread? && !m.lease.held
  {
    InitialInvariant(hasCallback);
    RunKeepsInvariant(Initial(hasCallback), actions);
    RunKeepsCallback(Initial(hasCallback), actions);
  }

  /** A held lease at rest is watched by its own heartbeat thread. */
  lemma HeldIsWatched(hasCallback: bool, actions: seq<Action>, m: Machine)
    requires Run(Initial(hasCallback), actions) == Some(m) && m.lease.held && m.main.Ready?
    ensures Watches(m.beat, m.lease.ownerId)
  {
    InitialInvariant(hasCallback);
    RunKeepsInvariant(Initial(hasCallback), actions);
  }

  // ----- waiting for the heartbeat comes to an end -----

  /** The owner waits for a heartbeat thread that has been told to stop. */
  predicate Stopping(m: Machine) {
    (m.main.Releasing? || m.main.Starting?) && (Live(m.beat) ==> m.beat.stop)
  }

  predicate OfHeartbeat(a: Action) {
    a.Tick? || a.StopReceived? || a.Refreshed? || a.HandleLoss? || a.BeginCallback? || a.EndCallback?
  }

  function StepsLeft(b: Beat): nat {
    match b
    case Waiting(_, _) => 1
    case Refreshing(_, _) => 4
    case Losing(_, _) => 3
    case CallingBack(_) => 2
    case InCallback(_) => 1
    case _ => 0
  }

  lemma StopTakesEffect(m: Machine)
    requires m.main.Releasing? || m.main.Starting?
    ensures Apply(m, SendStop).Some? && Stopping(Apply(m, SendStop).value)
    ensures Apply(m, SendStop).value.main == m.main && Apply(m, SendStop).value.events == m.events
  {
  }

  /** Told to stop, the heartbeat has a next step until it has ended, and every step it may take
      brings it nearer the end: it never goes back to refreshing. */
  lemma HeartbeatRunsDown(m: Machine) returns (a: Action)
    requires Stopping(m) && !Ended(m.beat)
    ensures OfHeartbeat(a) && Apply(m, a).Some?
    ensures forall b | OfHeartbeat(b) && Apply(m, b).Some? ::
              && Stopping(Apply(m, b).value) && StepsLeft(Apply(m, b).value.beat) < StepsLeft(m.beat)
              && Apply(m, b).value.main == m.main
  {
    a := match m.beat
         case Waiting(_, _) => StopReceived
         case Refreshing(_, _) => Refreshed(false)
         case Losing(_, _) => HandleLoss
         case CallingBack(_) => BeginCallback
         case _ => EndCallback;
  }

  lemma {:induction false} HeartbeatEnds(m: Machine) returns (actions: seq<Action>)
    requires Stopping(m)
    ensures |actions| <= StepsLeft(m.beat) && forall a | a in actions :: OfHeartbeat(a)
    ensures Run(m, actions).Some? && Ended(Run(m, actions).value.beat) && Run(m, actions).value.main == m.main
    decreases StepsLeft(m.beat)
  {
    actions := [];
    if !Ended(m.beat) {
      var a := HeartbeatRunsDown(m);
      var rest := HeartbeatEnds(Apply(m, a).value);
      actions := [a] + rest;
      assert actions[1..] == rest;
    }
  }

  lemma {:induction false} RunConcat(m: Machine, first: seq<Action>, second: seq<Action>)
    requires Run(m, first).Some?
    ensures Run(m, first + second) == Run(Run(m, first).value, second)
    decreases |first|
  {
    if first == [] {
      assert first + second == second;
    } else {
      assert (first + second)[1..] == first[1..] + second;
      RunConcat(Apply(m, first[0]).value, first[1..], second);
    }
  }

  /** A release that has begun can always return, after the stop and at most four heartbeat steps,
      the callback of a loss included. */
  lemma ReleaseReturns(m: Machine) returns (actions: seq<Action>)
    requires m.main.Releasing?
    ensures |actions| <= 4 && forall a | a in actions :: OfHeartbeat(a)
    ensures var end := Run(m, [SendStop] + actions + [JoinHeartbeat, EndRelease]);
            && end.Some? && end.value.main.Ready? && end.value.beat.NoThread?
            && end.value.events != [] && end.value.events[|end.value.events| - 1] == ReleaseReturned
  {
    StopTakesEffect(m);
    var stopped := Apply(m, SendStop).value;
    actions := HeartbeatEnds(stopped);
    var waited := Run(stopped, actions).value;
    RunConcat(stopped, actions, [JoinHeartbeat, EndRelease]);
    var all := [SendStop] + actions + [JoinHeartbeat, EndRelease];
    assert all[1..] == actions + [JoinHeartbeat, EndRelease];
    JoinsAndReturns(waited);
  }

  lemma JoinsAndReturns(m: Machine)
    requires m.main.Releasing? && Ended(m.beat)
    ensures var end := Run(m, [JoinHeartbeat, EndRelease]);
            && end.Some? && end.value.main.Ready? && end.value.beat.NoThread?
            && end.value.events == m.events + [ReleaseReturned]
  {
    assert [JoinHeartbeat, EndRelease][1..] == [EndRelease] && [EndRelease][1..] == [];
  }

  /** And a new acquisition can always start its own heartbeat once the old one has stopped. */
  lemma AcquireStarts(m: Machine) returns (actions: seq<Action>)
    requires m.main.Starting?
    ensures |actions| <= 4 && forall a | a in actions :: OfHeartbeat(a)
    ensures var end := Run(m, [SendStop] + actions + [StartHeartbeat]);
            end.Some? && end.value.main.Ready? && end.value.beat == Waiting(m.main.o, false)
  {
    StopTakesEffect(m);
    var stopped := Apply(m, SendStop).value;
    actions := HeartbeatEnds(stopped);
    var waited := Run(stopped, actions).value;
    RunConcat(stopped, actions, [StartHeartbeat]);
    var all := [SendStop] + actions + [StartHeartbeat];
    assert all[1..] == actions + [StartHeartbeat] && [StartHeartbeat][1..] == [];
    assert Run(waited, [StartHeartbeat]) == Apply(waited, StartHeartbeat);
  }
}
