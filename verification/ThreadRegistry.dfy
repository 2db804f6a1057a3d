/**
  Notifications of ThreadRegistry (include/sisl/utility/thread_buffer.hpp): attaching and detaching threads
  call every registered callback outside the lock, from a copy of the list; a new registration is called
  for each running thread. Deregistration removes the callback and waits until no notification is going on.
 */
module ThreadRegistries {

  type Id = nat

  /** A notification in progress: callbacks still to make, and the one being made. */
  datatype Flight = Flight(left: seq<Id>, running: bool)

  datatype State = State(
    registered: set<Id>,
    nextId: Id,                      // m_next_notify_idx
    ongoing: int,                    // m_ongoing_notifications
    flights: map<nat, Flight>,
    nextFlight: nat,
    waiting: map<nat, Id>,           // callers inside deregister
    done: set<Id>)                   // ids whose deregistration has returned

  datatype Step =
    | Notify(order: seq<Id>)         // attach or detach, under the lock
    | Register(running: nat)         // under the lock, with this many running threads
    | Call(f: nat) | Return(f: nat) | Finish(f: nat)
    | Deregister(caller: nat, id: Id)
    | Wake(caller: nat)

  predicate Ascending(order: seq<Id>) { forall i, j :: 0 <= i < j < |order| ==> order[i] < order[j] }

  predicate Enabled(s: State, a: Step) {
    match a
    case Notify(order) => Ascending(order) && (set i | i in order) == s.registered
    case Register(_) => true
    case Call(f) => f in s.flights && s.flights[f].left != [] && !s.flights[f].running
    case Return(f) => f in s.flights && s.flights[f].left != [] && s.flights[f].running
    case Finish(f) => f in s.flights && s.flights[f].left == []
    case Deregister(c, id) => c !in s.waiting && id < s.nextId
    case Wake(c) => c in s.waiting && s.ongoing == 0
  }

  function Next(s: State, a: Step): State
    requires Enabled(s, a)
  {
    match a
    case Notify(order) =>
      s.(ongoing := s.ongoing + 1, flights := s.flights[s.nextFlight := Flight(order, false)],
         nextFlight := s.nextFlight + 1)
    case Register(n) =>
      s.(registered := s.registered + {s.nextId}, nextId := s.nextId + 1, ongoing := s.ongoing + 1,
         flights := s.flights[s.nextFlight := Flight(seq(n, i => s.nextId), false)], nextFlight := s.nextFlight + 1)
    case Call(f) => s.(flights := s.flights[f := Flight(s.flights[f].left, true)])
    case Return(f) => s.(flights := s.flights[f := Flight(s.flights[f].left[1..], false)])
    case Finish(f) => s.(flights := s.flights - {f}, ongoing := s.ongoing - 1)
    case Deregister(c, id) => s.(registered := s.registered - {id}, waiting := s.waiting[c := id])
    case Wake(c) => s.(waiting := s.waiting - {c}, done := s.done + {s.waiting[c]})
  }

  /** The callback of id is running or is still to be made in some notification. */
  predicate Pending(s: State, id: Id) { exists f :: f in s.flights && id in s.flights[f].left }

  predicate Counts(s: State) {
    && s.ongoing == |s.flights| && (forall f :: f in s.flights ==> f < s.nextFlight)
    && (forall i :: i in s.registered ==> i < s.nextId)
  }

  predicate Removed(s: State) {
    && (forall c :: c in s.waiting ==> s.waiting[c] < s.nextId && s.waiting[c] !in s.registered)
    && (forall i :: i in s.done ==> i < s.nextId && i !in s.registered)
    && (forall i, f :: i in s.done && f in s.flights ==> i !in s.flights[f].left)
  }

  /** A callback that is running is the first one left. */
  predicate Runs(s: State) { forall f :: f in s.flights && s.flights[f].running ==> s.flights[f].left != [] }

  predicate Inv(s: State) { Counts(s) && Removed(s) && Runs(s) }

  lemma CountsStep(s: State, a: Step)
    requires Counts(s) && Enabled(s, a)
    ensures Counts(Next(s, a))
  {
    match a {
      case Notify(_) =>
      case Register(_) =>
      case Call(f) => SameSize(s.flights, f, Flight(s.flights[f].left, true));
      case Return(f) => SameSize(s.flights, f, Flight(s.flights[f].left[1..], false));
      case Finish(f) => OneLess(s.flights, f);
      case Deregister(_, _) =>
      case Wake(_) =>
    }
  }

  lemma SameSize<V>(m: map<nat, V>, f: nat, v: V)
    requires f in m
    ensures |m[f := v]| == |m|
  {}

  lemma OneLess<V>(m: map<nat, V>, f: nat)
    requires f in m
    ensures |m - {f}| == |m| - 1
  {
    assert m == (m - {f})[f := m[f]];
  }

  lemma RemovedStep(s: State, a: Step)
    requires Inv(s) && Enabled(s, a)
    ensures Removed(Next(s, a))
  {
    match a {
      case Notify(_) =>
      case Register(_) =>
      case Call(_) =>
      case Return(f) => assert forall i :: i in s.flights[f].left[1..] ==> i in s.flights[f].left;
      case Finish(_) =>
      case Deregister(_, _) =>
      case Wake(_) =>
    }
  }

  lemma RunsStep(s: State, a: Step)
    requires Runs(s) && Enabled(s, a)
    ensures Runs(Next(s, a))
  {}

  lemma InvStep(s: State, a: Step)
    requires Inv(s) && Enabled(s, a)
    ensures Inv(Next(s, a))
  {
    CountsStep(s, a);
    RemovedStep(s, a);
    RunsStep(s, a);
  }

  ghost predicate Reaches(steps: seq<Step>, s: State)
    decreases |steps|
  {
    if steps == [] then s == State({}, 0, 0, map[], 0, map[], {})
    else
      var a, rest := steps[|steps| - 1], steps[..|steps| - 1];
      exists p :: Reaches(rest, p) && Enabled(p, a) && s == Next(p, a)
  }

  lemma {:induction false} RunsKeep(steps: seq<Step>, s: State)
    requires Reaches(steps, s)
    ensures Inv(s)
    decreases |steps|
  {
    if steps != [] {
      var a, rest := steps[|steps| - 1], steps[..|steps| - 1];
      var p :| Reaches(rest, p) && Enabled(p, a) && s == Next(p, a);
      hide Inv, Enabled, Next;
      RunsKeep(rest, p);
      InvStep(p, a);
    }
  }

  /** Once deregistration has returned, no callback of that id is running or pending... */
  lemma NoCallbackAfterDeregister(steps: seq<Step>, s: State, id: Id)
    requires Reaches(steps, s) && id in s.done
    ensures !Pending(s, id)
    ensures forall f :: f in s.flights && s.flights[f].running && s.flights[f].left != [] ==> s.flights[f].left[0] != id
  {
    RunsKeep(steps, s);
  }

  /** The given steps lead from s to s'. */
  ghost predicate Leads(s: State, steps: seq<Step>, s': State)
    decreases |steps|
  {
    if steps == [] then s' == s else Enabled(s, steps[0]) && Leads(Next(s, steps[0]), steps[1..], s')
  }

  lemma {:induction false} StaysRemoved(s: State, steps: seq<Step>, s': State, id: Id)
    requires Inv(s) && id in s.done && Leads(s, steps, s')
    ensures Inv(s') && id in s'.done
    decreases |steps|
  {
    if steps != [] {
      InvStep(s, steps[0]);
      StaysRemoved(Next(s, steps[0]), steps[1..], s', id);
    }
  }

  /** ... and none ever runs again, whatever follows. */
  lemma NeverCalledAgain(start: seq<Step>, s: State, id: Id, steps: seq<Step>, s': State)
    requires Reaches(start, s) && id in s.done && Leads(s, steps, s')
    ensures !Pending(s', id)
    ensures forall f :: Enabled(s', Call(f)) ==> s'.flights[f].left[0] != id
  {
    RunsKeep(start, s);
    RemovedIsQuiet(s, steps, s', id);
  }

  // ----- what a notification calls

  /** The callbacks that flight f makes in the given steps. */
  ghost function Calls(s: State, steps: seq<Step>, f: nat): seq<Id>
    decreases |steps|
  {
    if steps == [] || !Enabled(s, steps[0]) then []
    else (if steps[0] == Call(f) then [s.flights[f].left[0]] else []) + Calls(Next(s, steps[0]), steps[1..], f)
  }

  /** The callbacks a flight has not begun. */
  function NotBegun(f: Flight): seq<Id>
    requires f.running ==> f.left != []
  {
    if f.running then f.left[1..] else f.left
  }

  predicate NotFinished(steps: seq<Step>, f: nat) { forall i :: 0 <= i < |steps| ==> steps[i] != Finish(f) }

  lemma {:induction false} CallsInTurn(s: State, steps: seq<Step>, s': State, f: nat)
    requires Inv(s) && f in s.flights && Leads(s, steps, s') && NotFinished(steps, f)
    ensures Inv(s') && f in s'.flights
    ensures Calls(s, steps, f) + NotBegun(s'.flights[f]) == NotBegun(s.flights[f])
    decreases |steps|
  {
    if steps != [] {
      var a, rest := steps[0], steps[1..];
      assert a != Finish(f);
      InvStep(s, a);
      CallStep(s, a, f);
      assert forall i :: 0 <= i < |rest| ==> rest[i] == steps[i + 1];
      CallsInTurn(Next(s, a), rest, s', f);
    }
  }

  lemma CallStep(s: State, a: Step, f: nat)
    requires Inv(s) && f in s.flights && Enabled(s, a) && a != Finish(f)
    ensures var s' := Next(s, a);
      && Runs(s') && f in s'.flights
      && NotBegun(s.flights[f]) == (if a == Call(f) then [s.flights[f].left[0]] else []) + NotBegun(s'.flights[f])
  {
    match a {
      case Call(g) => assert s.flights[g].left == [s.flights[g].left[0]] + s.flights[g].left[1..];
      case _ =>
    }
  }

  /** A notification calls every callback that was registered when it began, once each and in ascending order, before
      it finishes. */
  lemma NotifiesAll(start: seq<Step>, s: State, order: seq<Id>, more: seq<Step>, s': State)
    requires Reaches(start, s) && Enabled(s, Notify(order)) && Leads(Next(s, Notify(order)), more, s')
    requires NotFinished(more, s.nextFlight) && Enabled(s', Finish(s.nextFlight))
    ensures var made := Calls(Next(s, Notify(order)), more, s.nextFlight);
      Ascending(made) && forall id :: id in made <==> id in s.registered
  {
    RunsKeep(start, s);
    var p := Next(s, Notify(order));
    InvStep(s, Notify(order));
    CallsInTurn(p, more, s', s.nextFlight);
    assert Calls(p, more, s.nextFlight) == order;
    assert forall id :: id in order <==> id in (set i | i in order);
  }

  /** A new registration is called once for each running thread before register returns. */
  lemma RegistersForAll(start: seq<Step>, s: State, n: nat, more: seq<Step>, s': State)
    requires Reaches(start, s) && Leads(Next(s, Register(n)), more, s')
    requires NotFinished(more, s.nextFlight) && Enabled(s', Finish(s.nextFlight))
    ensures var made := Calls(Next(s, Register(n)), more, s.nextFlight);
      |made| == n && forall i :: 0 <= i < n ==> made[i] == s.nextId
    ensures s.nextId !in s.registered && s.nextId in Next(s, Register(n)).registered
  {
    RunsKeep(start, s);
    var p := Next(s, Register(n));
    InvStep(s, Register(n));
    assert forall i :: 0 <= i < n ==> p.flights[s.nextFlight].left[i] == s.nextId;
    CallsInTurn(p, more, s', s.nextFlight);
    assert Calls(p, more, s.nextFlight) == p.flights[s.nextFlight].left;
  }

  /** Deregistration returns exactly when no notification is going on. */
  lemma WakesIff(steps: seq<Step>, s: State, c: nat)
    requires Reaches(steps, s) && c in s.waiting
    ensures Enabled(s, Wake(c)) <==> s.flights == map[]
  {
    RunsKeep(steps, s);
  }

  predicate NotWoken(steps: seq<Step>, c: nat) { forall i :: 0 <= i < |steps| ==> steps[i] != Wake(c) }

  lemma {:induction false} KeepsWaiting(s: State, steps: seq<Step>, s': State, c: nat)
    requires Inv(s) && c in s.waiting && Leads(s, steps, s') && NotWoken(steps, c)
    ensures Inv(s') && c in s'.waiting && s'.waiting[c] == s.waiting[c]
    decreases |steps|
  {
    if steps != [] {
      var rest := steps[1..];
      assert steps[0] != Wake(c);
      InvStep(s, steps[0]);
      assert forall i :: 0 <= i < |rest| ==> rest[i] == steps[i + 1];
      KeepsWaiting(Next(s, steps[0]), rest, s', c);
    }
  }

  /** From the return of deregister on its callback neither runs nor is left in any notification. */
  lemma DeregisteredForGood(start: seq<Step>, s: State, c: nat, id: Id, mid: seq<Step>, s1: State, more: seq<Step>,
                            s2: State)
    requires Reaches(start, s) && Enabled(s, Deregister(c, id)) && Leads(Next(s, Deregister(c, id)), mid, s1)
    requires NotWoken(mid, c) && Enabled(s1, Wake(c)) && Leads(Next(s1, Wake(c)), more, s2)
    ensures !Pending(s2, id) && forall f :: Enabled(s2, Call(f)) ==> s2.flights[f].left[0] != id
  {
    RunsKeep(start, s);
    InvStep(s, Deregister(c, id));
    KeepsWaiting(Next(s, Deregister(c, id)), mid, s1, c);
    InvStep(s1, Wake(c));
    DoneAtWake(s1, c);
    RemovedIsQuiet(Next(s1, Wake(c)), more, s2, id);
  }

  lemma DoneAtWake(s: State, c: nat)
    requires Enabled(s, Wake(c))
    ensures s.waiting[c] in Next(s, Wake(c)).done
  {}

  lemma RemovedIsQuiet(s: State, steps: seq<Step>, s': State, id: Id)
    requires Inv(s) && id in s.done && Leads(s, steps, s')
    ensures !Pending(s', id) && forall f :: Enabled(s', Call(f)) ==> s'.flights[f].left[0] != id
  {
    StaysRemoved(s, steps, s', id);
  }
}
