/**
  The locks of ThreadRegistry and of a ThreadBuffer (include/sisl/utility/thread_buffer.hpp): the registry
  lock m_init_mutex and the buffer lock m_expand_mutex, in every interleaving of attaching and detaching
  threads and of threads that access the buffers of all others.

  An attaching thread looks for a free number that the buffer has no reference on, and keeps looking with
  the registry lock held. A detaching thread gives its number back under the registry lock and the reference
  under the buffer lock. An access holds the buffer lock and asks the registry whether a thread runs.
 */
module RegistryLocks {
  import opened Wrappers

  type Thread = nat

  /** How many thread numbers there are, and whether waiting writers hold up new readers of a lock. */
  datatype Config = Config(slots: nat, preferWriters: bool)

  datatype Phase =
    | Out
    | AttachWait | Picking                                        // registry lock
    | CreateWait(slot: nat) | Creating(slot: nat)                 // buffer lock
    | AttachedWait(slot: nat) | AttachedIn(slot: nat)             // registry lock, end of the notification
    | Running(slot: nat)
    | DetachWait(slot: nat) | Freeing(slot: nat)                  // registry lock
    | MoveWait(slot: nat) | Moving(slot: nat)                     // buffer lock
    | DetachedWait | DetachedIn                                   // registry lock, end of the notification
    | ScanWait(own: Option<nat>) | Scanning(own: Option<nat>)     // buffer lock, shared
    | AskWait(own: Option<nat>) | Asking(own: Option<nat>)        // and the registry lock, shared
    | ExitedWait(own: Option<nat>) | InExited(own: Option<nat>)   // buffer lock

  /** The numbers in use, those the buffer has a reference on, and the phases of the threads. */
  datatype State = State(taken: set<nat>, refs: set<nat>, threads: map<Thread, Phase>)

  function At(s: State, t: Thread): Phase { if t in s.threads then s.threads[t] else Out }

  datatype Lock = Registry | Buffer

  predicate HoldsExclusive(f: Phase, l: Lock) {
    match l
    case Registry => f.Picking? || f.AttachedIn? || f.Freeing? || f.DetachedIn?
    case Buffer => f.Creating? || f.Moving? || f.InExited?
  }

  predicate HoldsShared(f: Phase, l: Lock) {
    match l
    case Registry => f.Asking?
    case Buffer => f.Scanning? || f.AskWait? || f.Asking?
  }

  predicate WaitsExclusive(f: Phase, l: Lock) {
    match l
    case Registry => f.AttachWait? || f.AttachedWait? || f.DetachWait? || f.DetachedWait?
    case Buffer => f.CreateWait? || f.MoveWait? || f.ExitedWait?
  }

  predicate WaitsShared(f: Phase, l: Lock) {
    match l
    case Registry => f.AskWait?
    case Buffer => f.ScanWait?
  }

  predicate Waits(f: Phase) {
    WaitsExclusive(f, Registry) || WaitsShared(f, Registry) || WaitsExclusive(f, Buffer) || WaitsShared(f, Buffer)
  }

  /** h is in the way of f at a lock. */
  predicate InTheWay(c: Config, h: Phase, f: Phase, l: Lock) {
    || (WaitsExclusive(f, l) && (HoldsExclusive(h, l) || HoldsShared(h, l)))
    || (WaitsShared(f, l) && (HoldsExclusive(h, l) || (c.preferWriters && WaitsExclusive(h, l))))
  }

  predicate Blocks(c: Config, s: State, u: Thread, t: Thread) {
    u != t && (InTheWay(c, At(s, u), At(s, t), Registry) || InTheWay(c, At(s, u), At(s, t), Buffer))
  }

  predicate IsFree(c: Config, s: State, n: nat) { n < c.slots && n !in s.taken }

  // ----- steps

  datatype Step =
    | Attach(t: Thread) | Detach(t: Thread) | Scan(t: Thread)
    | Take(t: Thread)                            // gets the lock it waits for
    | Pick(t: Thread, n: nat) | Throw(t: Thread) // no number is free
    | Ask(t: Thread) | EndScan(t: Thread)
    | Leave(t: Thread)                           // does its work and gives the lock back

  function Home(own: Option<nat>): Phase { if own.Some? then Running(own.value) else Out }

  predicate Enabled(c: Config, s: State, a: Step) {
    var f := At(s, a.t);
    match a
    case Attach(_) => f.Out?
    case Detach(_) => f.Running?
    case Scan(_) => f.Out? || f.Running?
    case Take(t) => Waits(f) && forall u :: u in s.threads ==> !Blocks(c, s, u, t)
    case Pick(_, n) => f.Picking? && IsFree(c, s, n) && n !in s.refs
    case Throw(_) => f.Picking? && forall n :: 0 <= n < c.slots ==> n in s.taken
    case Ask(_) => f.Scanning?
    case EndScan(_) => f.Scanning?
    case Leave(_) =>
      f.Creating? || f.AttachedIn? || f.Freeing? || f.Moving? || f.DetachedIn? || f.Asking? || f.InExited?
  }

  function Taken(f: Phase): Phase
    requires Waits(f)
  {
    match f
    case AttachWait => Picking
    case CreateWait(n) => Creating(n)
    case AttachedWait(n) => AttachedIn(n)
    case DetachWait(n) => Freeing(n)
    case MoveWait(n) => Moving(n)
    case DetachedWait => DetachedIn
    case ScanWait(own) => Scanning(own)
    case AskWait(own) => Asking(own)
    case ExitedWait(own) => InExited(own)
  }

  function Next(c: Config, s: State, a: Step): State
    requires Enabled(c, s, a)
  {
    var f := At(s, a.t);
    match a
    case Attach(t) => s.(threads := s.threads[t := AttachWait])
    case Detach(t) => s.(threads := s.threads[t := DetachWait(f.slot)])
    case Scan(t) => s.(threads := s.threads[t := ScanWait(if f.Running? then Some(f.slot) else None)])
    case Take(t) => s.(threads := s.threads[t := Taken(f)])
    case Pick(t, n) => s.(taken := s.taken + {n}, threads := s.threads[t := CreateWait(n)])
    case Throw(t) => s.(threads := s.threads[t := Out])
    case Ask(t) => s.(threads := s.threads[t := AskWait(f.own)])
    case EndScan(t) => s.(threads := s.threads[t := ExitedWait(f.own)])
    case Leave(t) =>
      match f {
        case Creating(n) => s.(refs := s.refs + {n}, threads := s.threads[t := AttachedWait(n)])
        case AttachedIn(n) => s.(threads := s.threads[t := Running(n)])
        case Freeing(n) => s.(taken := s.taken - {n}, threads := s.threads[t := MoveWait(n)])
        case Moving(n) => s.(refs := s.refs - {n}, threads := s.threads[t := DetachedWait])
        case DetachedIn => s.(threads := s.threads[t := Out])
        case Asking(own) => s.(threads := s.threads[t := Scanning(own)])
        case InExited(own) => s.(threads := s.threads[t := Home(own)])
      }
  }

  // ----- what every step keeps

  predicate Excludes(f: Phase, h: Phase) {
    forall l :: HoldsExclusive(f, l) ==> !HoldsExclusive(h, l) && !HoldsShared(h, l)
  }

  ghost predicate Exclusive(s: State) {
    forall t, u :: t in s.threads && u in s.threads && t != u ==> Excludes(s.threads[t], s.threads[u])
  }

  /** The number of a thread from the time it is picked until it is given back. */
  function Number(f: Phase): Option<nat> {
    match f
    case CreateWait(n) => Some(n)
    case Creating(n) => Some(n)
    case AttachedWait(n) => Some(n)
    case AttachedIn(n) => Some(n)
    case Running(n) => Some(n)
    case DetachWait(n) => Some(n)
    case Freeing(n) => Some(n)
    case ScanWait(own) => own
    case Scanning(own) => own
    case AskWait(own) => own
    case Asking(own) => own
    case ExitedWait(own) => own
    case InExited(own) => own
    case _ => None
  }

  /** The thread has yet to give back the reference on its number, which is free already. */
  predicate Releases(f: Phase, n: nat) { (f.MoveWait? || f.Moving?) && f.slot == n }

  ghost predicate Owned(s: State) {
    forall t :: t in s.threads && Number(s.threads[t]).Some? ==> Number(s.threads[t]).value in s.taken
  }

  ghost predicate Apart(s: State) {
    forall t, u :: t in s.threads && u in s.threads && t != u && Number(s.threads[t]).Some? ==>
      Number(s.threads[u]) != Number(s.threads[t])
  }

  /** A buffer takes one reference on a number. */
  ghost predicate RefsOnce(s: State) {
    forall t :: t in s.threads && (s.threads[t].CreateWait? || s.threads[t].Creating?) ==> s.threads[t].slot !in s.refs
  }

  /** A free number with a reference is about to lose it. */
  ghost predicate RefsEnd(s: State) {
    forall n :: n in s.refs && n !in s.taken ==> exists t :: t in s.threads && Releases(s.threads[t], n)
  }

  ghost predicate Inv(s: State) { Exclusive(s) && Owned(s) && Apart(s) && RefsOnce(s) && RefsEnd(s) }

  lemma StepExclusive(c: Config, s: State, a: Step)
    requires Exclusive(s) && Enabled(c, s, a)
    ensures Exclusive(Next(c, s, a))
  {
    var s' := Next(c, s, a);
    forall t, u | t in s'.threads && u in s'.threads && t != u ensures Excludes(s'.threads[t], s'.threads[u]) {
      if t != a.t && u != a.t {
        assert Excludes(s.threads[t], s.threads[u]);
      } else {
        SelfExcludes(c, s, a, if t == a.t then u else t);
      }
      hide Excludes;
    }
  }

  lemma SelfExcludes(c: Config, s: State, a: Step, u: Thread)
    requires Exclusive(s) && Enabled(c, s, a) && u in s.threads && u != a.t
    ensures var f := Next(c, s, a).threads[a.t]; Excludes(f, s.threads[u]) && Excludes(s.threads[u], f)
  {
    Holdings(c, s, a);
    if a.t in s.threads { assert Excludes(s.threads[a.t], s.threads[u]) && Excludes(s.threads[u], s.threads[a.t]); }
    if a.Take? { assert !Blocks(c, s, u, a.t); }
    var f, f', h := At(s, a.t), Next(c, s, a).threads[a.t], s.threads[u];
    hide Enabled, Next, HoldsExclusive, HoldsShared, WaitsExclusive, WaitsShared;
    forall l | HoldsExclusive(f', l) ensures !HoldsExclusive(h, l) && !HoldsShared(h, l) {
      assert InTheWay(c, h, f, l) ==> Blocks(c, s, u, a.t);
    }
    forall l | HoldsExclusive(h, l) ensures !HoldsExclusive(f', l) && !HoldsShared(f', l) {
      assert InTheWay(c, h, f, l) ==> Blocks(c, s, u, a.t);
    }
  }

  /** A step gives a thread no lock but the one it waits for. */
  lemma Holdings(c: Config, s: State, a: Step)
    requires Enabled(c, s, a)
    ensures var f, f' := At(s, a.t), Next(c, s, a).threads[a.t];
      && (forall l :: HoldsExclusive(f', l) ==> HoldsExclusive(f, l) || (a.Take? && WaitsExclusive(f, l)))
      && (forall l :: HoldsShared(f', l) ==> HoldsShared(f, l) || (a.Take? && WaitsShared(f, l)))
  {}

  /** Nor a number but the one it picks. */
  lemma NumberAfter(c: Config, s: State, a: Step)
    requires Enabled(c, s, a)
    ensures var f, f' := At(s, a.t), Next(c, s, a).threads[a.t];
      Number(f') == if a.Pick? then Some(a.n) else if a.Leave? && f.Freeing? then None else Number(f)
  {}

  lemma StepOwned(c: Config, s: State, a: Step)
    requires Owned(s) && Apart(s) && Enabled(c, s, a)
    ensures Owned(Next(c, s, a))
  {}

  lemma StepApart(c: Config, s: State, a: Step)
    requires Owned(s) && Apart(s) && Enabled(c, s, a)
    ensures Apart(Next(c, s, a))
  {
    NumberAfter(c, s, a);
    var s' := Next(c, s, a);
    assert a.Pick? ==> a.n !in s.taken;
    assert s'.threads == s.threads[a.t := s'.threads[a.t]];
    hide Number, Next, Enabled;
  }

  lemma StepRefsOnce(c: Config, s: State, a: Step)
    requires RefsOnce(s) && Apart(s) && Enabled(c, s, a)
    ensures RefsOnce(Next(c, s, a))
  {}

  lemma StepRefsEnd(c: Config, s: State, a: Step)
    requires Owned(s) && RefsEnd(s) && Enabled(c, s, a)
    ensures RefsEnd(Next(c, s, a))
  {
    var s' := Next(c, s, a);
    forall n | n in s'.refs && n !in s'.taken ensures exists t :: t in s'.threads && Releases(s'.threads[t], n) {
      if n in s.refs && n !in s.taken {
        var t :| t in s.threads && Releases(s.threads[t], n);
        assert t in s'.threads && Releases(s'.threads[t], n);
      } else {
        assert a.t in s'.threads && Releases(s'.threads[a.t], n);
      }
    }
  }

  lemma InvStep(c: Config, s: State, a: Step)
    requires Inv(s) && Enabled(c, s, a)
    ensures Inv(Next(c, s, a))
  {
    hide Exclusive, Owned, Apart, RefsOnce, RefsEnd, Enabled, Next;
    StepExclusive(c, s, a);
    StepOwned(c, s, a);
    StepApart(c, s, a);
    StepRefsOnce(c, s, a);
    StepRefsEnd(c, s, a);
  }

  // ----- every run

  function Init(): State { State({}, {}, map[]) }

  ghost predicate Reaches(c: Config, steps: seq<Step>, s: State)
    decreases |steps|
  {
    if steps == [] then s == Init()
    else
      var a, rest := steps[|steps| - 1], steps[..|steps| - 1];
      exists p :: Reaches(c, rest, p) && Enabled(c, p, a) && s == Next(c, p, a)
  }

  lemma {:induction false} RunsKeep(c: Config, steps: seq<Step>, s: State)
    requires Reaches(c, steps, s)
    ensures Inv(s)
    decreases |steps|
  {
    if steps != [] {
      var a, rest := steps[|steps| - 1], steps[..|steps| - 1];
      var p :| Reaches(c, rest, p) && Enabled(c, p, a) && s == Next(c, p, a);
      hide Enabled, Next, Inv;
      RunsKeep(c, rest, p);
      InvStep(c, p, a);
    }
  }

  // ----- deadlock

  /** The thread looks for a number in vain: some are free, and the buffer has a reference on each of those. */
  ghost predicate Spins(c: Config, s: State, t: Thread) {
    && At(s, t).Picking? && (exists n :: IsFree(c, s, n))
    && forall n :: IsFree(c, s, n) ==> n in s.refs
  }

  /** Only threads of w can let t go on: one of them is in its way, or all that give references back are among them. */
  ghost predicate HeldUp(c: Config, s: State, t: Thread, w: set<Thread>) {
    || (exists u :: u in w && Blocks(c, s, u, t))
    || (Spins(c, s, t) && forall u, n :: u in s.threads && IsFree(c, s, n) && Releases(s.threads[u], n) ==> u in w)
  }

  ghost predicate Deadlocked(c: Config, s: State, w: set<Thread>) {
    w != {} && w <= s.threads.Keys && forall t :: t in w ==> HeldUp(c, s, t, w)
  }

  /** An access asks the registry while an attaching thread looks for a number in vain. */
  ghost predicate AsksInVain(c: Config, s: State, a: Thread, r: Thread) {
    a in s.threads && r in s.threads && Spins(c, s, a) && s.threads[r].AskWait?
  }

  /** A thread of w that is in the way of t; it waits as well or looks for a number in vain. */
  lemma Blocker(c: Config, s: State, w: set<Thread>, t: Thread) returns (u: Thread)
    requires Deadlocked(c, s, w) && t in w && !Spins(c, s, t)
    ensures u in w && Blocks(c, s, u, t) && (Waits(At(s, u)) || Spins(c, s, u))
  {
    hide Blocks, Spins;
    assert HeldUp(c, s, t, w);
    u :| u in w && Blocks(c, s, u, t);
    assert HeldUp(c, s, u, w);
    OnlyWaiters(c, s, u, w);
  }

  lemma OnlyWaiters(c: Config, s: State, u: Thread, w: set<Thread>)
    requires HeldUp(c, s, u, w)
    ensures Waits(At(s, u)) || Spins(c, s, u)
  {}

  /** Whoever is held up at the registry lock is held up by a thread that looks for a number. */
  lemma AtRegistry(c: Config, s: State, w: set<Thread>, t: Thread) returns (a: Thread)
    requires Deadlocked(c, s, w) && t in w
    requires WaitsExclusive(At(s, t), Registry) || WaitsShared(At(s, t), Registry)
    ensures a in w && Spins(c, s, a)
  {
    hide Deadlocked;
    a := Blocker(c, s, w, t);
    if !Spins(c, s, a) {
      assert WaitsExclusive(At(s, a), Registry);
      a := Blocker(c, s, w, a);
    }
  }

  /** Whoever is held up at the buffer lock is held up by a thread that asks the registry. */
  lemma AtBuffer(c: Config, s: State, w: set<Thread>, t: Thread) returns (r: Thread)
    requires Deadlocked(c, s, w) && t in w
    requires WaitsExclusive(At(s, t), Buffer) || WaitsShared(At(s, t), Buffer)
    ensures r in w && At(s, r).AskWait?
  {
    hide Deadlocked;
    r := Blocker(c, s, w, t);
    if !At(s, r).AskWait? {
      assert WaitsExclusive(At(s, r), Buffer);
      r := Blocker(c, s, w, r);
    }
  }

  /** Every deadlock has an attaching thread that looks for a number in vain... */
  lemma SomeoneSpins(c: Config, s: State, w: set<Thread>) returns (a: Thread)
    requires Deadlocked(c, s, w)
    ensures a in w && Spins(c, s, a)
  {
    var t :| t in w;
    assert HeldUp(c, s, t, w);
    if Spins(c, s, t) {
      a := t;
    } else if WaitsExclusive(At(s, t), Registry) || WaitsShared(At(s, t), Registry) {
      a := AtRegistry(c, s, w, t);
    } else {
      var r := AtBuffer(c, s, w, t);
      a := AtRegistry(c, s, w, r);
    }
  }

  /** ... and an access that asks the registry. */
  lemma SomeoneAsks(c: Config, s: State, w: set<Thread>) returns (a: Thread, r: Thread)
    requires Inv(s) && Deadlocked(c, s, w)
    ensures a in w && r in w && AsksInVain(c, s, a, r)
  {
    hide Exclusive, Owned, Apart, RefsOnce;
    a := SomeoneSpins(c, s, w);
    var u := SomeoneReleases(c, s, w, a);
    r := AtBuffer(c, s, w, u);
  }

  /** A thread of the deadlock has yet to give back a reference. */
  lemma SomeoneReleases(c: Config, s: State, w: set<Thread>, a: Thread) returns (u: Thread)
    requires Inv(s) && Deadlocked(c, s, w) && a in w && Spins(c, s, a)
    ensures u in w && At(s, u).MoveWait?
  {
    hide Exclusive, Owned, Apart, RefsOnce;
    var n :| IsFree(c, s, n);
    u :| u in s.threads && Releases(s.threads[u], n);
    assert HeldUp(c, s, a, w);
    assert !exists v :: v in w && Blocks(c, s, v, a);
    assert HeldUp(c, s, u, w);
  }

  /** The threads of such a deadlock. */
  ghost function Knot(s: State, a: Thread, r: Thread): set<Thread> {
    {a, r} + set u | u in s.threads && s.threads[u].MoveWait?
  }

  lemma KnotIsDeadlocked(c: Config, s: State, a: Thread, r: Thread)
    requires Exclusive(s) && AsksInVain(c, s, a, r)
    ensures Deadlocked(c, s, Knot(s, a, r))
  {
    var w := Knot(s, a, r);
    forall t | t in w ensures HeldUp(c, s, t, w) {
      if t == a {
        forall u, n | u in s.threads && IsFree(c, s, n) && Releases(s.threads[u], n) ensures u in w {
          assert HoldsShared(s.threads[r], Buffer);
          assert u != r ==> Excludes(s.threads[u], s.threads[r]);
        }
      } else if t == r {
        assert Blocks(c, s, a, r);
      } else {
        assert Blocks(c, s, r, t);
      }
    }
  }

  /** In every run threads wait for each other if and only if an access asks the registry while an attaching thread
      finds a reference of the buffer on every free number. */
  lemma DeadlockIff(c: Config, steps: seq<Step>, s: State)
    requires Reaches(c, steps, s)
    ensures (exists w :: Deadlocked(c, s, w)) <==> (exists a, r :: AsksInVain(c, s, a, r))
  {
    hide Reaches, AsksInVain, Deadlocked;
    RunsKeep(c, steps, s);
    if w :| Deadlocked(c, s, w) {
      var a, r := SomeoneAsks(c, s, w);
    }
    if a, r :| AsksInVain(c, s, a, r) {
      KnotIsDeadlocked(c, s, a, r);
    }
  }

  /** Nobody in a deadlock has a step, and no step of others ends it. */
  lemma DeadlockStays(c: Config, s: State, w: set<Thread>, a: Step)
    requires Inv(s) && Deadlocked(c, s, w) && Enabled(c, s, a)
    ensures a.t !in w && Deadlocked(c, Next(c, s, a), w)
  {
    Motionless(c, s, w, a);
    var s' := Next(c, s, a);
    forall t | t in w ensures HeldUp(c, s', t, w) {
      assert HeldUp(c, s, t, w);
      if u :| u in w && Blocks(c, s, u, t) {
        assert Blocks(c, s', u, t);
      } else {
        StillSpins(c, s, t, w, a);
      }
    }
  }

  lemma Motionless(c: Config, s: State, w: set<Thread>, a: Step)
    requires Deadlocked(c, s, w) && Enabled(c, s, a)
    ensures a.t !in w
  {
    if a.t in w {
      assert HeldUp(c, s, a.t, w);
      OnlyTakes(c, s, w, a);
    }
  }

  lemma OnlyTakes(c: Config, s: State, w: set<Thread>, a: Step)
    requires HeldUp(c, s, a.t, w) && w <= s.threads.Keys
    ensures !Enabled(c, s, a)
  {}

  /** While a thread looks for a number nobody else gets at the numbers. */
  lemma StillSpins(c: Config, s: State, t: Thread, w: set<Thread>, a: Step)
    requires Inv(s) && Enabled(c, s, a) && a.t != t && a.t !in w && t in s.threads && Spins(c, s, t)
    requires forall u, n :: u in s.threads && IsFree(c, s, n) && Releases(s.threads[u], n) ==> u in w
    ensures HeldUp(c, Next(c, s, a), t, w)
  {
    var s' := Next(c, s, a);
    assert HoldsExclusive(s.threads[t], Registry);
    if a.t in s.threads {
      assert Excludes(s.threads[t], s.threads[a.t]);
      assert !HoldsExclusive(s.threads[a.t], Registry);
    }
    assert s'.taken == s.taken;
    forall n | IsFree(c, s', n) ensures n in s'.refs {
      assert IsFree(c, s, n);
    }
    var n :| IsFree(c, s, n);
    assert IsFree(c, s', n);
    forall u, n | u in s'.threads && IsFree(c, s', n) && Releases(s'.threads[u], n) ensures u in w {
      assert IsFree(c, s, n);
    }
  }

  /** The run goes on from s to s'. */
  ghost predicate Continues(c: Config, s: State, steps: seq<Step>, s': State)
    decreases |steps|
  {
    if steps == [] then s' == s
    else
      var a, rest := steps[|steps| - 1], steps[..|steps| - 1];
      exists p :: Continues(c, s, rest, p) && Enabled(c, p, a) && s' == Next(c, p, a)
  }

  /** Whatever follows, the threads of a deadlock stay where they are. */
  lemma {:induction false} DeadlockForGood(c: Config, steps: seq<Step>, s: State, w: set<Thread>, more: seq<Step>,
                                           s': State)
    requires Reaches(c, steps, s) && Deadlocked(c, s, w) && Continues(c, s, more, s')
    ensures Reaches(c, steps + more, s') && Deadlocked(c, s', w) && forall t :: t in w ==> At(s', t) == At(s, t)
    decreases |more|
  {
    hide Reaches, Deadlocked, Enabled;
    if more == [] {
      assert steps + more == steps;
    } else {
      var a, rest := more[|more| - 1], more[..|more| - 1];
      var q :| Continues(c, s, rest, q) && Enabled(c, q, a) && s' == Next(c, q, a);
      DeadlockForGood(c, steps, s, w, rest, q);
      RunsKeep(c, steps + rest, q);
      DeadlockStays(c, q, w, a);
      Extend(c, steps + rest, q, a);
      assert steps + rest + [a] == steps + more;
    }
  }

  lemma Extend(c: Config, steps: seq<Step>, s: State, a: Step)
    requires Reaches(c, steps, s) && Enabled(c, s, a)
    ensures Reaches(c, steps + [a], Next(c, s, a))
  {
    var longer := steps + [a];
    assert longer[..|longer| - 1] == steps && longer[|longer| - 1] == a;
  }

  /** A thread that nobody is in the way of and that does not look for a number in vain has a step. */
  lemma GoesOn(c: Config, s: State, t: Thread) returns (a: Step)
    requires t in s.threads && !Spins(c, s, t) && forall u :: u in s.threads ==> !Blocks(c, s, u, t)
    ensures a.t == t && Enabled(c, s, a)
  {
    var f := s.threads[t];
    if Waits(f) {
      a := Take(t);
    } else if f.Picking? {
      if n :| IsFree(c, s, n) && n !in s.refs {
        a := Pick(t, n);
      } else {
        forall n: nat | n < c.slots ensures n in s.taken { assert !IsFree(c, s, n); }
        a := Throw(t);
      }
    } else {
      a := if f.Out? then Attach(t) else if f.Running? then Detach(t) else if f.Scanning? then Ask(t) else Leave(t);
    }
  }

  // ----- a run that ends in a deadlock, for any number of thread numbers

  predicate Calm(f: Phase) { f.Out? || f.Running? }

  predicate OthersCalm(s: State, t: Thread) { forall u :: u in s.threads && u != t ==> Calm(s.threads[u]) }

  /** Among calm threads a thread gets its lock. */
  lemma Takes(c: Config, steps: seq<Step>, s: State, t: Thread) returns (steps': seq<Step>)
    requires Reaches(c, steps, s) && t in s.threads && Waits(s.threads[t]) && OthersCalm(s, t)
    ensures Reaches(c, steps', s.(threads := s.threads[t := Taken(s.threads[t])]))
  {
    Extend(c, steps, s, Take(t));
    steps' := steps + [Take(t)];
  }

  /** A thread attaches with a free number. */
  lemma Attaches(c: Config, steps: seq<Step>, s: State, t: Thread, n: nat) returns (steps': seq<Step>)
    requires Reaches(c, steps, s) && t !in s.threads && OthersCalm(s, t) && IsFree(c, s, n) && n !in s.refs
    ensures Reaches(c, steps', State(s.taken + {n}, s.refs + {n}, s.threads[t := Running(n)]))
  {
    hide Reaches;
    Extend(c, steps, s, Attach(t));
    var s1 := s.(threads := s.threads[t := AttachWait]);
    steps' := Takes(c, steps + [Attach(t)], s1, t);
    var s2 := s1.(threads := s1.threads[t := Picking]);
    Extend(c, steps', s2, Pick(t, n));
    var s3 := State(s.taken + {n}, s.refs, s2.threads[t := CreateWait(n)]);
    steps' := Takes(c, steps' + [Pick(t, n)], s3, t);
    var s4 := s3.(threads := s3.threads[t := Creating(n)]);
    steps' := Finishes(c, steps', s4, t, n);
    assert s4.threads[t := Running(n)] == s.threads[t := Running(n)];
  }

  lemma Finishes(c: Config, steps: seq<Step>, s: State, t: Thread, n: nat) returns (steps': seq<Step>)
    requires Reaches(c, steps, s) && t in s.threads && s.threads[t] == Creating(n) && OthersCalm(s, t)
    ensures Reaches(c, steps', s.(refs := s.refs + {n}, threads := s.threads[t := Running(n)]))
  {
    hide Reaches;
    Extend(c, steps, s, Leave(t));
    var s1 := s.(refs := s.refs + {n}, threads := s.threads[t := AttachedWait(n)]);
    steps' := Takes(c, steps + [Leave(t)], s1, t);
    var s2 := s1.(threads := s1.threads[t := AttachedIn(n)]);
    Extend(c, steps', s2, Leave(t));
    steps' := steps' + [Leave(t)];
    assert s2.threads[t := Running(n)] == s.threads[t := Running(n)];
  }

  /** A thread detaches: its number is free, and the buffer has no reference on it any more. */
  lemma Detaches(c: Config, steps: seq<Step>, s: State, t: Thread) returns (steps': seq<Step>)
    requires Reaches(c, steps, s) && t in s.threads && s.threads[t].Running? && OthersCalm(s, t)
    ensures var n := s.threads[t].slot;
      Reaches(c, steps', State(s.taken - {n}, s.refs - {n}, s.threads[t := Out]))
  {
    hide Reaches;
    var n := s.threads[t].slot;
    steps' := GivesBack(c, steps, s, t, n);
    var s1 := s.(taken := s.taken - {n}, threads := s.threads[t := MoveWait(n)]);
    steps' := Takes(c, steps', s1, t);
    var s2 := s1.(threads := s.threads[t := Moving(n)]);
    assert s1.threads[t := Moving(n)] == s2.threads;
    steps' := Leaves(c, steps', s2, t, n);
    assert s2.threads[t := Out] == s.threads[t := Out];
  }

  lemma GivesBack(c: Config, steps: seq<Step>, s: State, t: Thread, n: nat) returns (steps': seq<Step>)
    requires Reaches(c, steps, s) && t in s.threads && s.threads[t] == Running(n) && OthersCalm(s, t)
    ensures Reaches(c, steps', s.(taken := s.taken - {n}, threads := s.threads[t := MoveWait(n)]))
  {
    hide Reaches;
    steps' := StartsDetaching(c, steps, s, t, n);
    var s1 := s.(threads := s.threads[t := Freeing(n)]);
    Extend(c, steps', s1, Leave(t));
    steps' := steps' + [Leave(t)];
    assert s1.threads[t := MoveWait(n)] == s.threads[t := MoveWait(n)];
  }

  lemma StartsDetaching(c: Config, steps: seq<Step>, s: State, t: Thread, n: nat) returns (steps': seq<Step>)
    requires Reaches(c, steps, s) && t in s.threads && s.threads[t] == Running(n) && OthersCalm(s, t)
    ensures Reaches(c, steps', s.(threads := s.threads[t := Freeing(n)]))
  {
    hide Reaches;
    Extend(c, steps, s, Detach(t));
    var s1 := s.(threads := s.threads[t := DetachWait(n)]);
    steps' := Takes(c, steps + [Detach(t)], s1, t);
    assert s1.threads[t := Freeing(n)] == s.threads[t := Freeing(n)];
  }

  lemma Leaves(c: Config, steps: seq<Step>, s: State, t: Thread, n: nat) returns (steps': seq<Step>)
    requires Reaches(c, steps, s) && t in s.threads && s.threads[t] == Moving(n) && OthersCalm(s, t)
    ensures Reaches(c, steps', s.(refs := s.refs - {n}, threads := s.threads[t := Out]))
  {
    hide Reaches;
    Extend(c, steps, s, Leave(t));
    var s1 := s.(refs := s.refs - {n}, threads := s.threads[t := DetachedWait]);
    steps' := Takes(c, steps + [Leave(t)], s1, t);
    var s2 := s1.(threads := s.threads[t := DetachedIn]);
    assert s1.threads[t := DetachedIn] == s2.threads;
    Extend(c, steps', s2, Leave(t));
    steps' := steps' + [Leave(t)];
    assert s2.threads[t := Out] == s.threads[t := Out];
  }

  /** An access of all buffers that asks the registry once: under the shared lock, and again under the exclusive one. */
  function ScanPath(t: nat, own: Option<nat>): seq<(Phase, Step)> {
    [(ScanWait(own), Take(t)), (Scanning(own), Ask(t)), (AskWait(own), Take(t)), (Asking(own), Leave(t)),
     (Scanning(own), EndScan(t)), (ExitedWait(own), Take(t)), (InExited(own), Leave(t))]
  }

  lemma ScanGoes(c: Config, s: State, t: nat, i: nat)
    requires t in s.threads && Calm(s.threads[t]) && OthersCalm(s, t) && i < 7
    ensures var own := if s.threads[t].Running? then Some(s.threads[t].slot) else None;
      var path := ScanPath(t, own); var here := s.(threads := s.threads[t := path[i].0]);
      && Enabled(c, s, Scan(t)) && Next(c, s, Scan(t)) == s.(threads := s.threads[t := path[0].0])
      && Enabled(c, here, path[i].1)
      && Next(c, here, path[i].1) ==
         s.(threads := s.threads[t := if i < 6 then path[i + 1].0 else s.threads[t]])
  {
    var own := if s.threads[t].Running? then Some(s.threads[t].slot) else None;
    var path := ScanPath(t, own);
    var here := s.(threads := s.threads[t := path[i].0]);
    var next := if i < 6 then path[i + 1].0 else s.threads[t];
    assert here.threads[t := next] == s.threads[t := next];
  }

  function Upto(n: nat): (s: set<nat>)
    ensures forall i: nat :: i in s <==> i < n
  {
    if n == 0 then {} else Upto(n - 1) + {n - 1}
  }

  /** Threads 0..n-1 are attached, each with its own number. */
  function Crowd(n: nat): State { State(Upto(n), Upto(n), map i: nat | i < n :: Running(i)) }

  lemma {:induction false} AllAttach(c: Config, n: nat) returns (steps: seq<Step>)
    requires n <= c.slots
    ensures Reaches(c, steps, Crowd(n))
  {
    if n == 0 {
      steps := [];
      assert Crowd(0) == Init();
    } else {
      hide Reaches;
      steps := AllAttach(c, n - 1);
      steps := Attaches(c, steps, Crowd(n - 1), n - 1, n - 1);
      OneMore(n);
    }
  }

  lemma OneMore(n: nat)
    requires 0 < n
    ensures var s := Crowd(n - 1);
      State(s.taken + {n - 1}, s.refs + {n - 1}, s.threads[n - 1 := Running(n - 1)]) == Crowd(n)
  {
    assert Crowd(n - 1).threads[n - 1 := Running(n - 1)] == Crowd(n).threads;
  }

  /** A thread scans the buffers. */
  lemma Scans(c: Config, steps: seq<Step>, s: State, r: Thread) returns (steps': seq<Step>)
    requires Reaches(c, steps, s) && r !in s.threads && OthersCalm(s, r)
    ensures Reaches(c, steps', s.(threads := s.threads[r := Scanning(None)]))
  {
    hide Reaches;
    Extend(c, steps, s, Scan(r));
    var s1 := s.(threads := s.threads[r := ScanWait(None)]);
    steps' := Takes(c, steps + [Scan(r)], s1, r);
    assert s1.threads[r := Scanning(None)] == s.threads[r := Scanning(None)];
  }

  /** While r scans, t gives its number back; then r asks the registry. */
  lemma DetachesAndAsks(c: Config, steps: seq<Step>, s: State, t: Thread, r: Thread) returns (steps': seq<Step>)
    requires Reaches(c, steps, s) && t in s.threads && s.threads[t].Running? && At(s, r) == Scanning(None)
    requires forall u :: u in s.threads && u != r ==> Calm(s.threads[u])
    ensures var n := s.threads[t].slot;
      Reaches(c, steps', s.(taken := s.taken - {n}, threads := s.threads[t := MoveWait(n)][r := AskWait(None)]))
  {
    hide Reaches;
    var n := s.threads[t].slot;
    Extend(c, steps, s, Detach(t));
    var s1 := s.(threads := s.threads[t := DetachWait(n)]);
    Extend(c, steps + [Detach(t)], s1, Take(t));
    steps' := steps + [Detach(t)] + [Take(t)];
    var s2 := s1.(threads := s1.threads[t := Freeing(n)]);
    Extend(c, steps', s2, Leave(t));
    steps' := steps' + [Leave(t)];
    var s3 := s.(taken := s.taken - {n}, threads := s.threads[t := MoveWait(n)]);
    assert s2.threads[t := MoveWait(n)] == s3.threads;
    Extend(c, steps', s3, Ask(r));
    steps' := steps' + [Ask(r)];
  }

  /** All numbers are in use; one thread scans, thread 0 gives its number back, and the scan asks the registry. */
  lemma ScanAndDetach(c: Config) returns (steps: seq<Step>)
    requires 0 < c.slots
    ensures Reaches(c, steps, State(Upto(c.slots) - {0}, Upto(c.slots),
      Crowd(c.slots).threads[c.slots := AskWait(None)][0 := MoveWait(0)]))
  {
    hide Reaches;
    var n := c.slots;
    var s := Crowd(n);
    steps := AllAttach(c, n);
    steps := Scans(c, steps, s, n);
    var s1 := s.(threads := s.threads[n := Scanning(None)]);
    steps := DetachesAndAsks(c, steps, s1, 0, n);
    assert s1.threads[0 := MoveWait(0)][n := AskWait(None)] == s.threads[n := AskWait(None)][0 := MoveWait(0)];
  }

  /** A new thread attaches then: it, the scan and thread 0 wait for each other. */
  lemma DeadlockRun(c: Config) returns (steps: seq<Step>, s: State)
    requires 0 < c.slots
    ensures Reaches(c, steps, s) && AsksInVain(c, s, c.slots + 1, c.slots)
    ensures Deadlocked(c, s, {0, c.slots, c.slots + 1})
  {
    hide Reaches, Deadlocked, AsksInVain, Owned, Apart, RefsOnce, RefsEnd, Exclusive;
    var n := c.slots;
    steps := ScanAndDetach(c);
    var s0 := State(Upto(n) - {0}, Upto(n), Crowd(n).threads[n := AskWait(None)][0 := MoveWait(0)]);
    Extend(c, steps, s0, Attach(n + 1));
    var s1 := s0.(threads := s0.threads[n + 1 := AttachWait]);
    steps := steps + [Attach(n + 1)];
    Extend(c, steps, s1, Take(n + 1));
    steps := steps + [Take(n + 1)];
    s := s1.(threads := s1.threads[n + 1 := Picking]);
    RunsKeep(c, steps, s);
    Knotted(c, s);
  }

  lemma Knotted(c: Config, s: State)
    requires 0 < c.slots && Exclusive(s) && s.taken == Upto(c.slots) - {0} && s.refs == Upto(c.slots)
    requires s.threads == Crowd(c.slots).threads[c.slots := AskWait(None)][0 := MoveWait(0)][c.slots + 1 := Picking]
    ensures AsksInVain(c, s, c.slots + 1, c.slots) && Deadlocked(c, s, {0, c.slots, c.slots + 1})
  {
    hide Deadlocked;
    var n := c.slots;
    assert IsFree(c, s, 0);
    KnotIsDeadlocked(c, s, n + 1, n);
    assert Knot(s, n + 1, n) == {0, n, n + 1};
  }
}
