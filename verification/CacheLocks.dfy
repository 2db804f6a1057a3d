/**
  The locks of SimpleCache in every interleaving of insert, get and remove
  (include/sisl/cache/simple_hashmap.hpp, include/sisl/cache/simple_cache.hpp, src/cache/lru_evictor.cpp).

  Operations take the lock of one bucket, shared or exclusive, then possibly the mutex of one partition. The
  evictor runs under the partition mutex and reaches other buckets only by try_lock. What a thread holds
  follows from where it stands in its operation.

  A partition holds records of size one up to a maximum. An insert into a full one goes over its records until one can
  be evicted and is refused if none can.

  A refused insert takes its key out again under the bucket lock alone. If the key has been linked anew by
  then, that deletes a linked record without the partition mutex, under the eyes of an evictor that may be
  looking at it, and without taking it off the filled size; the last sections say exactly when.
 */
module CacheLocks {

  type Thread = nat

  /** Which bucket and which partition a key belongs to, and how many records a partition may hold. */
  datatype Geometry = Geometry(bucket: int -> nat, part: int -> nat, max: nat)

  datatype Phase =
    | Idle
    | GetWait(key: int) | GetRead(key: int) | GetWantPart(key: int) | GetInPart(key: int) | GetLeave(key: int)
    | InsWait(key: int) | InsWrite(key: int) | InsWantPart(key: int)
    | InsInPart(key: int, seen: set<int>)              // has gone over some records of the partition
    | InsPick(key: int, victim: int, seen: set<int>)   // looks at one
    | InsEvict(key: int, victim: int, seen: set<int>)  // has erased it and has its bucket by try_lock
    | InsLeave(key: int, refused: bool)
    | DrainWait(key: int) | DrainWrite(key: int)       // takes a refused key out again
    | RemWait(key: int) | RemWrite(key: int) | RemWantPart(key: int) | RemInPart(key: int) | RemErase(key: int)
    | Leave(key: int)                                  // holds the bucket exclusively, about to release it

  /** Keys that have a hash node, keys whose node is linked in its partition, the filled sizes of the partitions, and
      the phases of the threads. Beside them a history: refused threads whose key was linked since the refusal, evictors
      whose record was freed, and how many records left a partition without being taken off its filled size. */
  datatype State = State(nodes: set<int>, linked: set<int>, filled: map<nat, int>, threads: map<Thread, Phase>,
                         stale: set<Thread>, dangling: set<Thread>, leaked: map<nat, int>)

  function At(s: State, t: Thread): Phase { if t in s.threads then s.threads[t] else Idle }

  function Size(sizes: map<nat, int>, p: nat): int { if p in sizes then sizes[p] else 0 }

  function Resize(sizes: map<nat, int>, p: nat, n: int): map<nat, int> { sizes[p := Size(sizes, p) + n] }

  /** The records of a partition. */
  function LinkedIn(g: Geometry, linked: set<int>, p: nat): set<int> { set x | x in linked && g.part(x) == p }

  predicate IsFull(g: Geometry, s: State, p: nat) { Size(s.filled, p) >= g.max }

  // ----- what a thread holds and wants

  predicate HoldsShared(g: Geometry, f: Phase, b: nat) {
    (f.GetRead? || f.GetWantPart? || f.GetInPart? || f.GetLeave?) && g.bucket(f.key) == b
  }

  predicate HoldsExclusive(g: Geometry, f: Phase, b: nat) {
    || ((f.InsWrite? || f.InsWantPart? || f.InsInPart? || f.InsPick? || f.InsEvict? || f.InsLeave? || f.DrainWrite?
         || f.RemWrite? || f.RemWantPart? || f.RemInPart? || f.RemErase? || f.Leave?) && g.bucket(f.key) == b)
    || (f.InsEvict? && g.bucket(f.victim) == b)
  }

  predicate Holds(g: Geometry, f: Phase, b: nat) { HoldsShared(g, f, b) || HoldsExclusive(g, f, b) }

  predicate HoldsPart(g: Geometry, f: Phase, p: nat) {
    (f.GetInPart? || f.InsInPart? || f.InsPick? || f.InsEvict? || f.RemInPart?) && g.part(f.key) == p
  }

  predicate WaitsShared(g: Geometry, f: Phase, b: nat) { f.GetWait? && g.bucket(f.key) == b }

  predicate WaitsExclusive(g: Geometry, f: Phase, b: nat) {
    (f.InsWait? || f.DrainWait? || f.RemWait?) && g.bucket(f.key) == b
  }

  predicate WaitsPart(g: Geometry, f: Phase, p: nat) {
    (f.GetWantPart? || f.InsWantPart? || f.RemWantPart?) && g.part(f.key) == p
  }

  /** u stands in the way of t. A waiting writer holds up new readers. */
  predicate Blocks(g: Geometry, s: State, u: Thread, t: Thread) {
    var f, h := At(s, t), At(s, u);
    u != t && u in s.threads && !f.Idle? &&
    (|| (&& WaitsShared(g, f, g.bucket(f.key))
         && (HoldsExclusive(g, h, g.bucket(f.key)) || WaitsExclusive(g, h, g.bucket(f.key))))
     || (WaitsExclusive(g, f, g.bucket(f.key)) && Holds(g, h, g.bucket(f.key)))
     || (WaitsPart(g, f, g.part(f.key)) && HoldsPart(g, h, g.part(f.key))))
  }

  predicate Blocked(g: Geometry, s: State, t: Thread) { exists u :: u in s.threads && Blocks(g, s, u, t) }

  // ----- steps

  datatype Step =
    | Start(t: Thread, f: Phase)
    | Move(t: Thread, refused: bool)
    | Pick(t: Thread, victim: int)
    | TryEvict(t: Thread)

  /** try_lock on the bucket of a victim succeeds: nobody holds it, the caller included. */
  predicate CanTryLock(g: Geometry, s: State, victim: int) {
    forall u :: u in s.threads ==> !Holds(g, s.threads[u], g.bucket(victim))
  }

  predicate Enabled(g: Geometry, s: State, a: Step) {
    match a
    case Start(t, f) => At(s, t).Idle? && (f.GetWait? || f.InsWait? || f.RemWait?)
    case Move(t, refused) => !At(s, t).Idle? && !Blocked(g, s, t) && Decided(g, s, At(s, t), refused)
    case Pick(t, victim) =>
      var f := At(s, t);
      f.InsInPart? && IsFull(g, s, g.part(f.key)) && victim in LinkedIn(g, s.linked, g.part(f.key)) - f.seen
    case TryEvict(t) => At(s, t).InsPick? && t !in s.dangling    // nothing is known of a freed record
  }

  /** Whether an insert is refused: exactly if its partition is full once it has gone over all records. */
  predicate Decided(g: Geometry, s: State, f: Phase, refused: bool) {
    f.InsInPart? ==>
      && (refused <==> IsFull(g, s, g.part(f.key)))
      && (refused ==> LinkedIn(g, s.linked, g.part(f.key)) <= f.seen)
  }

  /** Where a thread goes next. */
  function Onward(nodes: set<int>, f: Phase, refused: bool): Phase
    requires !f.Idle?
  {
    match f
    case GetWait(k) => GetRead(k)
    case GetRead(k) => if k in nodes then GetWantPart(k) else GetLeave(k)
    case GetWantPart(k) => GetInPart(k)
    case GetInPart(k) => GetLeave(k)
    case GetLeave(_) => Idle
    case InsWait(k) => InsWrite(k)
    case InsWrite(k) => if k in nodes then Leave(k) else InsWantPart(k)
    case InsWantPart(k) => InsInPart(k, {})
    case InsInPart(k, _) => InsLeave(k, refused)
    case InsPick(k, victim, seen) => InsInPart(k, seen + {victim})    // may not be evicted
    case InsEvict(k, _, seen) => InsInPart(k, seen)
    case InsLeave(k, refused) => if refused then DrainWait(k) else Idle
    case DrainWait(k) => DrainWrite(k)
    case DrainWrite(k) => Leave(k)
    case RemWait(k) => RemWrite(k)
    case RemWrite(k) => if k in nodes then RemWantPart(k) else Leave(k)
    case RemWantPart(k) => RemInPart(k)
    case RemInPart(k) => RemErase(k)
    case RemErase(k) => Leave(k)
    case Leave(_) => Idle
  }

  /** The node a step frees. */
  predicate Frees(f: Phase, x: int) {
    (f.RemErase? && f.key == x) || (f.DrainWrite? && f.key == x) || (f.InsEvict? && f.victim == x)
  }

  function NodesAfter(nodes: set<int>, f: Phase): set<int> {
    if f.InsWrite? then nodes + {f.key}
    else if f.InsEvict? then nodes - {f.victim}
    else if f.RemErase? || f.DrainWrite? then nodes - {f.key}
    else nodes
  }

  /** A record is linked when it is admitted and unlinked when it is removed; freeing a linked node unlinks it. */
  function LinkedAfter(linked: set<int>, f: Phase, refused: bool): set<int> {
    if f.InsInPart? && !refused then linked + {f.key}
    else if f.RemInPart? || f.DrainWrite? then linked - {f.key}
    else linked
  }

  /** The filled size goes along, except when a linked node is freed by a drain. */
  function FilledAfter(g: Geometry, s: State, f: Phase, refused: bool): map<nat, int> {
    if f.InsInPart? && !refused then Resize(s.filled, g.part(f.key), 1)
    else if f.RemInPart? && f.key in s.linked then Resize(s.filled, g.part(f.key), -1)
    else s.filled
  }

  function LeakedAfter(g: Geometry, s: State, f: Phase): map<nat, int> {
    if f.DrainWrite? && f.key in s.linked then Resize(s.leaked, g.part(f.key), 1) else s.leaked
  }

  /** The thread's insert was refused and its key has not been taken out yet. */
  predicate Refused(f: Phase, x: int) {
    ((f.InsLeave? && f.refused) || f.DrainWait? || f.DrainWrite?) && f.key == x
  }

  /** The thread has a reference to the record of x, without the lock of its bucket. */
  predicate LooksAt(f: Phase, x: int) { f.InsPick? && f.victim == x }

  function OthersRefused(s: State, t: Thread, x: int): set<Thread> {
    set u | u in s.threads && u != t && Refused(s.threads[u], x)
  }

  function StaleAfter(s: State, t: Thread, refused: bool): set<Thread> {
    var f := At(s, t);
    if f.InsInPart? && refused then s.stale - {t}
    else if f.InsInPart? then s.stale + OthersRefused(s, t, f.key)
    else if f.DrainWrite? then s.stale - {t}
    else s.stale
  }

  function DanglingAfter(s: State, t: Thread): set<Thread> {
    var f := At(s, t);
    (s.dangling - {t}) + (set u | u in s.threads && u != t && s.threads[u].InsPick? && Frees(f, s.threads[u].victim))
  }

  function Next(g: Geometry, s: State, a: Step): State
    requires Enabled(g, s, a)
  {
    match a
    case Start(t, f) => s.(threads := s.threads[t := f])
    case Move(t, refused) =>
      var f := At(s, t);
      State(NodesAfter(s.nodes, f), LinkedAfter(s.linked, f, refused), FilledAfter(g, s, f, refused),
            s.threads[t := Onward(s.nodes, f, refused)], StaleAfter(s, t, refused), DanglingAfter(s, t),
            LeakedAfter(g, s, f))
    case Pick(t, victim) => s.(threads := s.threads[t := InsPick(At(s, t).key, victim, At(s, t).seen)])
    case TryEvict(t) =>
      var f := At(s, t);
      // without the lock the record is put back
      if CanTryLock(g, s, f.victim) then
        s.(threads := s.threads[t := InsEvict(f.key, f.victim, f.seen)], linked := s.linked - {f.victim},
           filled := Resize(s.filled, g.part(f.key), -1))
      else s.(threads := s.threads[t := InsInPart(f.key, f.seen + {f.victim})])
  }

  // ----- no deadlock

  function Rank(f: Phase): nat {
    if f.GetWait? then 0
    else if f.InsWait? || f.DrainWait? || f.RemWait? then 1
    else if f.GetWantPart? || f.InsWantPart? || f.RemWantPart? then 2
    else 3
  }

  /** Whoever is in the way is further on. */
  lemma BlockersAreFurther(g: Geometry, s: State, u: Thread, t: Thread)
    requires Blocks(g, s, u, t)
    ensures Rank(At(s, t)) < Rank(At(s, u)) <= 3 && !At(s, u).Idle?
  {}

  /** Each thread of the path is in the way of the one before it. */
  predicate IsWaitPath(g: Geometry, s: State, path: seq<Thread>) {
    path != [] && forall i :: 0 <= i < |path| - 1 ==> Blocks(g, s, path[i + 1], path[i])
  }

  /** Following who is in the way leads from every operation in progress to one that can move. */
  lemma {:induction false} SomeoneMoves(g: Geometry, s: State, t: Thread) returns (path: seq<Thread>, a: Step)
    requires !At(s, t).Idle?
    ensures IsWaitPath(g, s, path) && path[0] == t
    ensures a.t == path[|path| - 1] && Enabled(g, s, a)
    decreases 3 - Rank(At(s, t))
  {
    if Blocked(g, s, t) {
      var u :| u in s.threads && Blocks(g, s, u, t);
      BlockersAreFurther(g, s, u, t);
      var rest;
      rest, a := SomeoneMoves(g, s, u);
      path := [t] + rest;
    } else {
      path := [t];
      a := StepOf(g, s, t);
    }
  }

  /** A thread that nobody is in the way of has a step. */
  lemma StepOf(g: Geometry, s: State, t: Thread) returns (a: Step)
    requires !At(s, t).Idle? && !Blocked(g, s, t)
    ensures a.t == t && Enabled(g, s, a)
  {
    hide Blocked;
    var f := At(s, t);
    a := Move(t, f.InsInPart? && IsFull(g, s, g.part(f.key)));
    if !Enabled(g, s, a) {
      var victim := NotAmong(LinkedIn(g, s.linked, g.part(f.key)), f.seen);
      a := Pick(t, victim);
    }
  }

  lemma NotAmong(a: set<int>, b: set<int>) returns (x: int)
    requires !(a <= b)
    ensures x in a - b
  {
    var rest := a - b;
    if rest == {} {
      forall y | y in a ensures y in b { assert y !in rest; }
      assert false;
    }
    x := AnyOf(rest);
  }

  lemma {:induction false} FurthestOn(s: State, w: set<Thread>) returns (t: Thread)
    requires w != {}
    ensures t in w && forall u :: u in w ==> Rank(At(s, u)) <= Rank(At(s, t))
    decreases |w|
  {
    t := AnyOf(w);
    var rest := w - {t};
    assert forall u :: u in w ==> u == t || u in rest;
    if rest != {} {
      var u := FurthestOn(s, rest);
      if Rank(At(s, t)) < Rank(At(s, u)) { t := u; }
    }
  }

  lemma AnyOf<T>(w: set<T>) returns (t: T)
    requires w != {}
    ensures t in w
  {
    t :| t in w;
  }

  /** No set of threads waits for each other: in every set some thread has nobody of the set in its way. */
  lemma NoDeadlock(g: Geometry, s: State, w: set<Thread>) returns (t: Thread)
    requires w != {}
    ensures t in w && forall u :: u in w ==> !Blocks(g, s, u, t)
  {
    t := FurthestOn(s, w);
    forall u | u in w ensures !Blocks(g, s, u, t) {
      if Blocks(g, s, u, t) { BlockersAreFurther(g, s, u, t); }
    }
  }

  // ----- locks exclude each other, nodes in use stay

  ghost predicate Excludes(g: Geometry, f: Phase, h: Phase) {
    && (forall b :: HoldsExclusive(g, f, b) ==> !Holds(g, h, b))
    && (forall p :: HoldsPart(g, f, p) ==> !HoldsPart(g, h, p))
  }

  ghost predicate Exclusive(g: Geometry, s: State) {
    forall t, u :: t in s.threads && u in s.threads && t != u ==> Excludes(g, s.threads[t], s.threads[u])
  }

  /** The thread has a pointer to the node of its key. */
  predicate Uses(f: Phase) {
    f.GetWantPart? || f.GetInPart? || f.InsWantPart? || f.InsInPart? || f.InsPick? || f.InsEvict? || f.RemWantPart?
      || f.RemInPart? || f.RemErase?
  }

  /** Nodes in use exist; an evictor's two buckets differ. */
  predicate Sound(g: Geometry, s: State) {
    forall t :: t in s.threads ==>
      && (Uses(s.threads[t]) ==> s.threads[t].key in s.nodes)
      && (s.threads[t].InsEvict? ==> g.bucket(s.threads[t].victim) != g.bucket(s.threads[t].key))
  }

  ghost predicate Inv(g: Geometry, s: State) { Exclusive(g, s) && Sound(g, s) && LinksSound(g, s) && Counted(g, s) }

  /** The filled size of a partition is the number of its records and of those that leaked. */
  ghost predicate Counted(g: Geometry, s: State) {
    forall p :: Size(s.filled, p) == |LinkedIn(g, s.linked, p)| + Size(s.leaked, p)
  }

  /** What the phase of a thread says about linked records. */
  predicate LinkSound(g: Geometry, s: State, t: Thread, f: Phase) {
    && (f.InsWantPart? || f.InsInPart? || f.InsPick? || f.InsEvict? || f.RemErase? ==> f.key !in s.linked)
    && (f.InsEvict? ==> f.victim !in s.linked)
    && (f.InsPick? || f.InsEvict? ==> g.part(f.victim) == g.part(f.key))
    && (!f.Idle? && Refused(f, f.key) && t !in s.stale ==> f.key !in s.linked)
    && (f.InsPick? ==> f.victim in s.linked || t in s.dangling)
  }

  predicate LinksSound(g: Geometry, s: State) {
    s.linked <= s.nodes && forall t :: t in s.threads ==> LinkSound(g, s, t, s.threads[t])
  }

  lemma MoveExcludes(g: Geometry, s: State, t: Thread, refused: bool, u: Thread)
    requires Exclusive(g, s) && t in s.threads && u in s.threads && u != t && !s.threads[t].Idle? && !Blocked(g, s, t)
    ensures Excludes(g, Onward(s.nodes, s.threads[t], refused), s.threads[u])
    ensures Excludes(g, s.threads[u], Onward(s.nodes, s.threads[t], refused))
  {
    assert !Blocks(g, s, u, t);
    assert Excludes(g, s.threads[t], s.threads[u]) && Excludes(g, s.threads[u], s.threads[t]);
  }

  lemma StepExclusive(g: Geometry, s: State, a: Step)
    requires Exclusive(g, s) && Enabled(g, s, a)
    ensures Exclusive(g, Next(g, s, a))
  {
    var s' := Next(g, s, a);
    forall t, u | t in s'.threads && u in s'.threads && t != u ensures Excludes(g, s'.threads[t], s'.threads[u]) {
      if t != a.t && u != a.t {
        assert Excludes(g, s.threads[t], s.threads[u]);
      } else if a.Move? {
        MoveExcludes(g, s, a.t, a.refused, if t == a.t then u else t);
      } else {
        OtherExcludes(g, s, a, if t == a.t then u else t);
      }
      hide Excludes;
    }
  }

  lemma OtherExcludes(g: Geometry, s: State, a: Step, u: Thread)
    requires Exclusive(g, s) && Enabled(g, s, a) && !a.Move? && u in s.threads && u != a.t
    ensures Excludes(g, Next(g, s, a).threads[a.t], s.threads[u])
    ensures Excludes(g, s.threads[u], Next(g, s, a).threads[a.t])
  {
    if !a.Start? {
      assert Excludes(g, s.threads[a.t], s.threads[u]) && Excludes(g, s.threads[u], s.threads[a.t]);
    }
  }

  /** A step that frees a node has the node's bucket to itself. */
  lemma FreeingIsAlone(g: Geometry, s: State, t: Thread, x: int, u: Thread)
    requires Exclusive(g, s) && t in s.threads && Frees(s.threads[t], x) && u in s.threads && u != t
    ensures HoldsExclusive(g, s.threads[t], g.bucket(x)) && !Holds(g, s.threads[u], g.bucket(x))
  {
    assert Excludes(g, s.threads[t], s.threads[u]);
  }

  lemma MoveSound(g: Geometry, s: State, t: Thread, refused: bool)
    requires Inv(g, s) && Enabled(g, s, Move(t, refused))
    ensures Sound(g, Next(g, s, Move(t, refused)))
  {
    var s' := Next(g, s, Move(t, refused));
    var f := s.threads[t];
    forall u | u in s'.threads
      ensures Uses(s'.threads[u]) ==> s'.threads[u].key in s'.nodes
      ensures s'.threads[u].InsEvict? ==> g.bucket(s'.threads[u].victim) != g.bucket(s'.threads[u].key)
    {
      if u != t && Uses(s.threads[u]) {
        assert Holds(g, s.threads[u], g.bucket(s.threads[u].key));
        if Frees(f, s.threads[u].key) { FreeingIsAlone(g, s, t, s.threads[u].key, u); }
      }
    }
  }

  /** A thread that links, unlinks or frees x under a lock excludes those that rely on x. */
  lemma MoveLinks(g: Geometry, s: State, t: Thread, refused: bool)
    requires Inv(g, s) && Enabled(g, s, Move(t, refused))
    ensures LinksSound(g, Next(g, s, Move(t, refused)))
  {
    var s' := Next(g, s, Move(t, refused));
    var f := s.threads[t];
    forall u | u in s'.threads ensures LinkSound(g, s', u, s'.threads[u]) {
      assert LinkSound(g, s, t, f);
      if u != t {
        OthersKeep(g, s, t, refused, u);
      } else {
        SelfKeeps(g, s, t, refused);
      }
    }
  }

  lemma OthersKeep(g: Geometry, s: State, t: Thread, refused: bool, u: Thread)
    requires Inv(g, s) && Enabled(g, s, Move(t, refused)) && u in s.threads && u != t
    ensures LinkSound(g, Next(g, s, Move(t, refused)), u, s.threads[u])
  {
    var f, h := s.threads[t], s.threads[u];
    assert LinkSound(g, s, u, h) && LinkSound(g, s, t, f);
    assert Excludes(g, f, h) && Excludes(g, h, f);
    if f.InsInPart? {
      assert HoldsExclusive(g, f, g.bucket(f.key));
      assert !Holds(g, h, g.bucket(f.key));
    } else if f.RemInPart? {
      assert HoldsPart(g, f, g.part(f.key));
      assert !HoldsPart(g, h, g.part(f.key));
    }
  }

  lemma SelfKeeps(g: Geometry, s: State, t: Thread, refused: bool)
    requires Inv(g, s) && Enabled(g, s, Move(t, refused))
    ensures LinkSound(g, Next(g, s, Move(t, refused)), t, Onward(s.nodes, s.threads[t], refused))
  {
    assert LinkSound(g, s, t, s.threads[t]);
  }

  lemma PickLinks(g: Geometry, s: State, a: Step)
    requires Inv(g, s) && Enabled(g, s, a) && !a.Move?
    ensures LinksSound(g, Next(g, s, a))
  {
    var s' := Next(g, s, a);
    forall u | u in s'.threads ensures LinkSound(g, s', u, s'.threads[u]) {
      if u in s.threads { assert LinkSound(g, s, u, s.threads[u]); }
      if a.t in s.threads && u in s.threads && u != a.t {
        assert Excludes(g, s.threads[a.t], s.threads[u]);
        if a.TryEvict? {
          assert HoldsPart(g, s.threads[a.t], g.part(s.threads[a.t].key));
          assert !HoldsPart(g, s.threads[u], g.part(s.threads[a.t].key));
        }
      }
    }
  }

  lemma LinkOne(g: Geometry, linked: set<int>, x: int, p: nat)
    requires x !in linked
    ensures |LinkedIn(g, linked + {x}, p)| == |LinkedIn(g, linked, p)| + One(g.part(x) == p)
  {
    var now := LinkedIn(g, linked + {x}, p);
    if g.part(x) == p {
      assert now == LinkedIn(g, linked, p) + {x};
    } else {
      assert now == LinkedIn(g, linked, p);
    }
  }

  lemma UnlinkOne(g: Geometry, linked: set<int>, x: int, p: nat)
    requires x in linked
    ensures |LinkedIn(g, linked - {x}, p)| == |LinkedIn(g, linked, p)| - One(g.part(x) == p)
  {
    LinkOne(g, linked - {x}, x, p);
    assert linked - {x} + {x} == linked;
  }

  function One(b: bool): int { if b then 1 else 0 }

  lemma StepCounted(g: Geometry, s: State, a: Step)
    requires Counted(g, s) && LinksSound(g, s) && Enabled(g, s, a)
    ensures Counted(g, Next(g, s, a))
  {
    var s' := Next(g, s, a);
    var f := At(s, a.t);
    forall p ensures Size(s'.filled, p) == |LinkedIn(g, s'.linked, p)| + Size(s'.leaked, p) {
      assert Size(s.filled, p) == |LinkedIn(g, s.linked, p)| + Size(s.leaked, p);
      assert a.t in s.threads ==> LinkSound(g, s, a.t, f);
      hide Enabled, LinkedIn, LinksSound, Blocked;
      if a.Move? && f.InsInPart? {
        LinkOne(g, s.linked, f.key, p);
      } else if a.Move? && (f.RemInPart? || f.DrainWrite?) {
        if f.key in s.linked { UnlinkOne(g, s.linked, f.key, p); } else { assert s.linked - {f.key} == s.linked; }
      } else if a.TryEvict? {
        UnlinkOne(g, s.linked, f.victim, p);
      }
    }
  }

  lemma InvStep(g: Geometry, s: State, a: Step)
    requires Inv(g, s) && Enabled(g, s, a)
    ensures Inv(g, Next(g, s, a))
  {
    StepExclusive(g, s, a);
    StepCounted(g, s, a);
    if a.Move? {
      MoveSound(g, s, a.t, a.refused);
      MoveLinks(g, s, a.t, a.refused);
    } else {
      PickLinks(g, s, a);
    }
  }

  // ----- every run

  function Init(): State { State({}, {}, map[], map[], {}, {}, map[]) }

  ghost predicate Reaches(g: Geometry, steps: seq<Step>, s: State)
    decreases |steps|
  {
    if steps == [] then s == Init()
    else
      var a, rest := steps[|steps| - 1], steps[..|steps| - 1];
      exists p :: Reaches(g, rest, p) && Enabled(g, p, a) && s == Next(g, p, a)
  }

  lemma {:induction false} RunsKeep(g: Geometry, steps: seq<Step>, s: State)
    requires Reaches(g, steps, s)
    ensures Inv(g, s)
    decreases |steps|
  {
    if steps != [] {
      var a, rest := steps[|steps| - 1], steps[..|steps| - 1];
      var p :| Reaches(g, rest, p) && Enabled(g, p, a) && s == Next(g, p, a);
      hide Inv, Enabled, Next;
      RunsKeep(g, rest, p);
      InvStep(g, p, a);
    }
  }

  /** In every run, a node is freed only while no other thread holds its bucket lock or a pointer to it, and a node
      somebody uses exists. */
  lemma FreesAreSafe(g: Geometry, steps: seq<Step>, s: State, t: Thread, x: int, u: Thread)
    requires Reaches(g, steps, s) && t in s.threads && Frees(s.threads[t], x) && u in s.threads && u != t
    ensures !Holds(g, s.threads[u], g.bucket(x))
    ensures !(Uses(s.threads[u]) && s.threads[u].key == x)
  {
    RunsKeep(g, steps, s);
    FreeingIsAlone(g, s, t, x, u);
    hide Reaches, Inv;
    assert Uses(s.threads[u]) ==> Holds(g, s.threads[u], g.bucket(s.threads[u].key));
  }

  lemma UsedNodesExist(g: Geometry, steps: seq<Step>, s: State, t: Thread)
    requires Reaches(g, steps, s) && t in s.threads && Uses(s.threads[t])
    ensures s.threads[t].key in s.nodes
  {
    RunsKeep(g, steps, s);
  }

  // ----- map and partitions agree

  /** An operation on x that will link its record or free its node. */
  predicate InProgress(f: Phase, x: int) {
    || ((f.InsWantPart? || f.InsInPart? || f.InsPick? || f.InsEvict? || f.RemErase?) && f.key == x)
    || (f.InsEvict? && f.victim == x) || Refused(f, x)
  }

  ghost predicate Accounted(s: State) {
    forall x :: x in s.nodes && x !in s.linked ==> exists t :: t in s.threads && InProgress(s.threads[t], x)
  }

  lemma StepAccounted(g: Geometry, s: State, a: Step)
    requires Accounted(s) && Enabled(g, s, a)
    ensures Accounted(Next(g, s, a))
  {
    hide Blocked, LinkedIn, IsFull, CanTryLock;
    var s' := Next(g, s, a);
    forall x | x in s'.nodes && x !in s'.linked ensures exists t :: t in s'.threads && InProgress(s'.threads[t], x) {
      if x in s.nodes && x !in s.linked {
        var t :| t in s.threads && InProgress(s.threads[t], x);
        StaysInProgress(g, s, a, t, x);
        assert t in s'.threads;
      } else {
        assert a.t in s'.threads && InProgress(s'.threads[a.t], x);
      }
    }
  }

  lemma StaysInProgress(g: Geometry, s: State, a: Step, t: Thread, x: int)
    requires Enabled(g, s, a) && t in s.threads && InProgress(s.threads[t], x)
    ensures var s' := Next(g, s, a); InProgress(s'.threads[t], x) || x !in s'.nodes || x in s'.linked
  {
    hide Blocked, LinkedIn, IsFull, CanTryLock;
  }

  lemma {:induction false} RunsAccount(g: Geometry, steps: seq<Step>, s: State)
    requires Reaches(g, steps, s)
    ensures Accounted(s)
    decreases |steps|
  {
    if steps != [] {
      var a, rest := steps[|steps| - 1], steps[..|steps| - 1];
      var p :| Reaches(g, rest, p) && Enabled(g, p, a) && s == Next(g, p, a);
      hide Accounted, Enabled, Next;
      RunsAccount(g, rest, p);
      StepAccounted(g, p, a);
    }
  }

  /** In every run, a key without an operation in progress is in the map exactly if its record is linked; so they agree
      on all keys whenever no operation is going on. */
  lemma StructuresAgree(g: Geometry, steps: seq<Step>, s: State, x: int)
    requires Reaches(g, steps, s) && forall t :: t in s.threads ==> !InProgress(s.threads[t], x)
    ensures x in s.nodes <==> x in s.linked
  {
    hide Reaches, InProgress;
    RunsKeep(g, steps, s);
    RunsAccount(g, steps, s);
  }

  /** An eviction pass looks at a record once: what it has looked at is seen or gone, and then it decides. */
  lemma PassLooksOnce(g: Geometry, s: State, a: Step)
    requires Enabled(g, s, a) && At(s, a.t).InsPick?
    ensures var f, s' := At(s, a.t), Next(g, s, a); var f' := At(s', a.t);
      && f'.key == f.key && f.seen <= f'.seen
      && ((f'.InsInPart? && f.victim in f'.seen) || (f'.InsEvict? && f'.victim == f.victim && f.victim !in s'.linked))
  {
    hide Blocked, LinkedIn;
  }

  // ----- the record an evictor looks at

  /** A refused thread becomes stale exactly when another one links its key. */
  lemma StaleIff(g: Geometry, s: State, a: Step, t: Thread)
    requires Enabled(g, s, a) && t in s.threads && t !in s.stale
    ensures t in Next(g, s, a).stale <==>
      && a == Move(a.t, false) && a.t != t && At(s, a.t).InsInPart? && Refused(s.threads[t], At(s, a.t).key)
  {
    hide Blocked, LinkedIn;
  }

  /** In every run: a step of another thread frees the record an evictor looks at if and only if it takes a refused key
      out that has been linked since the refusal. */
  lemma DanglesIff(g: Geometry, steps: seq<Step>, s: State, u: Thread, x: int, t: Thread, refused: bool)
    requires Reaches(g, steps, s) && u in s.threads && LooksAt(s.threads[u], x) && u !in s.dangling
    requires u != t && Enabled(g, s, Move(t, refused))
    ensures u in Next(g, s, Move(t, refused)).dangling <==> s.threads[t] == DrainWrite(x) && t in s.stale
  {
    RunsKeep(g, steps, s);
    assert LinkSound(g, s, u, s.threads[u]) && LinkSound(g, s, t, s.threads[t]);
  }

  lemma NothingLeaks(g: Geometry, steps: seq<Step>, s: State, a: Step)
    requires Reaches(g, steps, s) && Enabled(g, s, a) && s.stale == {}
    ensures Next(g, s, a).leaked == s.leaked
  {
    hide Reaches, Blocked;
    RunsKeep(g, steps, s);
    assert a.t in s.threads ==> LinkSound(g, s, a.t, s.threads[a.t]);
  }

  /** The run reaches s without any key being linked between its refusal and its drain. */
  ghost predicate ReachesClean(g: Geometry, steps: seq<Step>, s: State)
    decreases |steps|
  {
    s.stale == {} &&
    if steps == [] then s == Init()
    else
      var a, rest := steps[|steps| - 1], steps[..|steps| - 1];
      exists p :: ReachesClean(g, rest, p) && Enabled(g, p, a) && s == Next(g, p, a)
  }

  /** Without that, what evictors look at is never freed under them, and nothing leaks. */
  lemma {:induction false} CleanRunsAreSafe(g: Geometry, steps: seq<Step>, s: State)
    requires ReachesClean(g, steps, s)
    ensures Reaches(g, steps, s) && s.dangling == {} && s.leaked == map[]
    decreases |steps|
  {
    if steps != [] {
      var a, rest := steps[|steps| - 1], steps[..|steps| - 1];
      var p :| ReachesClean(g, rest, p) && Enabled(g, p, a) && s == Next(g, p, a);
      CleanRunsAreSafe(g, rest, p);
      NothingLeaks(g, rest, p, a);
      if a.Move? {
        forall u | u in s.dangling ensures false {
          DanglesIff(g, rest, p, u, p.threads[u].victim, a.t, a.refused);
        }
      }
    }
  }

  // ----- the filled size

  /** In every run the filled size of a partition is that of its records if and only if nothing of it leaked. A step
      lets something leak if and only if it takes out a refused key that has been linked since and still is. */
  lemma FilledIff(g: Geometry, steps: seq<Step>, s: State, p: nat)
    requires Reaches(g, steps, s)
    ensures Size(s.filled, p) == |LinkedIn(g, s.linked, p)| <==> Size(s.leaked, p) == 0
    ensures forall a :: Enabled(g, s, a) ==>
      (Size(Next(g, s, a).leaked, p) != Size(s.leaked, p) <==>
         && a.Move? && At(s, a.t).DrainWrite? && g.part(At(s, a.t).key) == p && At(s, a.t).key in s.linked
         && a.t in s.stale)
  {
    hide Reaches;
    RunsKeep(g, steps, s);
    forall a | Enabled(g, s, a)
      ensures (Size(Next(g, s, a).leaked, p) != Size(s.leaked, p) <==>
         && a.Move? && At(s, a.t).DrainWrite? && g.part(At(s, a.t).key) == p && At(s, a.t).key in s.linked
         && a.t in s.stale)
    {
      if a.t in s.threads { assert LinkSound(g, s, a.t, s.threads[a.t]); }
      hide Inv, Enabled;
    }
  }

  /** What leaked never comes back. */
  lemma LeaksStay(g: Geometry, s: State, a: Step, p: nat)
    requires Enabled(g, s, a)
    ensures Size(s.leaked, p) <= Size(Next(g, s, a).leaked, p)
  {
    hide Blocked;
  }

  /** The run goes on from s to s'. */
  ghost predicate Continues(g: Geometry, s: State, steps: seq<Step>, s': State)
    decreases |steps|
  {
    if steps == [] then s' == s
    else
      var a, rest := steps[|steps| - 1], steps[..|steps| - 1];
      exists p :: Continues(g, s, rest, p) && Enabled(g, p, a) && s' == Next(g, p, a)
  }

  /** Every insert that gets into the partition is refused. */
  ghost predicate AdmitsNothing(g: Geometry, s: State, p: nat) {
    forall t, refused :: Enabled(g, s, Move(t, refused)) && At(s, t).InsInPart? && g.part(At(s, t).key) == p ==> refused
  }

  /** A partition for which as much leaked as it may hold admits nothing. */
  lemma FullNow(g: Geometry, steps: seq<Step>, s: State, p: nat)
    requires Reaches(g, steps, s) && Size(s.leaked, p) >= g.max
    ensures IsFull(g, s, p)
    ensures AdmitsNothing(g, s, p)
  {
    hide Reaches, Blocked, Exclusive, Sound, LinksSound;
    RunsKeep(g, steps, s);
  }

  /** It is full for good: in no continuation is a key of it admitted. */
  lemma {:induction false} FullForGood(g: Geometry, steps: seq<Step>, s: State, p: nat, more: seq<Step>, s': State)
    requires Reaches(g, steps, s) && Size(s.leaked, p) >= g.max && Continues(g, s, more, s')
    ensures Reaches(g, steps + more, s') && Size(s'.leaked, p) >= g.max && IsFull(g, s', p)
    ensures AdmitsNothing(g, s', p)
    decreases |more|
  {
    hide Reaches, Enabled, Next, IsFull, AdmitsNothing;
    if more == [] {
      assert steps + more == steps;
    } else {
      var a, rest := more[|more| - 1], more[..|more| - 1];
      var q :| Continues(g, s, rest, q) && Enabled(g, q, a) && s' == Next(g, q, a);
      FullForGood(g, steps, s, p, rest, q);
      LeaksStay(g, q, a, p);
      Extend(g, steps + rest, q, a);
      assert steps + rest + [a] == steps + more;
    }
    FullNow(g, steps + more, s', p);
  }

  // ----- a run in which that happens, for any two keys of a partition in different buckets

  lemma Extend(g: Geometry, steps: seq<Step>, s: State, a: Step)
    requires Reaches(g, steps, s) && Enabled(g, s, a)
    ensures Reaches(g, steps + [a], Next(g, s, a))
  {
    var longer := steps + [a];
    assert longer[..|longer| - 1] == steps && longer[|longer| - 1] == a;
  }

  /** The thread has no lock. */
  predicate Calm(f: Phase) { f.Idle? || f.DrainWait? }

  predicate OthersCalm(s: State, t: Thread) { forall u :: u in s.threads && u != t ==> Calm(s.threads[u]) }

  /** Among calm threads a thread moves on. */
  lemma MoveOn(g: Geometry, steps: seq<Step>, s: State, t: Thread, refused: bool)
    requires Reaches(g, steps, s) && t in s.threads && !s.threads[t].Idle? && !s.threads[t].GetWait? && OthersCalm(s, t)
    requires Decided(g, s, s.threads[t], refused)
    ensures Enabled(g, s, Move(t, refused)) && Reaches(g, steps + [Move(t, refused)], Next(g, s, Move(t, refused)))
  {
    assert !Blocked(g, s, t);
    Extend(g, steps, s, Move(t, refused));
  }

  /** A move that links and unlinks nothing while nobody looks at a record. */
  lemma PlainMove(g: Geometry, steps: seq<Step>, s: State, t: Thread) returns (steps': seq<Step>)
    requires Reaches(g, steps, s) && t in s.threads && !s.threads[t].Idle? && !s.threads[t].GetWait?
    requires OthersCalm(s, t) && s.dangling == {} && !s.threads[t].InsInPart? && !s.threads[t].DrainWrite?
    requires s.threads[t].RemInPart? ==> s.threads[t].key !in s.linked
    ensures Reaches(g, steps', s.(nodes := NodesAfter(s.nodes, s.threads[t]),
                                  threads := s.threads[t := Onward(s.nodes, s.threads[t], false)]))
  {
    hide Reaches, Blocked;
    MoveOn(g, steps, s, t, false);
    assert DanglingAfter(s, t) == {} && LinkedAfter(s.linked, s.threads[t], false) == s.linked;
    steps' := steps + [Move(t, false)];
  }

  /** t starts inserting a key that has no node and gets as far as its partition. */
  lemma InsertsUpto(g: Geometry, steps: seq<Step>, s: State, t: Thread, k: int) returns (steps': seq<Step>)
    requires Reaches(g, steps, s) && At(s, t).Idle? && OthersCalm(s, t) && k !in s.nodes && s.dangling == {}
    ensures Reaches(g, steps', s.(nodes := s.nodes + {k}, threads := s.threads[t := InsInPart(k, {})]))
  {
    hide Reaches, Blocked;
    var s1 := s.(threads := s.threads[t := InsWait(k)]);
    Extend(g, steps, s, Start(t, InsWait(k)));
    steps' := steps + [Start(t, InsWait(k))];
    steps' := PlainMove(g, steps', s1, t);
    var s2 := s1.(threads := s1.threads[t := InsWrite(k)]);
    steps' := PlainMove(g, steps', s2, t);
    var s3 := s2.(nodes := s.nodes + {k}, threads := s2.threads[t := InsWantPart(k)]);
    steps' := PlainMove(g, steps', s3, t);
    assert s3.threads[t := InsInPart(k, {})] == s.threads[t := InsInPart(k, {})];
  }

  /** An insert that may not evict the only record of a full partition is refused; it has yet to take its key out. */
  lemma InsertsRefused(g: Geometry, steps: seq<Step>, s: State, t: Thread, k: int, only: int)
    returns (steps': seq<Step>)
    requires Reaches(g, steps, s) && At(s, t).Idle? && OthersCalm(s, t) && k !in s.nodes
    requires s.dangling == {} && t !in s.stale
    requires IsFull(g, s, g.part(k)) && LinkedIn(g, s.linked, g.part(k)) == {only}
    ensures Reaches(g, steps', s.(nodes := s.nodes + {k}, threads := s.threads[t := DrainWait(k)]))
  {
    hide Reaches, Blocked, LinkedIn;
    steps' := InsertsUpto(g, steps, s, t, k);
    var s1 := s.(nodes := s.nodes + {k}, threads := s.threads[t := InsInPart(k, {})]);
    Extend(g, steps', s1, Pick(t, only));
    steps' := steps' + [Pick(t, only)];
    var s2 := s1.(threads := s1.threads[t := InsPick(k, only, {})]);
    steps' := PlainMove(g, steps', s2, t);
    var s3 := s2.(threads := s2.threads[t := InsInPart(k, {only})]);
    assert {} + {only} == {only};
    steps' := IsRefused(g, steps', s3, t, k);
    assert s3.threads[t := DrainWait(k)] == s.threads[t := DrainWait(k)];
  }

  lemma IsRefused(g: Geometry, steps: seq<Step>, s: State, t: Thread, k: int) returns (steps': seq<Step>)
    requires Reaches(g, steps, s) && At(s, t).InsInPart? && At(s, t).key == k && OthersCalm(s, t)
    requires s.dangling == {} && t !in s.stale && Decided(g, s, At(s, t), true)
    ensures Reaches(g, steps', s.(threads := s.threads[t := DrainWait(k)]))
  {
    hide Reaches, Blocked, Decided;
    MoveOn(g, steps, s, t, true);
    assert DanglingAfter(s, t) == {} && StaleAfter(s, t, true) == s.stale;
    steps' := steps + [Move(t, true)];
    var s1 := s.(threads := s.threads[t := InsLeave(k, true)]);
    steps' := PlainMove(g, steps', s1, t);
    assert s1.threads[t := DrainWait(k)] == s.threads[t := DrainWait(k)];
  }

  /** An insert that links its record makes refused ones of the same key stale. */
  lemma Links(g: Geometry, steps: seq<Step>, s: State, t: Thread, k: int) returns (steps': seq<Step>)
    requires Reaches(g, steps, s) && At(s, t) == InsInPart(k, {}) && OthersCalm(s, t) && s.dangling == {}
    requires !IsFull(g, s, g.part(k))
    ensures Reaches(g, steps', s.(linked := s.linked + {k}, filled := Resize(s.filled, g.part(k), 1),
                                  threads := s.threads[t := Idle], stale := s.stale + OthersRefused(s, t, k)))
  {
    hide Reaches, Blocked, LinkedIn;
    MoveOn(g, steps, s, t, false);
    assert DanglingAfter(s, t) == {};
    steps' := steps + [Move(t, false)];
    var s1 := s.(linked := s.linked + {k}, filled := Resize(s.filled, g.part(k), 1),
                 threads := s.threads[t := InsLeave(k, false)], stale := s.stale + OthersRefused(s, t, k));
    steps' := PlainMove(g, steps', s1, t);
    assert s1.threads[t := Idle] == s.threads[t := Idle];
  }

  /** An insert into a full partition evicts a record, whose bucket nobody holds. */
  lemma Evicts(g: Geometry, steps: seq<Step>, s: State, t: Thread, k: int, x: int) returns (steps': seq<Step>)
    requires Reaches(g, steps, s) && At(s, t) == InsInPart(k, {}) && OthersCalm(s, t) && s.dangling == {}
    requires IsFull(g, s, g.part(k)) && x in LinkedIn(g, s.linked, g.part(k)) && g.bucket(x) != g.bucket(k)
    ensures Reaches(g, steps', s.(nodes := s.nodes - {x}, linked := s.linked - {x},
                                  filled := Resize(s.filled, g.part(k), -1)))
  {
    hide Reaches, Blocked, LinkedIn;
    Extend(g, steps, s, Pick(t, x));
    steps' := steps + [Pick(t, x)];
    var s1 := s.(threads := s.threads[t := InsPick(k, x, {})]);
    assert CanTryLock(g, s1, x);
    Extend(g, steps', s1, TryEvict(t));
    steps' := steps' + [TryEvict(t)];
    var s2 := s1.(threads := s1.threads[t := InsEvict(k, x, {})], linked := s.linked - {x},
                  filled := Resize(s.filled, g.part(k), -1));
    steps' := PlainMove(g, steps', s2, t);
    assert s2.threads[t := InsInPart(k, {})] == s.threads;
  }

  /** Removing a key whose record is not linked. */
  lemma Removes(g: Geometry, steps: seq<Step>, s: State, t: Thread, k: int) returns (steps': seq<Step>)
    requires Reaches(g, steps, s) && At(s, t).Idle? && OthersCalm(s, t) && k in s.nodes && k !in s.linked
    requires s.dangling == {}
    ensures Reaches(g, steps', s.(nodes := s.nodes - {k}, threads := s.threads[t := Idle]))
  {
    hide Reaches, Blocked;
    Extend(g, steps, s, Start(t, RemWait(k)));
    steps' := steps + [Start(t, RemWait(k))];
    var phases := [RemWait(k), RemWrite(k), RemWantPart(k), RemInPart(k), RemErase(k), Leave(k), Idle];
    var c, i := s.(threads := s.threads[t := RemWait(k)]), 0;
    while i < 6
      invariant 0 <= i <= 6 && Reaches(g, steps', c)
      invariant c == s.(nodes := if i < 5 then s.nodes else s.nodes - {k}, threads := s.threads[t := phases[i]])
    {
      steps' := PlainMove(g, steps', c, t);
      assert c.threads[t := phases[i + 1]] == s.threads[t := phases[i + 1]];
      c := s.(nodes := if i < 4 then s.nodes else s.nodes - {k}, threads := s.threads[t := phases[i + 1]]);
      i := i + 1;
    }
  }

  /** Removing a key whose record is linked takes both away. */
  lemma RemovesLinked(g: Geometry, steps: seq<Step>, s: State, t: Thread, k: int) returns (steps': seq<Step>)
    requires Reaches(g, steps, s) && At(s, t).Idle? && OthersCalm(s, t) && k in s.nodes && k in s.linked
    requires s.dangling == {}
    ensures Reaches(g, steps', s.(nodes := s.nodes - {k}, linked := s.linked - {k},
                                  filled := Resize(s.filled, g.part(k), -1), threads := s.threads[t := Idle]))
  {
    hide Reaches, Blocked;
    Extend(g, steps, s, Start(t, RemWait(k)));
    var s1 := s.(threads := s.threads[t := RemWait(k)]);
    steps' := PlainMove(g, steps + [Start(t, RemWait(k))], s1, t);
    var s2 := s.(threads := s.threads[t := RemWrite(k)]);
    assert s1.threads[t := RemWrite(k)] == s2.threads;
    steps' := PlainMove(g, steps', s2, t);
    var s3 := s.(threads := s.threads[t := RemWantPart(k)]);
    assert s2.threads[t := RemWantPart(k)] == s3.threads;
    steps' := PlainMove(g, steps', s3, t);
    var s4 := s.(threads := s.threads[t := RemInPart(k)]);
    assert s3.threads[t := RemInPart(k)] == s4.threads;
    steps' := Unlinks(g, steps', s4, t, k);
    assert s4.threads[t := Idle] == s.threads[t := Idle];
  }

  lemma Unlinks(g: Geometry, steps: seq<Step>, s: State, t: Thread, k: int) returns (steps': seq<Step>)
    requires Reaches(g, steps, s) && At(s, t) == RemInPart(k) && OthersCalm(s, t) && k in s.linked && s.dangling == {}
    ensures Reaches(g, steps', s.(nodes := s.nodes - {k}, linked := s.linked - {k},
                                  filled := Resize(s.filled, g.part(k), -1), threads := s.threads[t := Idle]))
  {
    hide Reaches, Blocked;
    MoveOn(g, steps, s, t, false);
    assert DanglingAfter(s, t) == {};
    var s1 := s.(linked := s.linked - {k}, filled := Resize(s.filled, g.part(k), -1),
                 threads := s.threads[t := RemErase(k)]);
    steps' := PlainMove(g, steps + [Move(t, false)], s1, t);
    var s2 := s1.(nodes := s.nodes - {k}, threads := s.threads[t := Leave(k)]);
    assert s1.threads[t := Leave(k)] == s2.threads;
    steps' := PlainMove(g, steps', s2, t);
    assert s2.threads[t := Idle] == s.threads[t := Idle];
  }

  /** A lookup goes through the partition exactly if the key is there, and leaves everything as it was. */
  lemma Gets(g: Geometry, s: State, t: Thread, k: int, i: nat)
    requires (forall u :: u in s.threads ==> s.threads[u].Idle?) && s.dangling == {}
    requires i < |GetPath(k, k in s.nodes)| - 1
    ensures var path := GetPath(k, k in s.nodes);
      && Enabled(g, s, Start(t, path[0])) && Next(g, s, Start(t, path[0])) == s.(threads := s.threads[t := path[0]])
      && var c := s.(threads := s.threads[t := path[i]]);
         && Enabled(g, c, Move(t, false))
         && Next(g, c, Move(t, false)) == s.(threads := s.threads[t := path[i + 1]])
  {
    var c := s.(threads := s.threads[t := GetPath(k, k in s.nodes)[i]]);
    assert !Blocked(g, c, t);
    assert DanglingAfter(c, t) == {};
    assert c.threads[t := GetPath(k, k in s.nodes)[i + 1]] == s.threads[t := GetPath(k, k in s.nodes)[i + 1]];
  }

  function GetPath(k: int, present: bool): seq<Phase> {
    if present then [GetWait(k), GetRead(k), GetWantPart(k), GetInPart(k), GetLeave(k), Idle]
    else [GetWait(k), GetRead(k), GetLeave(k), Idle]
  }

  /** Two keys of one partition, in different buckets. */
  predicate Neighbours(g: Geometry, k: int, p: int) { k != p && g.part(k) == g.part(p) && g.bucket(k) != g.bucket(p) }

  lemma Only(g: Geometry, x: int)
    ensures LinkedIn(g, {x}, g.part(x)) == {x}
  {}

  /** p is linked, thread 0 is refused key k because p may not go, and thread 1 removes k. */
  lemma RefusedAndRemoved(g: Geometry, k: int, p: int) returns (steps: seq<Step>)
    requires Neighbours(g, k, p) && g.max == 1
    ensures Reaches(g, steps, State({p}, {p}, map[g.part(k) := 1], map[3 := Idle, 0 := DrainWait(k), 1 := Idle], {}, {},
                                    map[]))
  {
    hide Reaches, LinkedIn;
    var part := g.part(k);
    StartsEmpty(g);
    steps := InsertsUpto(g, [], Init(), 3, p);
    var s1 := State({p}, {}, map[], map[3 := InsInPart(p, {})], {}, {}, map[]);
    assert Init().(nodes := {} + {p}, threads := map[][3 := InsInPart(p, {})]) == s1;
    steps := Links(g, steps, s1, 3, p);
    var s2 := State({p}, {p}, map[part := 1], map[3 := Idle], {}, {}, map[]);
    assert OthersRefused(s1, 3, p) == {};
    assert s1.(linked := {} + {p}, filled := Resize(map[], part, 1), threads := s1.threads[3 := Idle],
               stale := {} + {}) == s2;
    Only(g, p);
    steps := InsertsRefused(g, steps, s2, 0, k, p);
    var s3 := s2.(nodes := {p} + {k}, threads := s2.threads[0 := DrainWait(k)]);
    steps := Removes(g, steps, s3, 1, k);
    assert s3.(nodes := {p} + {k} - {k}, threads := s3.threads[1 := Idle]) ==
      State({p}, {p}, map[part := 1], map[3 := Idle, 0 := DrainWait(k), 1 := Idle], {}, {}, map[]);
  }

  lemma StartsEmpty(g: Geometry)
    ensures Reaches(g, [], Init())
  {}

  /** Thread 2 inserts k instead of p. */
  lemma LinkedAnew(g: Geometry, k: int, p: int) returns (steps: seq<Step>)
    requires Neighbours(g, k, p) && g.max == 1
    ensures Reaches(g, steps, State({k}, {k}, map[g.part(k) := 1],
      map[0 := DrainWait(k), 1 := Idle, 2 := Idle, 3 := Idle], {0}, {}, map[]))
  {
    hide Reaches, LinkedIn, Blocked;
    var part := g.part(k);
    steps := RefusedAndRemoved(g, k, p);
    var s1 := State({p}, {p}, map[part := 1], map[3 := Idle, 0 := DrainWait(k), 1 := Idle], {}, {}, map[]);
    steps := InsertsUpto(g, steps, s1, 2, k);
    var s2 := s1.(nodes := {p} + {k}, threads := s1.threads[2 := InsInPart(k, {})]);
    Only(g, p);
    steps := Evicts(g, steps, s2, 2, k, p);
    var s3 := State({k}, {}, map[part := 0], s2.threads, {}, {}, map[]);
    assert s2.(nodes := {p} + {k} - {p}, linked := {p} - {p}, filled := Resize(s2.filled, part, -1)) == s3;
    steps := Links(g, steps, s3, 2, k);
    assert OthersRefused(s3, 2, k) == {0};
    assert s3.(linked := {} + {k}, filled := Resize(s3.filled, part, 1), threads := s3.threads[2 := Idle],
               stale := {} + {0}) ==
      State({k}, {k}, map[part := 1], map[0 := DrainWait(k), 1 := Idle, 2 := Idle, 3 := Idle], {0}, {}, map[]);
  }

  /** Thread 3, inserting p again, looks at the record of k. */
  lemma LookedAt(g: Geometry, k: int, p: int) returns (steps: seq<Step>)
    requires Neighbours(g, k, p) && g.max == 1
    ensures Reaches(g, steps, State({k, p}, {k}, map[g.part(k) := 1],
      map[0 := DrainWait(k), 1 := Idle, 2 := Idle, 3 := InsPick(p, k, {})], {0}, {}, map[]))
  {
    hide Reaches, LinkedIn, Blocked;
    steps := LinkedAnew(g, k, p);
    var s1 := State({k}, {k}, map[g.part(k) := 1], map[0 := DrainWait(k), 1 := Idle, 2 := Idle, 3 := Idle], {0}, {},
                    map[]);
    steps := InsertsUpto(g, steps, s1, 3, p);
    var s2 := s1.(nodes := {k} + {p}, threads := s1.threads[3 := InsInPart(p, {})]);
    Only(g, k);
    Extend(g, steps, s2, Pick(3, k));
    steps := steps + [Pick(3, k)];
    assert Next(g, s2, Pick(3, k)) == State({k, p}, {k}, map[g.part(k) := 1],
      map[0 := DrainWait(k), 1 := Idle, 2 := Idle, 3 := InsPick(p, k, {})], {0}, {}, map[]);
  }

  /**
    A partition for one record holds p. Thread 0 is refused key k, thread 1 removes k, thread 2 inserts k in place of p,
    and thread 3, inserting p again, looks at the record of k while thread 0 takes k out: the record is gone, and the
    partition, now empty, is full for good.
   */
  lemma RecordFreed(g: Geometry, k: int, p: int) returns (steps: seq<Step>, s: State)
    requires Neighbours(g, k, p) && g.max == 1
    ensures Reaches(g, steps, s) && At(s, 3).InsPick? && LooksAt(At(s, 3), k) && 3 in s.dangling && k !in s.nodes
    ensures LinkedIn(g, s.linked, g.part(k)) == {} && Size(s.leaked, g.part(k)) == 1 && IsFull(g, s, g.part(k))
  {
    hide Reaches;
    steps := LookedAt(g, k, p);
    var s1 := State({k, p}, {k}, map[g.part(k) := 1],
      map[0 := DrainWait(k), 1 := Idle, 2 := Idle, 3 := InsPick(p, k, {})], {0}, {}, map[]);
    assert !Blocked(g, s1, 0);
    Extend(g, steps, s1, Move(0, false));
    steps := steps + [Move(0, false)];
    var s2 := Next(g, s1, Move(0, false));
    assert !Blocked(g, s2, 0);
    Extend(g, steps, s2, Move(0, false));
    steps := steps + [Move(0, false)];
    s := Next(g, s2, Move(0, false));
  }
}
