/**
  wisr_framework over ExitSafeThreadBuffer and urcu_scoped_ptr, as interleaved steps
  (include/sisl/wisr/wisr_framework.hpp, include/sisl/utility/thread_buffer.hpp,
  include/sisl/utility/urcu_helper.hpp).

  Writers append to the buffer of their own thread inside an RCU read section. A rotator, one at a
  time, exchanges the buffers of all running threads, then of the exited ones, waits for a grace
  period and merges the old buffers into the base object or hands them out. Threads attach and
  exit at any time; a thread number is reused once its buffer has been given up.
 */
module Wisr {

  type Thread = nat
  type Buf = nat

  /** What the k-th insert of a thread adds; elements are told apart by this label. */
  datatype Elem = Elem(writer: Thread, seqno: nat)

  datatype Writer =
    | Attaching(slot: nat)          // has a thread number, its buffer is not created yet
    | Idle(slot: nat)
    | Locked(slot: nat)             // inside the read section, pointer not read yet
    | Holding(slot: nat, buf: Buf)  // has dereferenced the pointer
    | Detaching(slot: nat)          // thread number given back, buffer not moved yet
    | Exited

  datatype Kind = Now | CopyAndReset | Unmerged

  /** Where the rotation stands. `before` is what had been inserted when it began. */
  datatype Rotator =
    | Resting
    | SwapLive(kind: Kind, before: set<Elem>, cursor: nat)  // shared lock on the buffers
    | Between(kind: Kind, before: set<Elem>)
    | SwapExited(kind: Kind, before: set<Elem>)             // exclusive lock on the buffers
    | Unsynced(kind: Kind, before: set<Elem>)
    | Syncing(kind: Kind, before: set<Elem>, waiting: set<Thread>)
    | Merging(kind: Kind, before: set<Elem>)

  datatype State = State(
    heap: map<Buf, seq<Elem>>,      // the data structures that exist
    next: Buf,
    writers: map<Thread, Writer>,
    pushed: map<Thread, nat>,       // inserts so far
    taken: set<nat>,                // thread numbers in use (the cleared bits of m_free_thread_slots)
    refs: set<nat>,                 // thread numbers the buffer holds a reference on
    cells: map<nat, Buf>,           // current object of each running thread's slot
    exited: seq<Buf>,
    swapped: seq<Buf>,
    base: Buf,
    results: seq<Buf>,
    rot: Rotator)

  datatype Step =
    | Pick(t: Thread, slot: nat) | Create(t: Thread)
    | Lock(t: Thread) | Deref(t: Thread) | Push(t: Thread) | Unlock(t: Thread)
    | Free(t: Thread) | Move(t: Thread)
    | Start(kind: Kind) | SwapOne(slot: nat) | EndLive | BeginExited | SwapExitedOne | EndExited
    | BeginSync | SyncDone | MergeOne | Finish

  /** The writer's thread number, once it has a buffer and until the buffer is moved. */
  predicate HasCell(w: Writer) { w.Idle? || w.Locked? || w.Holding? || w.Detaching? }

  predicate InSection(w: Writer) { w.Locked? || w.Holding? }

  /** m_expand_mutex is held by the rotator. */
  predicate BuffersLocked(s: State) { s.rot.SwapLive? || s.rot.SwapExited? }

  function Inserted(s: State): set<Elem> {
    set t, k | t in s.pushed && 0 <= k < s.pushed[t] :: Elem(t, k)
  }

  /** slot is the next one a scan of the live slots finds from cursor on. */
  predicate NextLive(cells: map<nat, Buf>, cursor: nat, slot: nat) {
    slot in cells && cursor <= slot && forall n :: n in cells && cursor <= n ==> slot <= n
  }

  predicate Enabled(s: State, a: Step) {
    match a
    case Pick(t, n) => t !in s.writers && n !in s.taken && n !in s.refs
    case Create(t) => t in s.writers && s.writers[t].Attaching? && !BuffersLocked(s)
    case Lock(t) => t in s.writers && s.writers[t].Idle?
    case Deref(t) => t in s.writers && s.writers[t].Locked? && s.writers[t].slot in s.cells
    case Push(t) => t in s.writers && s.writers[t].Holding? && s.writers[t].buf in s.heap && t in s.pushed
    case Unlock(t) => t in s.writers && s.writers[t].Holding?
    case Free(t) => t in s.writers && s.writers[t].Idle?
    case Move(t) => t in s.writers && s.writers[t].Detaching? && s.writers[t].slot in s.cells && !BuffersLocked(s)
    case Start(_) => s.rot.Resting?
    case SwapOne(n) => s.rot.SwapLive? && NextLive(s.cells, s.rot.cursor, n)
    case EndLive => s.rot.SwapLive? && forall n :: n in s.cells ==> n < s.rot.cursor
    case BeginExited => s.rot.Between?
    case SwapExitedOne => s.rot.SwapExited? && s.exited != []
    case EndExited => s.rot.SwapExited? && s.exited == []
    case BeginSync => s.rot.Unsynced?
    case SyncDone => s.rot.Syncing? && s.rot.waiting == {}
    case MergeOne => s.rot.Merging? && s.swapped != [] && s.swapped[0] in s.heap && s.base in s.heap
    case Finish => s.rot.Merging? && s.swapped == []
  }

  function Next(s: State, a: Step): State
    requires Enabled(s, a)
  {
    match a
    case Pick(t, n) =>
      s.(writers := s.writers[t := Attaching(n)], pushed := s.pushed[t := 0], taken := s.taken + {n})
    case Create(t) =>
      var n := s.writers[t].slot;
      // assigning the slot's unique_ptr destroys what it held
      var heap := if n in s.cells then s.heap - {s.cells[n]} else s.heap;
      s.(heap := heap[s.next := []], next := s.next + 1, cells := s.cells[n := s.next],
         refs := s.refs + {n}, writers := s.writers[t := Idle(n)])
    case Lock(t) => s.(writers := s.writers[t := Locked(s.writers[t].slot)])
    case Deref(t) => s.(writers := s.writers[t := Holding(s.writers[t].slot, s.cells[s.writers[t].slot])])
    case Push(t) =>
      var b := s.writers[t].buf;
      s.(heap := s.heap[b := s.heap[b] + [Elem(t, s.pushed[t])]], pushed := s.pushed[t := s.pushed[t] + 1])
    case Unlock(t) =>
      s.(writers := s.writers[t := Idle(s.writers[t].slot)],
         rot := if s.rot.Syncing? then s.rot.(waiting := s.rot.waiting - {t}) else s.rot)
    case Free(t) =>
      s.(writers := s.writers[t := Detaching(s.writers[t].slot)], taken := s.taken - {s.writers[t].slot})
    case Move(t) =>
      var n := s.writers[t].slot;
      s.(refs := s.refs - {n}, exited := s.exited + [s.cells[n]], cells := s.cells - {n},
         writers := s.writers[t := Exited])
    case Start(kind) => s.(swapped := [], rot := SwapLive(kind, Inserted(s), 0))
    case SwapOne(n) =>
      s.(swapped := s.swapped + [s.cells[n]], heap := s.heap[s.next := []], cells := s.cells[n := s.next],
         next := s.next + 1, rot := s.rot.(cursor := n + 1))
    case EndLive => s.(rot := Between(s.rot.kind, s.rot.before))
    case BeginExited => s.(rot := SwapExited(s.rot.kind, s.rot.before))
    case SwapExitedOne =>
      // the fresh object goes away with the exited cell
      var last := |s.exited| - 1;
      s.(swapped := s.swapped + [s.exited[last]], exited := s.exited[..last])
    case EndExited => s.(rot := Unsynced(s.rot.kind, s.rot.before))
    case BeginSync =>
      s.(rot := Syncing(s.rot.kind, s.rot.before, set t | t in s.writers && InSection(s.writers[t])))
    case SyncDone =>
      if s.rot.kind.Unmerged? then s.(results := s.results + s.swapped, swapped := [], rot := Resting)
      else s.(rot := Merging(s.rot.kind, s.rot.before))
    case MergeOne =>
      s.(heap := s.heap[s.base := s.heap[s.base] + s.heap[s.swapped[0]]] - {s.swapped[0]}, swapped := s.swapped[1..])
    case Finish =>
      if s.rot.kind.CopyAndReset? then
        s.(results := s.results + [s.base], base := s.next, heap := s.heap[s.next := []], next := s.next + 1,
           rot := Resting)
      else s.(rot := Resting)
  }

  // ----- thread numbers

  /** Thread numbers, references and live cells agree, and no number has two owners. */
  predicate SlotsAgree(s: State) {
    && s.pushed.Keys == s.writers.Keys
    && s.refs == s.cells.Keys
    && (forall t :: t in s.writers && HasCell(s.writers[t]) ==> s.writers[t].slot in s.cells)
    && (forall t :: t in s.writers && s.writers[t].Attaching? ==>
          s.writers[t].slot in s.taken && s.writers[t].slot !in s.cells)
    && (forall t :: t in s.writers && HasCell(s.writers[t]) && !s.writers[t].Detaching? ==>
         s.writers[t].slot in s.taken)
    && (forall t, u :: t in s.writers && u in s.writers && t != u && !s.writers[t].Exited? && !s.writers[u].Exited? ==>
          s.writers[t].slot != s.writers[u].slot)
  }

  predicate ThreadStep(a: Step) {
    a.Pick? || a.Create? || a.Lock? || a.Deref? || a.Push? || a.Unlock? || a.Free? || a.Move?
  }

  lemma SlotsPick(s: State, a: Step)
    requires SlotsAgree(s) && Enabled(s, a) && a.Pick?
    ensures SlotsAgree(Next(s, a))
  {}

  lemma SlotsCreate(s: State, a: Step)
    requires SlotsAgree(s) && Enabled(s, a) && a.Create?
    ensures SlotsAgree(Next(s, a))
  {}

  lemma SlotsMove(s: State, a: Step)
    requires SlotsAgree(s) && Enabled(s, a) && a.Move?
    ensures SlotsAgree(Next(s, a))
  {}

  lemma SlotsOther(s: State, a: Step)
    requires SlotsAgree(s) && Enabled(s, a) && ThreadStep(a) && !a.Pick? && !a.Create? && !a.Move?
    ensures SlotsAgree(Next(s, a))
  {}

  lemma SlotsRotatorStep(s: State, a: Step)
    requires SlotsAgree(s) && Enabled(s, a) && !ThreadStep(a)
    ensures SlotsAgree(Next(s, a))
  {}

  lemma SlotsStep(s: State, a: Step)
    requires SlotsAgree(s) && Enabled(s, a)
    ensures SlotsAgree(Next(s, a))
  {
    hide SlotsAgree, Enabled, Next;
    if a.Pick? { SlotsPick(s, a); }
    else if a.Create? { SlotsCreate(s, a); }
    else if a.Move? { SlotsMove(s, a); }
    else if ThreadStep(a) { SlotsOther(s, a); }
    else { SlotsRotatorStep(s, a); }
  }

  // ----- ownership of buffers

  /** The buffers kept in the three lists, with multiplicity. */
  function Lists(s: State): multiset<Buf> {
    multiset(s.exited) + multiset(s.swapped) + multiset(s.results)
  }

  /** Every existing buffer has exactly one owner: the base, a live slot, or one place in one list. */
  predicate Spread(bufs: set<Buf>, next: Buf, base: Buf, cells: map<nat, Buf>, lists: multiset<Buf>) {
    && (forall b :: b in bufs ==> b < next)
    && base in bufs && base !in lists
    && (forall n :: n in cells ==> cells[n] in bufs && cells[n] != base && cells[n] !in lists)
    && (forall m, n :: m in cells && n in cells && m != n ==> cells[m] != cells[n])
    && (forall b :: b in lists ==> b in bufs && lists[b] == 1)
    && (forall b :: b in bufs ==> b == base || b in cells.Values || b in lists)
  }

  predicate Owned(s: State) {
    Spread(s.heap.Keys, s.next, s.base, s.cells, Lists(s)) && (s.rot.Resting? ==> s.swapped == [])
  }

  /** Steps that leave buffers and owners alone. */
  lemma OwnedSame(s: State, s': State)
    requires Owned(s)
    requires s'.heap.Keys == s.heap.Keys && s'.next == s.next && s'.base == s.base && s'.cells == s.cells
    requires Lists(s') == Lists(s) && (s'.rot.Resting? ==> s'.swapped == [])
    ensures Owned(s')
  {}

  /** A live slot gets a fresh buffer; the one it had, if any, goes to a list. */
  lemma OwnedNewCell(s: State, s': State, n: nat)
    requires Owned(s)
    requires s'.heap.Keys == s.heap.Keys + {s.next} && s'.next == s.next + 1 && s'.base == s.base
    requires s'.cells == s.cells[n := s.next] && s'.rot.Resting? == s.rot.Resting?
    requires s.rot.Resting? ==> s'.swapped == []
    requires Lists(s') == if n in s.cells then Lists(s) + multiset{s.cells[n]} else Lists(s)
    ensures Owned(s')
  {
    hide Lists;
    NewCellSpread(s.heap.Keys, s.next, s.base, s.cells, Lists(s), n);
  }

  lemma NewCellSpread(bufs: set<Buf>, next: Buf, base: Buf, cells: map<nat, Buf>, lists: multiset<Buf>, n: nat)
    requires Spread(bufs, next, base, cells, lists)
    ensures Spread(bufs + {next}, next + 1, base, cells[n := next],
                   if n in cells then lists + multiset{cells[n]} else lists)
  {
    var cells', lists' := cells[n := next], if n in cells then lists + multiset{cells[n]} else lists;
    forall b | b in bufs + {next} ensures b == base || b in cells'.Values || b in lists' {
      if b in cells.Values + {next} { ReplacedCell(cells, n, next, b); }
    }
    assert forall b :: b in lists' ==> b in lists || (n in cells && b == cells[n]);
  }

  /** With another buffer in cell n, all that were in cells still are, except the one that left cell n. */
  lemma ReplacedCell(cells: map<nat, Buf>, n: nat, next: Buf, b: Buf)
    requires b in cells.Values || b == next
    ensures b in cells[n := next].Values || (n in cells && b == cells[n])
  {
    var cells' := cells[n := next];
    if b == next {
      assert cells'[n] == b;
    } else {
      var m :| m in cells && cells[m] == b;
      assert m != n ==> cells'[m] == b;
    }
  }

  lemma OwnedMoved(s: State, s': State, n: nat)
    requires Owned(s) && n in s.cells
    requires s'.heap.Keys == s.heap.Keys && s'.next == s.next && s'.base == s.base
    requires s'.cells == s.cells - {n} && s'.rot == s.rot && s'.swapped == s.swapped
    requires Lists(s') == Lists(s) + multiset{s.cells[n]}
    ensures Owned(s')
  {
    hide Lists;
    forall b | b in s'.heap ensures b == s'.base || b in s'.cells.Values || b in Lists(s') {
      if b in s.cells.Values {
        var m :| m in s.cells && s.cells[m] == b;
        assert m != n ==> m in s'.cells && s'.cells[m] == b;
      }
    }
  }

  lemma OwnedMerged(s: State, s': State, b0: Buf)
    requires Owned(s) && b0 in Lists(s) && !s'.rot.Resting?
    requires s'.heap.Keys == s.heap.Keys - {b0} && s'.next == s.next && s'.base == s.base && s'.cells == s.cells
    requires Lists(s') == Lists(s) - multiset{b0}
    ensures Owned(s')
  {
    hide Lists;
  }

  lemma OwnedHandedOut(s: State, s': State)
    requires Owned(s) && s.swapped == [] == s'.swapped
    requires s'.heap.Keys == s.heap.Keys + {s.next} && s'.next == s.next + 1 && s'.base == s.next && s'.cells == s.cells
    requires Lists(s') == Lists(s) + multiset{s.base}
    ensures Owned(s')
  {
    hide Lists;
  }

  lemma OwnedCreate(s: State, a: Step)
    requires SlotsAgree(s) && Owned(s) && Enabled(s, a) && a.Create?
    ensures Owned(Next(s, a))
  {
    hide Owned;
    OwnedFacts(s);
    OwnedNewCell(s, Next(s, a), s.writers[a.t].slot);
  }

  lemma OwnedSwapOne(s: State, a: Step)
    requires SlotsAgree(s) && Owned(s) && Enabled(s, a) && a.SwapOne?
    ensures Owned(Next(s, a))
  {
    hide Owned;
    OwnedFacts(s);
    OwnedNewCell(s, Next(s, a), a.slot);
  }

  lemma OwnedMove(s: State, a: Step)
    requires SlotsAgree(s) && Owned(s) && Enabled(s, a) && a.Move?
    ensures Owned(Next(s, a))
  {
    hide Owned;
    OwnedMoved(s, Next(s, a), s.writers[a.t].slot);
  }

  lemma OwnedSwapExitedOne(s: State, a: Step)
    requires SlotsAgree(s) && Owned(s) && Enabled(s, a) && a.SwapExitedOne?
    ensures Owned(Next(s, a))
  {
    hide Owned;
    assert s.exited == s.exited[..|s.exited| - 1] + [s.exited[|s.exited| - 1]];
    OwnedSame(s, Next(s, a));
  }

  lemma OwnedMergeOne(s: State, a: Step)
    requires SlotsAgree(s) && Owned(s) && Enabled(s, a) && a.MergeOne?
    ensures Owned(Next(s, a))
  {
    hide Owned, SlotsAgree;
    OwnedFacts(s);
    MergeLists(s, a);
    hide Next;
    OwnedMerged(s, Next(s, a), s.swapped[0]);
  }

  lemma MergeLists(s: State, a: Step)
    requires Enabled(s, a) && a.MergeOne? && s.swapped[0] != s.base
    ensures var s' := Next(s, a);
      && s'.heap.Keys == s.heap.Keys - {s.swapped[0]} && s'.next == s.next && s'.base == s.base && s'.cells == s.cells
      && Lists(s') == Lists(s) - multiset{s.swapped[0]} && s'.rot == s.rot
  {
    assert s.swapped == [s.swapped[0]] + s.swapped[1..];
  }

  lemma OwnedFinish(s: State, a: Step)
    requires SlotsAgree(s) && Owned(s) && Enabled(s, a) && a.Finish?
    ensures Owned(Next(s, a))
  {
    hide Owned;
    OwnedFacts(s);
    if s.rot.kind.CopyAndReset? { OwnedHandedOut(s, Next(s, a)); } else { OwnedSame(s, Next(s, a)); }
  }

  lemma OwnedSyncDone(s: State, a: Step)
    requires Owned(s) && Enabled(s, a) && a.SyncDone?
    ensures Owned(Next(s, a))
  {
    hide Owned;
    SyncDoneLists(s, a);
    hide Lists;
    OwnedSame(s, Next(s, a));
  }

  lemma SyncDoneLists(s: State, a: Step)
    requires Enabled(s, a) && a.SyncDone?
    ensures Lists(Next(s, a)) == Lists(s)
  {
    assert multiset(s.results + s.swapped) == multiset(s.results) + multiset(s.swapped);
  }

  lemma OwnedQuiet(s: State, a: Step)
    requires Owned(s) && Enabled(s, a)
    requires a.Pick? || a.Lock? || a.Deref? || a.Push? || a.Unlock? || a.Free?
      || a.Start? || a.EndLive? || a.BeginExited? || a.EndExited? || a.BeginSync?
    ensures Owned(Next(s, a))
  {
    hide Owned, Lists;
    OwnedFacts(s);
    SameLists(s, a);
    OwnedSame(s, Next(s, a));
  }

  lemma SameLists(s: State, a: Step)
    requires Owned(s) && Enabled(s, a)
    requires a.Pick? || a.Lock? || a.Deref? || a.Push? || a.Unlock? || a.Free?
      || a.Start? || a.EndLive? || a.BeginExited? || a.EndExited? || a.BeginSync?
    ensures Lists(Next(s, a)) == Lists(s)
  {
    hide Owned;
    OwnedFacts(s);
  }

  lemma OwnedStep(s: State, a: Step)
    requires SlotsAgree(s) && Owned(s) && Enabled(s, a)
    ensures Owned(Next(s, a))
  {
    hide *;
    match a
    case Create(_) => OwnedCreate(s, a);
    case SwapOne(_) => OwnedSwapOne(s, a);
    case Move(_) => OwnedMove(s, a);
    case SwapExitedOne => OwnedSwapExitedOne(s, a);
    case MergeOne => OwnedMergeOne(s, a);
    case Finish => OwnedFinish(s, a);
    case SyncDone => OwnedSyncDone(s, a);
    case _ => OwnedQuiet(s, a);
  }

  lemma OwnedFacts(s: State)
    requires Owned(s)
    ensures s.next !in s.heap && s.base in s.heap && (s.rot.Resting? ==> s.swapped == [])
    ensures forall i :: 0 <= i < |s.swapped| ==> s.swapped[i] in Lists(s) && s.swapped[i] != s.base
  {}

  // ----- the grace period

  /** A reader that was present when the buffers were exchanged has not been waited for yet. */
  predicate InGrace(r: Rotator, t: Thread) {
    r.SwapLive? || r.Between? || r.SwapExited? || r.Unsynced? || (r.Syncing? && t in r.waiting)
  }

  /** A writer holds the current buffer of its thread, or an exchanged one within the grace period. */
  predicate HoldersSafe(s: State) {
    forall t :: t in s.writers && s.writers[t].Holding? ==>
      && s.writers[t].slot in s.cells
      && (s.writers[t].buf == s.cells[s.writers[t].slot] || (s.writers[t].buf in s.swapped && InGrace(s.rot, t)))
  }

  lemma HoldersThreadStep(s: State, a: Step)
    requires SlotsAgree(s) && HoldersSafe(s) && Enabled(s, a) && ThreadStep(a)
    ensures HoldersSafe(Next(s, a))
  {}

  lemma HoldersRotatorStep(s: State, a: Step)
    requires SlotsAgree(s) && HoldersSafe(s) && Enabled(s, a) && !ThreadStep(a)
    ensures HoldersSafe(Next(s, a))
  {}

  // ----- conservation

  predicate Counted(s: State, e: Elem) { e.writer in s.pushed && e.seqno < s.pushed[e.writer] }

  predicate Stored(s: State, e: Elem) { exists b :: b in s.heap && e in s.heap[b] }

  /** The inserted elements are exactly the stored ones, and no two buffers share one. */
  ghost predicate Conserved(s: State) {
    && (forall b, e :: b in s.heap && e in s.heap[b] ==> Counted(s, e))
    && (forall b, c, e :: b in s.heap && c in s.heap && e in s.heap[b] && e in s.heap[c] ==> b == c)
    && (forall e :: Counted(s, e) ==> Stored(s, e))
  }

  /** No buffer of the heap changes but a new empty one may appear. */
  predicate HeapGrows(s: State, s': State) {
    && (forall b :: b in s.heap ==> b in s'.heap && s'.heap[b] == s.heap[b])
    && (forall b :: b in s'.heap && b !in s.heap ==> s'.heap[b] == [])
  }

  lemma ConservedGrows(s: State, s': State)
    requires Conserved(s) && HeapGrows(s, s')
    requires forall e :: Counted(s', e) <==> Counted(s, e)
    ensures Conserved(s')
  {
    forall e | Counted(s', e) ensures Stored(s', e) {
      assert Stored(s, e);
      var b :| b in s.heap && e in s.heap[b];
      assert b in s'.heap && e in s'.heap[b];
    }
  }

  lemma ConservedPush(s: State, a: Step)
    requires Conserved(s) && Enabled(s, a) && a.Push?
    ensures Conserved(Next(s, a))
  {
    var s', t, b := Next(s, a), a.t, s.writers[a.t].buf;
    var new_ := Elem(t, s.pushed[t]);
    assert !Counted(s, new_);
    forall c, e | c in s'.heap && e in s'.heap[c]
      ensures (e == new_ && c == b) || (c in s.heap && e in s.heap[c])
    {
      if c == b { assert e in s.heap[b] + [new_]; }
    }
    forall c, e | c in s'.heap && e in s'.heap[c] ensures Counted(s', e) {
      if e != new_ { assert Counted(s, e); }
    }
    forall e | Counted(s', e) ensures Stored(s', e) {
      if e == new_ {
        assert e in s'.heap[b];
      } else {
        assert Counted(s, e) && Stored(s, e);
        var c :| c in s.heap && e in s.heap[c];
        assert c in s'.heap && e in s'.heap[c];
      }
    }
  }

  lemma ConservedMerge(s: State, a: Step)
    requires Conserved(s) && Owned(s) && Enabled(s, a) && a.MergeOne?
    ensures Conserved(Next(s, a))
  {
    hide Owned, Conserved, Next;
    OwnedFacts(s);
    MergedHeap(s, a);
    MergedElements(s, a);
    MergedStored(s, Next(s, a), s.swapped[0]);
    MergedApart(s, Next(s, a), s.swapped[0]);
    hide Counted, Stored;
    assert Conserved(Next(s, a)) by { ConservedParts(Next(s, a)); }
  }

  lemma ConservedParts(s: State)
    requires forall b, e :: b in s.heap && e in s.heap[b] ==> Counted(s, e)
    requires forall b, c, e :: b in s.heap && c in s.heap && e in s.heap[b] && e in s.heap[c] ==> b == c
    requires forall e :: Counted(s, e) ==> Stored(s, e)
    ensures Conserved(s)
  {}

  predicate MergedInto(s: State, s': State, b0: Buf) {
    && b0 in s.heap && s.base in s.heap && b0 != s.base && s'.base == s.base && s'.pushed == s.pushed
    && s'.heap == s.heap[s.base := s.heap[s.base] + s.heap[b0]] - {b0}
  }

  lemma MergedHeap(s: State, a: Step)
    requires Enabled(s, a) && a.MergeOne? && s.swapped[0] != s.base
    ensures MergedInto(s, Next(s, a), s.swapped[0])
  {}

  lemma MergedStored(s: State, s': State, b0: Buf)
    requires Conserved(s) && MergedInto(s, s', b0)
    ensures forall e :: Counted(s', e) ==> Stored(s', e)
  {
    forall e | Counted(s', e) ensures Stored(s', e) {
      assert Counted(s, e) && Stored(s, e);
      var c :| c in s.heap && e in s.heap[c];
      var d := if c == b0 then s.base else c;
      assert d in s'.heap && e in s'.heap[d];
    }
  }

  lemma MergedApart(s: State, s': State, b0: Buf)
    requires Conserved(s) && MergedInto(s, s', b0)
    ensures forall b, c, e :: b in s'.heap && c in s'.heap && e in s'.heap[b] && e in s'.heap[c] ==> b == c
  {
    forall c, e | c in s'.heap && e in s'.heap[c]
      ensures c in s.heap && c != b0 && (e in s.heap[c] || (c == s.base && e in s.heap[b0]))
    {
      if c == s.base { assert e in s.heap[c] + s.heap[b0]; }
    }
    hide MergedInto;
  }

  lemma MergedElements(s: State, a: Step)
    requires Conserved(s) && Enabled(s, a) && a.MergeOne?
    ensures forall c, e :: c in Next(s, a).heap && e in Next(s, a).heap[c] ==>
      Counted(Next(s, a), e) && c in s.heap && (e in s.heap[c] || (c == s.base && e in s.heap[s.swapped[0]]))
  {
    var s', b0 := Next(s, a), s.swapped[0];
    forall c, e | c in s'.heap && e in s'.heap[c]
      ensures c in s.heap && (e in s.heap[c] || (c == s.base && e in s.heap[b0])) && Counted(s', e)
    {
      if c == s.base { assert e in s.heap[c] + s.heap[b0]; }
      assert Counted(s, e);
    }
  }

  lemma GrowsOtherwise(s: State, a: Step)
    requires SlotsAgree(s) && Owned(s) && Enabled(s, a) && !a.Push? && !a.MergeOne?
    ensures HeapGrows(s, Next(s, a))
    ensures forall e :: Counted(Next(s, a), e) <==> Counted(s, e)
  {
    hide Owned;
    OwnedFacts(s);
  }

  lemma ConservedStep(s: State, a: Step)
    requires SlotsAgree(s) && Owned(s) && Conserved(s) && Enabled(s, a)
    ensures Conserved(Next(s, a))
  {
    hide *;
    if a.Push? {
      ConservedPush(s, a);
    } else if a.MergeOne? {
      ConservedMerge(s, a);
    } else {
      GrowsOtherwise(s, a);
      ConservedGrows(s, Next(s, a));
    }
  }

  // ----- the order of each writer's inserts

  type Heap = map<Buf, seq<Elem>>

  function Of(heap: Heap, b: Buf): seq<Elem> { if b in heap then heap[b] else [] }

  /** Each writer's elements appear in the order of their insertion. */
  predicate Ascending(q: seq<Elem>) {
    forall i, j :: 0 <= i < j < |q| && q[i].writer == q[j].writer ==> q[i].seqno < q[j].seqno
  }

  /** Each writer's elements of p were inserted before those of q. */
  predicate Earlier(p: seq<Elem>, q: seq<Elem>) {
    forall e, f :: e in p && f in q && e.writer == f.writer ==> e.seqno < f.seqno
  }

  predicate NoneOf(q: seq<Elem>, t: Thread) { forall e :: e in q ==> e.writer != t }

  /** The elements of a live buffer come from the thread that owns the slot. */
  predicate LiveWriters(heap: Heap, cells: map<nat, Buf>, writers: map<Thread, Writer>) {
    forall n, e :: n in cells && e in Of(heap, cells[n]) ==>
      e.writer in writers && HasCell(writers[e.writer]) && writers[e.writer].slot == n
  }

  /** The elements of exited buffers come from exited threads, a different one for each buffer. */
  predicate ExitedWriters(heap: Heap, exited: seq<Buf>, writers: map<Thread, Writer>) {
    && (forall i, e :: 0 <= i < |exited| && e in Of(heap, exited[i]) ==>
         e.writer in writers && writers[e.writer].Exited?)
    && (forall i, j, e :: 0 <= i < |exited| && 0 <= j < |exited| && i != j && e in Of(heap, exited[i]) ==>
          NoneOf(Of(heap, exited[j]), e.writer))
  }

  /** A writer that still holds an exchanged buffer has nothing in any later one. */
  predicate Straggler(heap: Heap, cells: map<nat, Buf>, swapped: seq<Buf>, t: Thread, n: nat, b: Buf) {
    n in cells && b != cells[n] ==>
      && Of(heap, cells[n]) == []
      && forall i, j :: 0 <= i < j < |swapped| && swapped[i] == b ==> NoneOf(Of(heap, swapped[j]), t)
  }

  predicate StragglersLast(heap: Heap, cells: map<nat, Buf>, swapped: seq<Buf>, writers: map<Thread, Writer>) {
    forall t :: t in writers && writers[t].Holding? ==>
      Straggler(heap, cells, swapped, t, writers[t].slot, writers[t].buf)
  }

  /** A writer's elements ascend from the base over the exchanged buffers, in order. */
  predicate SwappedOrder(heap: Heap, base: Buf, swapped: seq<Buf>) {
    && (forall i :: 0 <= i < |swapped| ==> Earlier(Of(heap, base), Of(heap, swapped[i])))
    && (forall i, j :: 0 <= i < j < |swapped| ==> Earlier(Of(heap, swapped[i]), Of(heap, swapped[j])))
  }

  /** Buffer b comes after the base and all exchanged buffers. */
  predicate ComesLast(heap: Heap, base: Buf, swapped: seq<Buf>, b: Buf) {
    && Earlier(Of(heap, base), Of(heap, b))
    && forall i :: 0 <= i < |swapped| ==> Earlier(Of(heap, swapped[i]), Of(heap, b))
  }

  predicate Ordered(heap: Heap, base: Buf, swapped: seq<Buf>, cells: map<nat, Buf>, exited: seq<Buf>) {
    && (forall b :: b in heap ==> Ascending(heap[b]))
    && SwappedOrder(heap, base, swapped)
    && (forall n :: n in cells ==> ComesLast(heap, base, swapped, cells[n]))
    && (forall k :: 0 <= k < |exited| ==> ComesLast(heap, base, swapped, exited[k]))
  }

  /** The order part of the invariant. */
  predicate InOrder(s: State) {
    && LiveWriters(s.heap, s.cells, s.writers)
    && ExitedWriters(s.heap, s.exited, s.writers)
    && StragglersLast(s.heap, s.cells, s.swapped, s.writers)
    && Ordered(s.heap, s.base, s.swapped, s.cells, s.exited)
  }

  ghost predicate Inv(s: State) {
    SlotsAgree(s) && Owned(s) && HoldersSafe(s) && Conserved(s) && InOrder(s)
  }

  /** All the buffers that are ordered exist, so a fresh one is none of them. */
  lemma OwnedExist(s: State)
    requires Owned(s)
    ensures s.next !in s.heap && s.base in s.heap
    ensures forall n :: n in s.cells ==> s.cells[n] in s.heap && s.cells[n] != s.base
    ensures forall i :: 0 <= i < |s.swapped| ==> s.swapped[i] in s.heap && s.swapped[i] != s.base
    ensures forall i :: 0 <= i < |s.exited| ==> s.exited[i] in s.heap && s.exited[i] != s.base
    ensures forall n, i :: n in s.cells && 0 <= i < |s.swapped| ==> s.cells[n] != s.swapped[i]
    ensures forall n, i :: n in s.cells && 0 <= i < |s.exited| ==> s.cells[n] != s.exited[i]
  {
    forall i | 0 <= i < |s.swapped| ensures s.swapped[i] in Lists(s) { assert s.swapped[i] in multiset(s.swapped); }
    forall i | 0 <= i < |s.exited| ensures s.exited[i] in Lists(s) { assert s.exited[i] in multiset(s.exited); }
  }

  /** Steps that touch neither buffers nor their places. */
  predicate Still(a: Step) {
    a.Pick? || a.Lock? || a.Deref? || a.Unlock? || a.Free?
      || a.Start? || a.EndLive? || a.BeginExited? || a.EndExited? || a.BeginSync?
  }

  lemma StillBuffers(s: State, a: Step)
    requires Owned(s) && Enabled(s, a) && Still(a)
    ensures var s' := Next(s, a);
      s'.heap == s.heap && s'.cells == s.cells && s'.exited == s.exited && s'.swapped == s.swapped && s'.base == s.base
  {
    hide Owned;
    OwnedFacts(s);
  }

  /** Such a step keeps the slots of the threads; a new holder holds the current buffer. */
  lemma StillThreads(s: State, a: Step)
    requires SlotsAgree(s) && Enabled(s, a) && Still(a)
    ensures var w := Next(s, a).writers;
      && (forall t :: t in s.writers && HasCell(s.writers[t]) ==>
           t in w && HasCell(w[t]) && w[t].slot == s.writers[t].slot)
      && (forall t :: t in s.writers && s.writers[t].Exited? ==> t in w && w[t].Exited?)
      && (forall t :: t in w && w[t].Holding? ==>
            (t in s.writers && s.writers[t] == w[t]) || (w[t].slot in s.cells && w[t].buf == s.cells[w[t].slot]))
  {
    if ThreadStep(a) {
      ThreadMoves(s, a);
    } else {
      RotatorWriters(s, a);
    }
    hide Next, Enabled, SlotsAgree;
  }

  lemma RotatorWriters(s: State, a: Step)
    requires Enabled(s, a) && !ThreadStep(a)
    ensures Next(s, a).writers == s.writers
  {}

  lemma ThreadMoves(s: State, a: Step)
    requires SlotsAgree(s) && Enabled(s, a) && Still(a) && ThreadStep(a)
    ensures var w' := Next(s, a).writers[a.t];
      && Next(s, a).writers == s.writers[a.t := w']
      && (a.t in s.writers && HasCell(s.writers[a.t]) ==> HasCell(w') && w'.slot == s.writers[a.t].slot)
      && (a.t in s.writers ==> !s.writers[a.t].Exited?)
      && (w'.Holding? ==> w'.slot in s.cells && w'.buf == s.cells[w'.slot])
  {}

  lemma StillWriters(s: State, a: Step)
    requires SlotsAgree(s) && InOrder(s) && Enabled(s, a) && Still(a)
    ensures var w := Next(s, a).writers;
      && LiveWriters(s.heap, s.cells, w) && ExitedWriters(s.heap, s.exited, w)
      && StragglersLast(s.heap, s.cells, s.swapped, w)
  {
    hide NoneOf, Of, Ordered;
    StillThreads(s, a);
    hide Next, Enabled, SlotsAgree;
    var w := Next(s, a).writers;
    forall t | t in w && w[t].Holding? ensures Straggler(s.heap, s.cells, s.swapped, t, w[t].slot, w[t].buf) {
      if t in s.writers && s.writers[t] == w[t] {
        assert Straggler(s.heap, s.cells, s.swapped, t, s.writers[t].slot, s.writers[t].buf);
      }
    }
  }

  lemma StillOrder(s: State, a: Step)
    requires Inv(s) && Enabled(s, a) && Still(a)
    ensures InOrder(Next(s, a))
  {
    hide Next, Owned, Conserved, Ordered, LiveWriters, ExitedWriters, StragglersLast, SlotsAgree;
    StillBuffers(s, a);
    StillWriters(s, a);
  }

  /** An empty buffer fits anywhere. */
  lemma EmptyFits(q: seq<Elem>)
    ensures Ascending([]) && Earlier(q, []) && Earlier([], q)
  {}

  /** A fresh empty buffer changes nothing for the others. */
  lemma FreshOrder(heap: Heap, base: Buf, swapped: seq<Buf>, cells: map<nat, Buf>, exited: seq<Buf>, n: nat,
                   fresh_: Buf)
    requires Ordered(heap, base, swapped, cells, exited) && fresh_ !in heap
    ensures Ordered(heap[fresh_ := []], base, swapped, cells[n := fresh_], exited)
  {
    hide Ascending, Earlier;
    var heap' := heap[fresh_ := []];
    assert forall b :: Of(heap', b) == Of(heap, b);
    assert Ascending([]) by { EmptyFits([]); }
    assert ComesLast(heap', base, swapped, fresh_) by {
      forall q ensures Earlier(q, []) { EmptyFits(q); }
    }
    forall m | m in cells ensures ComesLast(heap', base, swapped, cells[m]) {
      assert ComesLast(heap, base, swapped, cells[m]);
    }
    forall k | 0 <= k < |exited| ensures ComesLast(heap', base, swapped, exited[k]) {
      assert ComesLast(heap, base, swapped, exited[k]);
    }
  }

  // ----- each part of the order, carried from one set of buffers to the next

  /** Owners of live buffers keep them, and exited threads stay exited. */
  predicate KeepsOwners(w: map<Thread, Writer>, w': map<Thread, Writer>) {
    && (forall t :: t in w && HasCell(w[t]) ==> t in w' && HasCell(w'[t]) && w'[t].slot == w[t].slot)
    && (forall t :: t in w && w[t].Exited? ==> t in w' && w'[t].Exited?)
  }

  lemma LiveKeeps(heap: Heap, heap': Heap, cells: map<nat, Buf>, cells': map<nat, Buf>,
                  w: map<Thread, Writer>, w': map<Thread, Writer>)
    requires LiveWriters(heap, cells, w) && KeepsOwners(w, w')
    requires forall n :: n in cells' ==>
      Of(heap', cells'[n]) == [] || (n in cells && Of(heap', cells'[n]) == Of(heap, cells[n]))
    ensures LiveWriters(heap', cells', w')
  {
    hide Of;
  }

  lemma ExitedKeeps(heap: Heap, heap': Heap, exited: seq<Buf>, w: map<Thread, Writer>, w': map<Thread, Writer>)
    requires ExitedWriters(heap, exited, w) && KeepsOwners(w, w')
    requires forall i :: 0 <= i < |exited| ==> Of(heap', exited[i]) == Of(heap, exited[i])
    ensures ExitedWriters(heap', exited, w')
  {
    hide Of, NoneOf;
  }

  lemma StragglersKeep(heap: Heap, heap': Heap, cells: map<nat, Buf>, cells': map<nat, Buf>, swapped: seq<Buf>,
                       w: map<Thread, Writer>, w': map<Thread, Writer>)
    requires StragglersLast(heap, cells, swapped, w)
    requires forall b :: Of(heap', b) == Of(heap, b)
    requires forall t :: t in w' && w'[t].Holding? ==>
      t in w && w[t] == w'[t] && w[t].slot in cells && w[t].slot in cells' && cells'[w[t].slot] == cells[w[t].slot]
    ensures StragglersLast(heap', cells', swapped, w')
  {
    hide Of, NoneOf;
    forall t | t in w' && w'[t].Holding? ensures Straggler(heap', cells', swapped, t, w'[t].slot, w'[t].buf) {
      assert Straggler(heap, cells, swapped, t, w[t].slot, w[t].buf);
    }
  }

  // a new thread's buffer

  lemma FreshSame(heap: Heap, b: Buf)
    requires b !in heap
    ensures forall c :: Of(heap[b := []], c) == Of(heap, c)
  {}

  lemma CreateEffect(s: State, a: Step)
    requires SlotsAgree(s) && HoldersSafe(s) && Enabled(s, a) && a.Create?
    ensures var s', n := Next(s, a), s.writers[a.t].slot;
      && s'.heap == s.heap[s.next := []] && s'.cells == s.cells[n := s.next] && n !in s.cells
      && s'.base == s.base && s'.swapped == s.swapped && s'.exited == s.exited
      && KeepsOwners(s.writers, s'.writers) && HoldersKeep(s, s')
  {}

  /** No holder is affected. */
  predicate HoldersKeep(s: State, s': State) {
    forall t :: t in s'.writers && s'.writers[t].Holding? ==>
      && t in s.writers && s.writers[t] == s'.writers[t]
      && s.writers[t].slot in s.cells && s.writers[t].slot in s'.cells
      && s'.cells[s.writers[t].slot] == s.cells[s.writers[t].slot]
  }

  lemma CreateOrder(s: State, a: Step)
    requires Inv(s) && Enabled(s, a) && a.Create?
    ensures InOrder(Next(s, a))
  {
    CreateEffect(s, a);
    OwnedExist(s);
    hide SlotsAgree, HoldersSafe, Owned, Conserved, Next, Enabled, KeepsOwners;
    hide Of, Ordered, LiveWriters, ExitedWriters, StragglersLast;
    var s', n := Next(s, a), s.writers[a.t].slot;
    FreshSame(s.heap, s.next);
    FreshOrder(s.heap, s.base, s.swapped, s.cells, s.exited, n, s.next);
    FreshIsEmpty(s.heap, s.next);
    LiveKeeps(s.heap, s'.heap, s.cells, s'.cells, s.writers, s'.writers);
    ExitedKeeps(s.heap, s'.heap, s.exited, s.writers, s'.writers);
    StragglersKeep(s.heap, s'.heap, s.cells, s'.cells, s.swapped, s.writers, s'.writers);
  }

  lemma FreshIsEmpty(heap: Heap, b: Buf)
    ensures Of(heap[b := []], b) == []
  {}

  // exchanging a live buffer

  /** A buffer that comes last may join the exchanged ones if no other last buffer shares a writer with it. */
  lemma JoinsSwapped(heap: Heap, base: Buf, swapped: seq<Buf>, cells: map<nat, Buf>, exited: seq<Buf>, b: Buf)
    requires Ordered(heap, base, swapped, cells, exited) && ComesLast(heap, base, swapped, b)
    requires forall n :: n in cells ==> Apart(Of(heap, b), Of(heap, cells[n]))
    requires forall k :: 0 <= k < |exited| ==> Apart(Of(heap, b), Of(heap, exited[k]))
    ensures Ordered(heap, base, swapped + [b], cells, exited)
  {
    hide Earlier, Ascending, Of, Apart;
    forall n | n in cells ensures ComesLast(heap, base, swapped + [b], cells[n]) {
      ApartEarlier(Of(heap, b), Of(heap, cells[n]));
    }
    forall k | 0 <= k < |exited| ensures ComesLast(heap, base, swapped + [b], exited[k]) {
      ApartEarlier(Of(heap, b), Of(heap, exited[k]));
    }
  }

  /** No writer has elements in both. */
  predicate Apart(p: seq<Elem>, q: seq<Elem>) { forall e :: e in p ==> NoneOf(q, e.writer) }

  lemma ApartEarlier(p: seq<Elem>, q: seq<Elem>)
    requires Apart(p, q)
    ensures Earlier(p, q)
  {}

  lemma LiveApart(heap: Heap, cells: map<nat, Buf>, exited: seq<Buf>, w: map<Thread, Writer>, n: nat)
    requires LiveWriters(heap, cells, w) && ExitedWriters(heap, exited, w) && n in cells
    ensures forall m :: m in cells && m != n ==> Apart(Of(heap, cells[n]), Of(heap, cells[m]))
    ensures forall k :: 0 <= k < |exited| ==> Apart(Of(heap, cells[n]), Of(heap, exited[k]))
  {
    hide Of;
  }

  predicate HoldersIn(w: map<Thread, Writer>, cells: map<nat, Buf>, swapped: seq<Buf>) {
    forall t :: t in w && w[t].Holding? ==>
      w[t].slot in cells && (w[t].buf == cells[w[t].slot] || w[t].buf in swapped)
  }

  /** The exchanged buffer of slot n: its holder is the only one that may still write to it. */
  lemma StragglersSwap(heap: Heap, heap': Heap, cells: map<nat, Buf>, cells': map<nat, Buf>, swapped: seq<Buf>,
                       w: map<Thread, Writer>, n: nat)
    requires StragglersLast(heap, cells, swapped, w) && LiveWriters(heap, cells, w)
    requires n in cells && n in cells' && cells' == cells[n := cells'[n]] && Of(heap', cells'[n]) == []
    requires forall b :: Of(heap', b) == Of(heap, b)
    requires forall i :: 0 <= i < |swapped| ==> swapped[i] != cells[n]
    requires HoldersIn(w, cells, swapped)
    ensures StragglersLast(heap', cells', swapped + [cells[n]], w)
  {
    hide Of;
    forall t | t in w && w[t].Holding?
      ensures Straggler(heap', cells', swapped + [cells[n]], t, w[t].slot, w[t].buf)
    {
      assert Straggler(heap, cells, swapped, t, w[t].slot, w[t].buf);
      if w[t].slot != n { assert NoneOf(Of(heap', cells[n]), t); }
    }
  }

  lemma SwapOneEffect(s: State, a: Step)
    requires SlotsAgree(s) && HoldersSafe(s) && Enabled(s, a) && a.SwapOne?
    ensures var s', n := Next(s, a), a.slot;
      && n in s.cells && s'.heap == s.heap[s.next := []] && s'.cells == s.cells[n := s.next]
      && s'.swapped == s.swapped + [s.cells[n]]
      && s'.base == s.base && s'.exited == s.exited && s'.writers == s.writers && KeepsOwners(s.writers, s.writers)
      && HoldersIn(s.writers, s.cells, s.swapped)
  {}

  lemma SwapOneWriters(s: State, a: Step)
    requires Inv(s) && Enabled(s, a) && a.SwapOne?
    ensures var s' := Next(s, a);
      && LiveWriters(s'.heap, s'.cells, s'.writers) && ExitedWriters(s'.heap, s'.exited, s'.writers)
      && StragglersLast(s'.heap, s'.cells, s'.swapped, s'.writers)
  {
    hide SlotsAgree, HoldersSafe, Owned, Conserved, Next, Enabled, KeepsOwners, HoldersIn;
    hide Of, Ordered, LiveWriters, ExitedWriters, StragglersLast;
    SwapOneEffect(s, a);
    OwnedExist(s);
    var s' := Next(s, a);
    FreshSame(s.heap, s.next);
    FreshIsEmpty(s.heap, s.next);
    LiveKeeps(s.heap, s'.heap, s.cells, s'.cells, s.writers, s'.writers);
    ExitedKeeps(s.heap, s'.heap, s.exited, s.writers, s'.writers);
    StragglersSwap(s.heap, s'.heap, s.cells, s'.cells, s.swapped, s.writers, a.slot);
  }

  /** The exchange on the buffers alone. */
  lemma SwapOrdered(heap: Heap, base: Buf, swapped: seq<Buf>, cells: map<nat, Buf>, exited: seq<Buf>,
                    w: map<Thread, Writer>, n: nat, fresh_: Buf)
    requires Ordered(heap, base, swapped, cells, exited)
    requires LiveWriters(heap, cells, w) && ExitedWriters(heap, exited, w)
    requires n in cells && fresh_ !in heap
    ensures Ordered(heap[fresh_ := []], base, swapped + [cells[n]], cells[n := fresh_], exited)
  {
    hide Of, Ordered, LiveWriters, ExitedWriters, Apart, ComesLast;
    var heap', b := heap[fresh_ := []], cells[n];
    FreshSame(heap, fresh_);
    FreshIsEmpty(heap, fresh_);
    FreshOrder(heap, base, swapped, cells, exited, n, fresh_);
    LiveComesLast(heap, base, swapped, cells, exited, n);
    LiveApart(heap, cells, exited, w, n);
    SameRow(heap, heap', base, swapped, b);
    EmptyApart(Of(heap', b));
    JoinsSwapped(heap', base, swapped, cells[n := fresh_], exited, b);
  }

  lemma SwapOneOrder(s: State, a: Step)
    requires Inv(s) && Enabled(s, a) && a.SwapOne?
    ensures InOrder(Next(s, a))
  {
    SwapOneEffect(s, a);
    SwapOneWriters(s, a);
    OwnedExist(s);
    hide SlotsAgree, HoldersSafe, Owned, Conserved, Next, Enabled, KeepsOwners, HoldersIn;
    hide Of, Ordered, LiveWriters, ExitedWriters, StragglersLast;
    SwapOrdered(s.heap, s.base, s.swapped, s.cells, s.exited, s.writers, a.slot, s.next);
  }

  lemma LiveComesLast(heap: Heap, base: Buf, swapped: seq<Buf>, cells: map<nat, Buf>, exited: seq<Buf>, n: nat)
    requires Ordered(heap, base, swapped, cells, exited) && n in cells
    ensures ComesLast(heap, base, swapped, cells[n])
  {}

  lemma EmptyApart(p: seq<Elem>)
    ensures Apart(p, [])
  {}

  lemma SameRow(heap: Heap, heap': Heap, base: Buf, swapped: seq<Buf>, b: Buf)
    requires forall c :: Of(heap', c) == Of(heap, c)
    ensures ComesLast(heap', base, swapped, b) <==> ComesLast(heap, base, swapped, b)
  {
    hide Of, Earlier;
  }

  // a thread exits

  lemma MoveEffect(s: State, a: Step)
    requires SlotsAgree(s) && HoldersSafe(s) && Enabled(s, a) && a.Move?
    ensures var s', n := Next(s, a), s.writers[a.t].slot;
      && n in s.cells && s'.heap == s.heap && s'.cells == s.cells - {n} && s'.exited == s.exited + [s.cells[n]]
      && s'.base == s.base && s'.swapped == s.swapped && s'.writers == s.writers[a.t := Exited]
      && HoldersKeep(s, s')
      && OwnsSlot(s.writers, a.t, n)
  {}

  /** t is the only thread with slot n. */
  predicate OwnsSlot(w: map<Thread, Writer>, t: Thread, n: nat) {
    && t in w && HasCell(w[t]) && w[t].slot == n
    && forall u :: u in w && HasCell(w[u]) && w[u].slot == n ==> u == t
  }

  /** A buffer moved to the exited list keeps its single writer, who is now an exited thread. */
  lemma MoveWriters(heap: Heap, cells: map<nat, Buf>, exited: seq<Buf>, w: map<Thread, Writer>, t: Thread, n: nat)
    requires LiveWriters(heap, cells, w) && ExitedWriters(heap, exited, w) && OwnsSlot(w, t, n) && n in cells
    ensures LiveWriters(heap, cells - {n}, w[t := Exited])
    ensures ExitedWriters(heap, exited + [cells[n]], w[t := Exited])
  {
    hide Of;
    var exited', w', last := exited + [cells[n]], w[t := Exited], |exited|;
    forall e | e in Of(heap, cells[n]) ensures e.writer == t {}
    forall i, e | 0 <= i < |exited'| && e in Of(heap, exited'[i]) ensures e.writer in w' && w'[e.writer].Exited? {}
    forall i, j, e | 0 <= i < |exited'| && 0 <= j < |exited'| && i != j && e in Of(heap, exited'[i])
      ensures NoneOf(Of(heap, exited'[j]), e.writer)
    {}
  }

  lemma MoveOrdered(heap: Heap, base: Buf, swapped: seq<Buf>, cells: map<nat, Buf>, exited: seq<Buf>, n: nat)
    requires Ordered(heap, base, swapped, cells, exited) && n in cells
    ensures Ordered(heap, base, swapped, cells - {n}, exited + [cells[n]])
  {
    hide Of, Ascending, Earlier, ComesLast, SwappedOrder;
  }

  lemma MoveOrder(s: State, a: Step)
    requires Inv(s) && Enabled(s, a) && a.Move?
    ensures InOrder(Next(s, a))
  {
    MoveEffect(s, a);
    hide SlotsAgree, HoldersSafe, Owned, Conserved, Next, Enabled, OwnsSlot;
    hide Of, Ordered, LiveWriters, ExitedWriters, StragglersLast;
    var s', n := Next(s, a), s.writers[a.t].slot;
    MoveWriters(s.heap, s.cells, s.exited, s.writers, a.t, n);
    MoveOrdered(s.heap, s.base, s.swapped, s.cells, s.exited, n);
    StragglersKeep(s.heap, s'.heap, s.cells, s'.cells, s.swapped, s.writers, s'.writers);
  }

  // exchanging an exited buffer

  lemma ExitedApart(heap: Heap, cells: map<nat, Buf>, exited: seq<Buf>, w: map<Thread, Writer>, k: nat)
    requires LiveWriters(heap, cells, w) && ExitedWriters(heap, exited, w) && k < |exited|
    ensures forall n :: n in cells ==> Apart(Of(heap, exited[k]), Of(heap, cells[n]))
    ensures forall j :: 0 <= j < |exited| && j != k ==> Apart(Of(heap, exited[k]), Of(heap, exited[j]))
  {
    hide Of;
  }

  lemma ExitedOrdered(heap: Heap, base: Buf, swapped: seq<Buf>, cells: map<nat, Buf>, exited: seq<Buf>,
                      w: map<Thread, Writer>)
    requires Ordered(heap, base, swapped, cells, exited)
    requires LiveWriters(heap, cells, w) && ExitedWriters(heap, exited, w)
    requires exited != []
    ensures var last := |exited| - 1; Ordered(heap, base, swapped + [exited[last]], cells, exited[..last])
  {
    var last := |exited| - 1;
    ExitedApart(heap, cells, exited, w, last);
    FewerExited(heap, base, swapped, cells, exited, last);
    hide Of, Ordered, LiveWriters, ExitedWriters, Apart, ComesLast;
    JoinsSwapped(heap, base, swapped, cells, exited[..last], exited[last]);
  }

  lemma FewerExited(heap: Heap, base: Buf, swapped: seq<Buf>, cells: map<nat, Buf>, exited: seq<Buf>, k: nat)
    requires Ordered(heap, base, swapped, cells, exited) && k < |exited|
    ensures Ordered(heap, base, swapped, cells, exited[..k]) && ComesLast(heap, base, swapped, exited[k])
  {
    hide Of, Ascending, Earlier, ComesLast, SwappedOrder;
  }

  /** No holder writes to the buffer of an exited thread. */
  lemma ExitedStragglers(heap: Heap, cells: map<nat, Buf>, swapped: seq<Buf>, exited: seq<Buf>, w: map<Thread, Writer>)
    requires StragglersLast(heap, cells, swapped, w) && ExitedWriters(heap, exited, w) && exited != []
    requires HoldersIn(w, cells, swapped)
    ensures StragglersLast(heap, cells, swapped + [exited[|exited| - 1]], w)
  {
    hide Of;
    var b := exited[|exited| - 1];
    forall t | t in w && w[t].Holding? ensures Straggler(heap, cells, swapped + [b], t, w[t].slot, w[t].buf) {
      assert Straggler(heap, cells, swapped, t, w[t].slot, w[t].buf);
      assert NoneOf(Of(heap, b), t);
    }
  }

  lemma HoldersAreIn(s: State)
    requires HoldersSafe(s)
    ensures HoldersIn(s.writers, s.cells, s.swapped)
  {}

  lemma SwapExitedOrder(s: State, a: Step)
    requires Inv(s) && Enabled(s, a) && a.SwapExitedOne?
    ensures InOrder(Next(s, a))
  {
    hide SlotsAgree, HoldersSafe, Owned, Conserved;
    hide Of, Ordered, LiveWriters, ExitedWriters, StragglersLast, HoldersIn;
    HoldersAreIn(s);
    FewerExitedWriters(s.heap, s.exited, s.writers, |s.exited| - 1);
    ExitedOrdered(s.heap, s.base, s.swapped, s.cells, s.exited, s.writers);
    ExitedStragglers(s.heap, s.cells, s.swapped, s.exited, s.writers);
  }

  lemma FewerExitedWriters(heap: Heap, exited: seq<Buf>, w: map<Thread, Writer>, k: nat)
    requires ExitedWriters(heap, exited, w) && k <= |exited|
    ensures ExitedWriters(heap, exited[..k], w)
  {
    hide Of, NoneOf;
  }

  // handing out, merging and finishing

  /** Without exchanged buffers there is less to order. */
  lemma DropSwapped(heap: Heap, base: Buf, swapped: seq<Buf>, cells: map<nat, Buf>, exited: seq<Buf>)
    requires Ordered(heap, base, swapped, cells, exited)
    ensures Ordered(heap, base, [], cells, exited)
  {
    hide Of, Ascending, Earlier;
    forall n | n in cells ensures ComesLast(heap, base, [], cells[n]) {
      assert ComesLast(heap, base, swapped, cells[n]);
    }
    forall k | 0 <= k < |exited| ensures ComesLast(heap, base, [], exited[k]) {
      assert ComesLast(heap, base, swapped, exited[k]);
    }
  }

  lemma NoStragglers(heap: Heap, cells: map<nat, Buf>, swapped: seq<Buf>, w: map<Thread, Writer>)
    requires HoldersIn(w, cells, [])
    ensures StragglersLast(heap, cells, swapped, w)
  {}

  lemma SyncDoneOrder(s: State, a: Step)
    requires Inv(s) && Enabled(s, a) && a.SyncDone?
    ensures InOrder(Next(s, a))
  {
    hide SlotsAgree, HoldersSafe, Owned, Conserved;
    hide Of, Ordered, LiveWriters, ExitedWriters, StragglersLast, HoldersIn;
    NobodyHolds(s);
    DropSwapped(s.heap, s.base, s.swapped, s.cells, s.exited);
    NoStragglers(s.heap, s.cells, [], s.writers);
  }

  /** Once the grace period is over, every holder holds the current buffer of its thread. */
  lemma NobodyHolds(s: State)
    requires HoldersSafe(s) && (s.rot.Merging? || s.rot.Resting? || (s.rot.Syncing? && s.rot.waiting == {}))
    ensures HoldersIn(s.writers, s.cells, [])
  {}

  /** vector_wrapper::merge appends; each writer's order goes on. */
  lemma Appended(p: seq<Elem>, q: seq<Elem>)
    requires Ascending(p) && Ascending(q) && Earlier(p, q)
    ensures Ascending(p + q)
  {
    var r := p + q;
    forall i, j | 0 <= i < j < |r| && r[i].writer == r[j].writer ensures r[i].seqno < r[j].seqno {
      if i < |p| <= j { assert r[i] in p && r[j] in q; }
    }
  }

  lemma EarlierJoins(p: seq<Elem>, q: seq<Elem>, r: seq<Elem>)
    requires Earlier(p, r) && Earlier(q, r)
    ensures Earlier(p + q, r)
  {
    forall e, f | e in p + q && f in r && e.writer == f.writer ensures e.seqno < f.seqno {
      assert e in p || e in q;
    }
  }

  lemma MergeOrdered(heap: Heap, heap': Heap, base: Buf, swapped: seq<Buf>, cells: map<nat, Buf>, exited: seq<Buf>)
    requires Ordered(heap, base, swapped, cells, exited) && swapped != [] && base in heap && swapped[0] in heap
    requires heap' == heap[base := heap[base] + heap[swapped[0]]] - {swapped[0]}
    requires forall i :: 0 < i < |swapped| ==> swapped[i] != swapped[0]
    requires forall i :: 0 <= i < |swapped| ==> swapped[i] != base
    requires forall n :: n in cells ==> cells[n] != swapped[0] && cells[n] != base
    requires forall k :: 0 <= k < |exited| ==> exited[k] != swapped[0] && exited[k] != base
    ensures Ordered(heap', base, swapped[1..], cells, exited)
  {
    hide Earlier, Ascending;
    var b0, rest := swapped[0], swapped[1..];
    assert Of(heap', base) == Of(heap, base) + Of(heap, b0);
    assert forall c :: c != base && c != b0 ==> Of(heap', c) == Of(heap, c);
    Appended(heap[base], heap[b0]);
    hide Of;
    forall i | 0 <= i < |rest| ensures Earlier(Of(heap', base), Of(heap', rest[i])) {
      EarlierJoins(Of(heap, base), Of(heap, b0), Of(heap, swapped[i + 1]));
    }
    forall n | n in cells ensures ComesLast(heap', base, rest, cells[n]) {
      assert ComesLast(heap, base, swapped, cells[n]);
      EarlierJoins(Of(heap, base), Of(heap, b0), Of(heap, cells[n]));
    }
    forall k | 0 <= k < |exited| ensures ComesLast(heap', base, rest, exited[k]) {
      assert ComesLast(heap, base, swapped, exited[k]);
      EarlierJoins(Of(heap, base), Of(heap, b0), Of(heap, exited[k]));
    }
  }

  lemma SwappedDistinct(s: State)
    requires Owned(s)
    ensures forall i, j :: 0 <= i < j < |s.swapped| ==> s.swapped[i] != s.swapped[j]
    ensures forall i, k :: 0 <= i < |s.swapped| && 0 <= k < |s.exited| ==> s.exited[k] != s.swapped[i]
  {
    forall i, j | 0 <= i < j < |s.swapped| ensures s.swapped[i] != s.swapped[j] {
      if s.swapped[i] == s.swapped[j] {
        TwiceInSeq(s.swapped, i, j);
        InLists(s, s.swapped[i]);
        assert false;
      }
    }
    forall i, k | 0 <= i < |s.swapped| && 0 <= k < |s.exited| ensures s.exited[k] != s.swapped[i] {
      InLists(s, s.exited[k]);
      assert s.exited[k] in multiset(s.exited) && s.swapped[i] in multiset(s.swapped);
    }
  }

  lemma InLists(s: State, b: Buf)
    requires Owned(s)
    ensures multiset(s.exited)[b] + multiset(s.swapped)[b] + multiset(s.results)[b] <= 1
  {
    assert Lists(s)[b] == multiset(s.exited)[b] + multiset(s.swapped)[b] + multiset(s.results)[b];
    if Lists(s)[b] > 0 { assert b in Lists(s); }
  }

  lemma TwiceInSeq(q: seq<Buf>, i: nat, j: nat)
    requires i < j < |q| && q[i] == q[j]
    ensures multiset(q)[q[i]] >= 2
  {
    assert q == q[..j] + [q[j]] + q[j + 1..];
    assert q[i] in multiset(q[..j]) by { assert q[..j][i] == q[i]; }
  }

  lemma MergeEffect(s: State, a: Step)
    requires Owned(s) && Enabled(s, a) && a.MergeOne?
    ensures var s' := Next(s, a);
      && s.base in s.heap && s.swapped != [] && s.swapped[0] in s.heap
      && s'.heap == s.heap[s.base := s.heap[s.base] + s.heap[s.swapped[0]]] - {s.swapped[0]}
      && s'.swapped == s.swapped[1..] && s'.base == s.base && s'.cells == s.cells && s'.exited == s.exited
      && s'.writers == s.writers && KeepsOwners(s.writers, s'.writers) && s.rot.Merging?
  {
    hide Owned;
  }

  lemma MergedOf(heap: Heap, heap': Heap, base: Buf, b0: Buf)
    requires base in heap && b0 in heap && heap' == heap[base := heap[base] + heap[b0]] - {b0}
    ensures forall c :: c != base && c != b0 ==> Of(heap', c) == Of(heap, c)
  {}

  lemma MergeOrder(s: State, a: Step)
    requires Inv(s) && Enabled(s, a) && a.MergeOne?
    ensures InOrder(Next(s, a))
  {
    MergeEffect(s, a);
    OwnedExist(s);
    SwappedDistinct(s);
    hide SlotsAgree, HoldersSafe, Owned, Conserved, Next, Enabled, KeepsOwners;
    hide Of, Ordered, LiveWriters, ExitedWriters, StragglersLast, HoldersIn;
    var s' := Next(s, a);
    NobodyHolds(s);
    MergedOf(s.heap, s'.heap, s.base, s.swapped[0]);
    MergeOrdered(s.heap, s'.heap, s.base, s.swapped, s.cells, s.exited);
    LiveKeeps(s.heap, s'.heap, s.cells, s'.cells, s.writers, s'.writers);
    ExitedKeeps(s.heap, s'.heap, s.exited, s.writers, s'.writers);
    NoStragglers(s'.heap, s.cells, s'.swapped, s.writers);
  }

  lemma FreshBase(heap: Heap, base: Buf, cells: map<nat, Buf>, exited: seq<Buf>, fresh_: Buf)
    requires Ordered(heap, base, [], cells, exited) && fresh_ !in heap
    ensures Ordered(heap[fresh_ := []], fresh_, [], cells, exited)
  {
    hide Ascending, Earlier;
    var heap' := heap[fresh_ := []];
    EmptyFits([]);
    assert Of(heap', fresh_) == [];
    forall q: seq<Elem> ensures Earlier([], q) { EmptyFits(q); }
  }

  lemma FinishOrder(s: State, a: Step)
    requires Inv(s) && Enabled(s, a) && a.Finish?
    ensures InOrder(Next(s, a))
  {
    hide SlotsAgree, HoldersSafe, Owned, Conserved;
    hide Of, Ordered, LiveWriters, ExitedWriters, StragglersLast, HoldersIn, KeepsOwners;
    OwnedFacts(s);
    NobodyHolds(s);
    if s.rot.kind.CopyAndReset? {
      FreshSame(s.heap, s.next);
      FreshBase(s.heap, s.base, s.cells, s.exited, s.next);
      SameOwners(s.writers);
      LiveKeeps(s.heap, s.heap[s.next := []], s.cells, s.cells, s.writers, s.writers);
      ExitedKeeps(s.heap, s.heap[s.next := []], s.exited, s.writers, s.writers);
      NoStragglers(s.heap[s.next := []], s.cells, [], s.writers);
    }
  }

  lemma SameOwners(w: map<Thread, Writer>)
    ensures KeepsOwners(w, w)
  {}

  // an insert

  /** e was inserted after every stored element of its writer. */
  predicate Newest(heap: Heap, e: Elem) {
    forall c, f :: c in heap && f in heap[c] && f.writer == e.writer ==> f.seqno < e.seqno
  }

  lemma NewestEarlier(heap: Heap, b: Buf, c: Buf, e: Elem)
    requires Newest(heap, e) && Earlier(Of(heap, c), Of(heap, b)) && b in heap
    ensures Earlier(Of(heap, c), heap[b] + [e])
  {
    forall x, y | x in Of(heap, c) && y in heap[b] + [e] && x.writer == y.writer ensures x.seqno < y.seqno {
      assert y in heap[b] || y == e;
    }
  }

  lemma NewestAscending(heap: Heap, b: Buf, e: Elem)
    requires Newest(heap, e) && b in heap && Ascending(heap[b])
    ensures Ascending(heap[b] + [e])
  {
    var r := heap[b] + [e];
    forall i, j | 0 <= i < j < |r| && r[i].writer == r[j].writer ensures r[i].seqno < r[j].seqno {
      assert r[i] in heap[b];
    }
  }

  lemma NoneEarlier(p: seq<Elem>, q: seq<Elem>, e: Elem)
    requires Earlier(p, q) && NoneOf(q, e.writer)
    ensures Earlier(p + [e], q)
  {
    forall x, y | x in p + [e] && y in q && x.writer == y.writer ensures x.seqno < y.seqno {
      assert x in p || x == e;
    }
  }

  /** Nothing of e's writer lies behind buffer b. */
  predicate NothingBehind(heap: Heap, swapped: seq<Buf>, cells: map<nat, Buf>, exited: seq<Buf>, b: Buf, t: Thread) {
    && (forall i, j :: 0 <= i < j < |swapped| && swapped[i] == b ==> NoneOf(Of(heap, swapped[j]), t))
    && (b in swapped ==> forall n :: n in cells ==> NoneOf(Of(heap, cells[n]), t))
    && (b in swapped ==> forall k :: 0 <= k < |exited| ==> NoneOf(Of(heap, exited[k]), t))
  }

  /** Two buffers that were in order still are after e was appended to one of them. */
  lemma PushPair(heap: Heap, heap': Heap, b: Buf, e: Elem, c: Buf, d: Buf)
    requires b in heap && heap' == heap[b := heap[b] + [e]] && Newest(heap, e)
    requires Earlier(Of(heap, c), Of(heap, d)) && c != d && (c == b ==> NoneOf(Of(heap, d), e.writer))
    ensures Earlier(Of(heap', c), Of(heap', d))
  {
    hide Earlier, Newest, NoneOf;
    if d == b { NewestEarlier(heap, b, c, e); }
    if c == b { NoneEarlier(heap[b], Of(heap, d), e); }
  }

  lemma PushLast(heap: Heap, heap': Heap, b: Buf, e: Elem, base: Buf, swapped: seq<Buf>, d: Buf)
    requires b in heap && heap' == heap[b := heap[b] + [e]] && Newest(heap, e)
    requires ComesLast(heap, base, swapped, d) && b != base && d != base && d !in swapped
    requires b in swapped ==> NoneOf(Of(heap, d), e.writer)
    ensures ComesLast(heap', base, swapped, d)
  {
    hide Earlier, Newest, NoneOf, Of;
    PushPair(heap, heap', b, e, base, d);
    forall i | 0 <= i < |swapped| ensures Earlier(Of(heap', swapped[i]), Of(heap', d)) {
      PushPair(heap, heap', b, e, swapped[i], d);
    }
  }

  lemma PushOrdered(heap: Heap, heap': Heap, b: Buf, e: Elem, base: Buf, swapped: seq<Buf>, cells: map<nat, Buf>,
                    exited: seq<Buf>)
    requires Ordered(heap, base, swapped, cells, exited) && b in heap && heap' == heap[b := heap[b] + [e]]
    requires Newest(heap, e) && NothingBehind(heap, swapped, cells, exited, b, e.writer) && b != base
    requires forall i, j :: 0 <= i < j < |swapped| ==> swapped[i] != swapped[j]
    requires forall i :: 0 <= i < |swapped| ==> swapped[i] != base
    requires forall n :: n in cells ==> cells[n] != base && cells[n] !in swapped
    requires forall k :: 0 <= k < |exited| ==> exited[k] != base && exited[k] !in swapped
    ensures Ordered(heap', base, swapped, cells, exited)
  {
    hide Earlier, Ascending, Newest, NoneOf, Of, ComesLast;
    NewestAscending(heap, b, e);
    forall i | 0 <= i < |swapped| ensures Earlier(Of(heap', base), Of(heap', swapped[i])) {
      PushPair(heap, heap', b, e, base, swapped[i]);
    }
    forall i, j | 0 <= i < j < |swapped| ensures Earlier(Of(heap', swapped[i]), Of(heap', swapped[j])) {
      PushPair(heap, heap', b, e, swapped[i], swapped[j]);
    }
    forall n | n in cells ensures ComesLast(heap', base, swapped, cells[n]) {
      PushLast(heap, heap', b, e, base, swapped, cells[n]);
    }
    forall k | 0 <= k < |exited| ensures ComesLast(heap', base, swapped, exited[k]) {
      PushLast(heap, heap', b, e, base, swapped, exited[k]);
    }
  }

  lemma PushWriters(heap: Heap, heap': Heap, b: Buf, e: Elem, swapped: seq<Buf>, cells: map<nat, Buf>,
                    exited: seq<Buf>, w: map<Thread, Writer>)
    requires LiveWriters(heap, cells, w) && ExitedWriters(heap, exited, w) && StragglersLast(heap, cells, swapped, w)
    requires b in heap && heap' == heap[b := heap[b] + [e]]
    requires e.writer in w && w[e.writer].Holding? && w[e.writer].buf == b
    requires forall n :: n in cells && cells[n] == b ==> w[e.writer].slot == n
    requires b !in exited
    requires forall i, j :: 0 <= i < j < |swapped| ==> swapped[i] != swapped[j]
    requires forall u :: u in w && w[u].Holding? && u != e.writer ==> w[u].slot != w[e.writer].slot
    ensures LiveWriters(heap', cells, w) && ExitedWriters(heap', exited, w) && StragglersLast(heap', cells, swapped, w)
  {
    assert forall c :: c != b ==> Of(heap', c) == Of(heap, c);
    assert forall f :: f in Of(heap', b) ==> f in Of(heap, b) || f == e;
    hide Of;
    forall i, j, f | 0 <= i < |exited| && 0 <= j < |exited| && i != j && f in Of(heap', exited[i])
      ensures NoneOf(Of(heap', exited[j]), f.writer)
    {
      assert exited[i] in exited && exited[j] in exited;
    }
    forall u | u in w && w[u].Holding? ensures Straggler(heap', cells, swapped, u, w[u].slot, w[u].buf) {
      assert Straggler(heap, cells, swapped, u, w[u].slot, w[u].buf);
    }
  }

  lemma PushBehind(heap: Heap, swapped: seq<Buf>, cells: map<nat, Buf>, exited: seq<Buf>, w: map<Thread, Writer>,
                   t: Thread, b: Buf)
    requires LiveWriters(heap, cells, w) && ExitedWriters(heap, exited, w) && StragglersLast(heap, cells, swapped, w)
    requires t in w && w[t].Holding? && w[t].buf == b && w[t].slot in cells
    requires forall n :: n in cells ==> cells[n] !in swapped
    ensures NothingBehind(heap, swapped, cells, exited, b, t)
  {
    hide Of;
    assert Straggler(heap, cells, swapped, t, w[t].slot, b);
    if b in swapped {
      forall n | n in cells ensures NoneOf(Of(heap, cells[n]), t) {}
      forall k | 0 <= k < |exited| ensures NoneOf(Of(heap, exited[k]), t) {}
    } else {
      forall i | 0 <= i < |swapped| ensures swapped[i] != b {}
    }
  }

  lemma PushEffect(s: State, a: Step)
    requires SlotsAgree(s) && Owned(s) && HoldersSafe(s) && Conserved(s) && Enabled(s, a) && a.Push?
    ensures var s', b, e := Next(s, a), s.writers[a.t].buf, Elem(a.t, s.pushed[a.t]);
      && b in s.heap && s'.heap == s.heap[b := s.heap[b] + [e]] && s'.swapped == s.swapped && s'.base == s.base
      && s'.cells == s.cells && s'.exited == s.exited && s'.writers == s.writers
      && s.writers[a.t].slot in s.cells && b != s.base && b !in s.exited
      && (forall n :: n in s.cells && s.cells[n] == b ==> s.writers[a.t].slot == n)
      && (forall u :: u in s.writers && s.writers[u].Holding? && u != a.t ==> s.writers[u].slot != s.writers[a.t].slot)
      && Newest(s.heap, e)
  {
    OwnedExist(s);
    SwappedDistinct(s);
    assert forall m, n :: m in s.cells && n in s.cells && m != n ==> s.cells[m] != s.cells[n];
    NewestOfWriter(s, a.t);
    hide Owned, Newest, Conserved;
  }

  lemma NewestOfWriter(s: State, t: Thread)
    requires Conserved(s) && t in s.pushed
    ensures Newest(s.heap, Elem(t, s.pushed[t]))
  {
    forall c, f | c in s.heap && f in s.heap[c] && f.writer == t ensures f.seqno < s.pushed[t] {
      assert Counted(s, f);
    }
  }

  lemma PushOrder(s: State, a: Step)
    requires Inv(s) && Enabled(s, a) && a.Push?
    ensures InOrder(Next(s, a))
  {
    PushEffect(s, a);
    OwnedExist(s);
    SwappedDistinct(s);
    hide SlotsAgree, HoldersSafe, Owned, Conserved, Next, Enabled;
    hide Of, Ordered, LiveWriters, ExitedWriters, StragglersLast, Newest, NothingBehind;
    var s', b, e := Next(s, a), s.writers[a.t].buf, Elem(a.t, s.pushed[a.t]);
    PushWriters(s.heap, s'.heap, b, e, s.swapped, s.cells, s.exited, s.writers);
    PushBehind(s.heap, s.swapped, s.cells, s.exited, s.writers, a.t, b);
    PushOrdered(s.heap, s'.heap, b, e, s.base, s.swapped, s.cells, s.exited);
  }

  lemma OrderStep(s: State, a: Step)
    requires Inv(s) && Enabled(s, a)
    ensures InOrder(Next(s, a))
  {
    hide *;
    match a
    case Create(_) => CreateOrder(s, a);
    case Push(_) => PushOrder(s, a);
    case Move(_) => MoveOrder(s, a);
    case SwapOne(_) => SwapOneOrder(s, a);
    case SwapExitedOne => SwapExitedOrder(s, a);
    case SyncDone => SyncDoneOrder(s, a);
    case MergeOne => MergeOrder(s, a);
    case Finish => FinishOrder(s, a);
    case Pick(_, _) => StillIs(a); StillOrder(s, a);
    case Lock(_) => StillIs(a); StillOrder(s, a);
    case Deref(_) => StillIs(a); StillOrder(s, a);
    case Unlock(_) => StillIs(a); StillOrder(s, a);
    case Free(_) => StillIs(a); StillOrder(s, a);
    case Start(_) => StillIs(a); StillOrder(s, a);
    case EndLive => StillIs(a); StillOrder(s, a);
    case BeginExited => StillIs(a); StillOrder(s, a);
    case EndExited => StillIs(a); StillOrder(s, a);
    case BeginSync => StillIs(a); StillOrder(s, a);
  }

  lemma StillIs(a: Step)
    requires !a.Create? && !a.Push? && !a.Move? && !a.SwapOne? && !a.SwapExitedOne? && !a.SyncDone?
    requires !a.MergeOne? && !a.Finish?
    ensures Still(a)
  {}

  lemma InvStep(s: State, a: Step)
    requires Inv(s) && Enabled(s, a)
    ensures Inv(Next(s, a))
  {
    hide SlotsAgree, Owned, HoldersSafe, Conserved, InOrder, Next, Enabled;
    SlotsStep(s, a);
    OwnedStep(s, a);
    if ThreadStep(a) { HoldersThreadStep(s, a); } else { HoldersRotatorStep(s, a); }
    ConservedStep(s, a);
    OrderStep(s, a);
  }

  // ----- what a rotation returns

  /** Where an element that was there when the rotation began may still be. */
  predicate Collected(s: State, b: Buf) {
    || b == s.base || b in s.results || b in s.swapped
    || (b in s.exited && (s.rot.SwapLive? || s.rot.Between? || s.rot.SwapExited?))
    || (s.rot.SwapLive? && exists n :: n in s.cells && s.cells[n] == b && s.rot.cursor <= n)
  }

  ghost predicate Collecting(s: State) {
    !s.rot.Resting? ==>
      && (forall e :: e in s.rot.before ==> Counted(s, e))
      && (forall b, e :: b in s.heap && e in s.heap[b] && e in s.rot.before ==> Collected(s, b))
  }

  lemma StartCollects(s: State, a: Step)
    requires Inv(s) && Enabled(s, a) && a.Start?
    ensures Collecting(Next(s, a))
  {
    var s' := Next(s, a);
    forall b, e | b in s'.heap && e in s'.heap[b] ensures Collected(s', b) {
      if b in s.cells.Values {
        var n :| n in s.cells && s.cells[n] == b;
        assert n in s'.cells && s'.cells[n] == b && 0 <= n;
      }
    }
  }

  /** What a step may do with the elements that count: keep their buffer or merge it into the base. */
  ghost predicate KeepsBefore(s: State, s': State)
    requires !s.rot.Resting?
  {
    && (forall e :: e in s.rot.before ==> Counted(s', e))
    && (forall b, e :: b in s'.heap && e in s'.heap[b] && e in s.rot.before ==>
          (b in s.heap && e in s.heap[b]) || b == s'.base)
  }

  lemma StillCollects(s: State, a: Step)
    requires Inv(s) && Enabled(s, a) && !s.rot.Resting? && Collecting(s)
    ensures KeepsBefore(s, Next(s, a))
  {
    hide InOrder, HoldersSafe, Conserved;
    if a.Push? {
      PushCollects(s, a);
    } else if !a.MergeOne? {
      GrowsOtherwise(s, a);
    }
  }

  /** A pushed element was not there when the rotation started. */
  lemma PushCollects(s: State, a: Step)
    requires Inv(s) && Enabled(s, a) && a.Push? && !s.rot.Resting? && Collecting(s)
    ensures KeepsBefore(s, Next(s, a))
  {
    hide InOrder, HoldersSafe, Conserved;
    var s', b, new_ := Next(s, a), s.writers[a.t].buf, Elem(a.t, s.pushed[a.t]);
    assert !Counted(s, new_);
    forall c, e | c in s'.heap && e in s'.heap[c] && e in s.rot.before ensures c in s.heap && e in s.heap[c] {
      assert Counted(s, e);
      if c == b { assert e in s.heap[b] + [new_]; }
    }
  }

  /** The places from which a running rotation still collects never lose a buffer, except into the base. */
  lemma CollectedThreadStep(s: State, a: Step, b: Buf)
    requires SlotsAgree(s) && Enabled(s, a) && !s.rot.Resting? && Collected(s, b) && ThreadStep(a)
    ensures Collected(Next(s, a), b) || b !in Next(s, a).heap
  {
    if !a.Create? && !a.Move? {
      RotatorUntouched(s, a);
      hide Next, Enabled, SlotsAgree;
    }
  }

  lemma RotatorUntouched(s: State, a: Step)
    requires Enabled(s, a) && ThreadStep(a) && !a.Create? && !a.Move? && !s.rot.Resting?
    ensures var s' := Next(s, a);
      && s'.base == s.base && s'.results == s.results && s'.swapped == s.swapped && s'.exited == s.exited
      && s'.cells == s.cells && s'.rot.SwapLive? == s.rot.SwapLive? && s'.rot.Between? == s.rot.Between?
      && s'.rot.SwapExited? == s.rot.SwapExited? && (s.rot.SwapLive? ==> s'.rot.cursor == s.rot.cursor)
  {}

  lemma CollectedRotatorStep(s: State, a: Step, b: Buf)
    requires Enabled(s, a) && !s.rot.Resting? && Collected(s, b) && !ThreadStep(a)
    ensures var s' := Next(s, a); Collected(s', b) || b !in s'.heap || s'.rot.Resting?
  {
    var s' := Next(s, a);
    if a.SwapExitedOne? {
      assert s.exited == s.exited[..|s.exited| - 1] + [s.exited[|s.exited| - 1]];
    } else if a.MergeOne? {
      assert s.swapped == [s.swapped[0]] + s.swapped[1..];
    } else if a.SwapOne? && exists n :: n in s.cells && s.cells[n] == b && s.rot.cursor <= n {
      var n :| n in s.cells && s.cells[n] == b && s.rot.cursor <= n;
      assert n == a.slot || (n in s'.cells && s'.cells[n] == b && a.slot + 1 <= n);
    }
  }

  lemma SameBefore(s: State, a: Step)
    requires Enabled(s, a) && !s.rot.Resting?
    ensures Next(s, a).rot.Resting? || Next(s, a).rot.before == s.rot.before
  {}

  lemma RunningCollects(s: State, a: Step)
    requires Inv(s) && Collecting(s) && Enabled(s, a) && !s.rot.Resting? && !Next(s, a).rot.Resting?
    ensures Collecting(Next(s, a))
  {
    hide SlotsAgree, Owned, HoldersSafe, Conserved, InOrder, Next, Enabled, Counted, Collected, ThreadStep;
    var s' := Next(s, a);
    StillCollects(s, a);
    SameBefore(s, a);
    forall b, e | b in s'.heap && e in s'.heap[b] && e in s'.rot.before ensures Collected(s', b) {
      if b == s'.base {
        BaseCollected(s');
      } else if ThreadStep(a) {
        CollectedThreadStep(s, a, b);
      } else {
        CollectedRotatorStep(s, a, b);
      }
    }
  }

  lemma CollectingStep(s: State, a: Step)
    requires Inv(s) && Collecting(s) && Enabled(s, a)
    ensures Collecting(Next(s, a))
  {
    hide *;
    if a.Start? {
      StartCollects(s, a);
    } else if s.rot.Resting? {
      StaysResting(s, a);
      RestingCollects(Next(s, a));
    } else if Next(s, a).rot.Resting? {
      RestingCollects(Next(s, a));
    } else {
      RunningCollects(s, a);
    }
  }

  lemma RestingCollects(s: State)
    requires s.rot.Resting?
    ensures Collecting(s)
  {}

  lemma BaseCollected(s: State)
    ensures Collected(s, s.base)
  {}

  lemma StaysResting(s: State, a: Step)
    requires Enabled(s, a) && s.rot.Resting? && !a.Start?
    ensures Next(s, a).rot.Resting?
  {}

  // ----- every run

  function Init(): State {
    State(map[0 := []], 1, map[], map[], {}, {}, map[], [], [], 0, [], Resting)
  }

  /** Some run of the given steps leads from the start to s. */
  ghost predicate Reaches(steps: seq<Step>, s: State)
    decreases |steps|
  {
    if steps == [] then s == Init()
    else
      var a, rest := steps[|steps| - 1], steps[..|steps| - 1];
      exists p :: Reaches(rest, p) && Enabled(p, a) && s == Next(p, a)
  }

  lemma {:induction false} RunsKeep(steps: seq<Step>, s: State)
    requires Reaches(steps, s)
    ensures Inv(s) && Collecting(s)
    decreases |steps|
  {
    if steps != [] {
      var a, rest := steps[|steps| - 1], steps[..|steps| - 1];
      var p :| Reaches(rest, p) && Enabled(p, a) && s == Next(p, a);
      RunsKeep(rest, p);
      hide Inv, Collecting, Next, Enabled;
      InvStep(p, a);
      CollectingStep(p, a);
    }
  }

  /** How many places own a buffer. */
  function Owners(s: State, b: Buf): nat {
    (if b == s.base then 1 else 0) + |set n | n in s.cells && s.cells[n] == b| + Lists(s)[b]
  }

  /** In every reachable state each inserted element lies in exactly one buffer, that buffer has exactly one owner,
      and nothing is stored that was not inserted. */
  lemma NothingLostOrDuplicated(steps: seq<Step>, s: State)
    requires Reaches(steps, s)
    ensures forall e :: e in Inserted(s) <==> Stored(s, e)
    ensures forall b, c, e :: b in s.heap && c in s.heap && e in s.heap[b] && e in s.heap[c] ==> b == c
    ensures forall b, i, j :: b in s.heap && 0 <= i < j < |s.heap[b]| ==> s.heap[b][i] != s.heap[b][j]
    ensures forall b :: b in s.heap ==> Owners(s, b) == 1
  {
    hide Reaches, SlotsAgree, Owned, HoldersSafe, Conserved, InOrder, Collecting, Owners, Stored, Inserted;
    RunsKeep(steps, s);
    InsertedAreStored(s);
    StoredOnce(s);
    forall b | b in s.heap ensures Owners(s, b) == 1 { OneOwner(s, b); }
  }

  lemma InsertedAreStored(s: State)
    requires Conserved(s)
    ensures forall e :: e in Inserted(s) <==> Stored(s, e)
  {
    forall e ensures e in Inserted(s) <==> Stored(s, e) {
      assert e in Inserted(s) <==> Counted(s, e);
    }
  }

  lemma StoredOnce(s: State)
    requires Conserved(s) && InOrder(s)
    ensures forall b, c, e :: b in s.heap && c in s.heap && e in s.heap[b] && e in s.heap[c] ==> b == c
    ensures forall b, i, j :: b in s.heap && 0 <= i < j < |s.heap[b]| ==> s.heap[b][i] != s.heap[b][j]
  {
    hide LiveWriters, ExitedWriters, StragglersLast, SwappedOrder, ComesLast, Counted, Stored;
    assert forall b :: b in s.heap ==> Ascending(s.heap[b]);
  }

  lemma OneOwner(s: State, b: Buf)
    requires Owned(s) && b in s.heap
    ensures Owners(s, b) == 1
  {
    hide Lists;
    var owners := set n | n in s.cells && s.cells[n] == b;
    if b in s.cells.Values {
      var m :| m in s.cells && s.cells[m] == b;
      assert owners == {m};
    } else {
      assert forall n :: n in s.cells ==> s.cells[n] in s.cells.Values;
      assert owners == {};
    }
  }

  /** A writer inside its section never writes to a buffer that is being merged, has been merged or handed out,
      and finds the pointer it needs. */
  lemma WritersAreSafe(steps: seq<Step>, s: State, t: Thread)
    requires Reaches(steps, s) && t in s.writers
    ensures s.writers[t].Locked? ==> Enabled(s, Deref(t))
    ensures s.writers[t].Holding? ==> Enabled(s, Push(t))
    ensures s.writers[t].Holding? ==>
      s.writers[t].buf != s.base && s.writers[t].buf !in s.results && s.writers[t].buf !in s.exited
    ensures s.writers[t].Holding? && s.rot.Merging? ==> s.writers[t].buf !in s.swapped
    ensures s.writers[t].Holding? && Enabled(s, SyncDone) ==> s.writers[t].buf !in s.swapped
  {
    hide SlotsAgree, Owned, HoldersSafe, Conserved, InOrder, Enabled, Reaches, Collecting;
    RunsKeep(steps, s);
    WriterIsSafe(s, t);
  }

  lemma WriterIsSafe(s: State, t: Thread)
    requires SlotsAgree(s) && Owned(s) && HoldersSafe(s) && t in s.writers
    ensures s.writers[t].Locked? ==> Enabled(s, Deref(t))
    ensures s.writers[t].Holding? ==> Enabled(s, Push(t))
    ensures s.writers[t].Holding? ==>
      s.writers[t].buf != s.base && s.writers[t].buf !in s.results && s.writers[t].buf !in s.exited
    ensures s.writers[t].Holding? && s.rot.Merging? ==> s.writers[t].buf !in s.swapped
    ensures s.writers[t].Holding? && Enabled(s, SyncDone) ==> s.writers[t].buf !in s.swapped
  {
    hide Owned;
    OwnedExist(s);
    ListsApart(s);
    assert s.writers[t].Holding? ==> s.writers[t].slot in s.cells;
  }

  /** The lists share no buffer, and no live buffer is in a list. */
  lemma ListsApart(s: State)
    requires Owned(s)
    ensures forall b :: b in s.swapped ==> b !in s.results && b !in s.exited
    ensures forall n :: n in s.cells ==> s.cells[n] !in s.results && s.cells[n] !in s.exited && s.cells[n] !in s.swapped
  {
    forall b | b in s.swapped ensures b !in s.results && b !in s.exited {
      assert b in multiset(s.swapped);
      assert Lists(s)[b] == multiset(s.exited)[b] + multiset(s.swapped)[b] + multiset(s.results)[b];
    }
    forall n | n in s.cells ensures s.cells[n] !in s.results && s.cells[n] !in s.exited && s.cells[n] !in s.swapped {
      assert s.cells[n] !in Lists(s);
    }
  }

  /** Everything readers get keeps the order of each writer's inserts. */
  lemma ResultsInOrder(steps: seq<Step>, s: State)
    requires Reaches(steps, s)
    ensures s.base in s.heap && Ascending(s.heap[s.base])
    ensures forall i :: 0 <= i < |s.results| ==> s.results[i] in s.heap && Ascending(s.heap[s.results[i]])
  {
    RunsKeep(steps, s);
    forall i | 0 <= i < |s.results| ensures s.results[i] in s.heap {
      assert s.results[i] in multiset(s.results);
      assert s.results[i] in Lists(s);
    }
  }

  /** What the call that ends between s and s' gives to its caller: now() a pointer to the base, get_copy_and_reset()
      the base itself, and get_unmerged_and_reset() the exchanged objects. */
  function Returned(s: State, s': State, kind: Kind): set<Buf>
    requires |s.results| <= |s'.results|
  {
    if kind.Now? then {s'.base} else set b | b in s'.results[|s.results|..]
  }

  /** e has reached a reader: it was handed out before or is in what the call returns; objects that are not merged leave
      what earlier calls merged in the base. */
  predicate Delivered(s: State, s': State, kind: Kind, e: Elem)
    requires |s.results| <= |s'.results|
  {
    exists b :: b in s'.heap && e in s'.heap[b] &&
      (b in s.results || b in Returned(s, s', kind) || (kind.Unmerged? && b == s.base == s'.base))
  }

  /** A rotation returns everything that had been inserted when it began. */
  lemma RotationReturnsAll(steps: seq<Step>, s: State, a: Step, e: Elem)
    requires Reaches(steps, s) && Enabled(s, a) && !s.rot.Resting? && Next(s, a).rot.Resting?
    requires e in s.rot.before
    ensures |s.results| <= |Next(s, a).results| && Delivered(s, Next(s, a), s.rot.kind, e)
  {
    hide Reaches, InOrder, Owned, HoldersSafe, SlotsAgree, Conserved, Next, Enabled, Collected, Collecting;
    RunsKeep(steps, s);
    var b := WhereCollected(s, e);
    OwnedFacts(s);
    LastStep(s, a, b);
  }

  lemma WhereCollected(s: State, e: Elem) returns (b: Buf)
    requires Conserved(s) && Collecting(s) && !s.rot.Resting? && e in s.rot.before
    ensures b in s.heap && e in s.heap[b] && Collected(s, b)
  {
    assert Counted(s, e);
    assert Stored(s, e);
    hide Counted;
    b :| b in s.heap && e in s.heap[b];
  }

  lemma LastStep(s: State, a: Step, b: Buf)
    requires Enabled(s, a) && !s.rot.Resting? && Next(s, a).rot.Resting? && Collected(s, b)
    requires b in s.heap && s.next !in s.heap
    ensures var s' := Next(s, a);
      && |s.results| <= |s'.results| && b in s'.heap && s'.heap[b] == s.heap[b]
      && (b in s.results || b in Returned(s, s', s.rot.kind) || (s.rot.kind.Unmerged? && b == s.base == s'.base))
  {
    var s' := Next(s, a);
    if a.SyncDone? {
      assert s'.results[|s.results|..] == s.swapped;
    } else if a.Finish? && s.rot.kind.CopyAndReset? {
      assert s'.results[|s.results|..] == [s.base];
    }
  }

  /** The steps lead from s to s' within one rotation. */
  ghost predicate Rotates(s: State, steps: seq<Step>, s': State)
    decreases |steps|
  {
    !s'.rot.Resting? &&
    if steps == [] then s' == s
    else
      var a, rest := steps[|steps| - 1], steps[..|steps| - 1];
      exists p :: Rotates(s, rest, p) && Enabled(p, a) && s' == Next(p, a)
  }

  lemma {:induction false} SameRotation(start: seq<Step>, s: State, steps: seq<Step>, s': State)
    requires Reaches(start, s) && !s.rot.Resting? && Rotates(s, steps, s')
    ensures Reaches(start + steps, s') && s'.rot.kind == s.rot.kind && s'.rot.before == s.rot.before
    decreases |steps|
  {
    hide Reaches, Next, Enabled, Rotates;
    var p := InFront(s, steps, s');
    if steps == [] {
      assert start + steps == start;
    } else {
      var a, rest := steps[|steps| - 1], steps[..|steps| - 1];
      SameRotation(start, s, rest, p);
      Extend(start + rest, p, a);
      assert start + rest + [a] == start + steps;
      KindStays(p, a);
    }
  }

  /** The state in front of the last step, if there is one. */
  lemma InFront(s: State, steps: seq<Step>, s': State) returns (p: State)
    requires Rotates(s, steps, s')
    ensures !s'.rot.Resting? && (steps == [] ==> s' == s)
    ensures steps != [] ==>
      var a, rest := steps[|steps| - 1], steps[..|steps| - 1];
      Rotates(s, rest, p) && !p.rot.Resting? && Enabled(p, a) && s' == Next(p, a)
  {
    hide Enabled, Next;
    p := s;
    if steps != [] {
      var a, rest := steps[|steps| - 1], steps[..|steps| - 1];
      p :| Rotates(s, rest, p) && Enabled(p, a) && s' == Next(p, a);
    }
  }

  lemma KindStays(s: State, a: Step)
    requires Enabled(s, a) && !s.rot.Resting? && !Next(s, a).rot.Resting?
    ensures Next(s, a).rot.kind == s.rot.kind && Next(s, a).rot.before == s.rot.before
  {}

  lemma Extend(steps: seq<Step>, s: State, a: Step)
    requires Reaches(steps, s) && Enabled(s, a)
    ensures Reaches(steps + [a], Next(s, a))
  {
    var longer := steps + [a];
    assert longer[..|longer| - 1] == steps && longer[|longer| - 1] == a;
  }

  lemma Begins(s: State, kind: Kind)
    requires Enabled(s, Start(kind))
    ensures var r := Next(s, Start(kind)).rot; !r.Resting? && r.kind == kind && r.before == Inserted(s)
  {}

  /** Whatever was inserted before a call began has reached a reader when it returns: the object the call returns, or
      one that was handed out before. */
  lemma CallReturnsInserted(start: seq<Step>, s: State, kind: Kind, steps: seq<Step>, s': State, a: Step, e: Elem)
    requires Reaches(start, s) && Enabled(s, Start(kind)) && Rotates(Next(s, Start(kind)), steps, s')
    requires Enabled(s', a) && Next(s', a).rot.Resting? && e in Inserted(s)
    ensures |s'.results| <= |Next(s', a).results| && Delivered(s', Next(s', a), kind, e)
  {
    hide Next, Enabled, Reaches, Inserted, Delivered;
    var p := Next(s, Start(kind));
    Begins(s, kind);
    Extend(start, s, Start(kind));
    SameRotation(start + [Start(kind)], p, steps, s');
    RotationReturnsAll(start + [Start(kind)] + steps, s', a, e);
  }

  // ----- inserts and progress

  function Pushes(steps: seq<Step>, t: Thread): nat {
    if steps == [] then 0 else Pushes(steps[..|steps| - 1], t) + if steps[|steps| - 1] == Push(t) then 1 else 0
  }

  lemma BeforeLast(steps: seq<Step>, s: State) returns (p: State)
    requires Reaches(steps, s) && steps != []
    ensures var a, rest := steps[|steps| - 1], steps[..|steps| - 1];
      Reaches(rest, p) && Enabled(p, a) && s == Next(p, a)
  {
    hide Enabled, Next;
    var a, rest := steps[|steps| - 1], steps[..|steps| - 1];
    p :| Reaches(rest, p) && Enabled(p, a) && s == Next(p, a);
  }

  lemma NothingPushed(s: State, e: Elem)
    requires Reaches([], s)
    ensures e !in Inserted(s) && e.writer !in s.writers && Pushes([], e.writer) == 0
  {}

  lemma PushesLast(steps: seq<Step>, t: Thread)
    requires steps != []
    ensures Pushes(steps, t) ==
      Pushes(steps[..|steps| - 1], t) + if steps[|steps| - 1] == Push(t) then 1 else 0
  {}

  /** What a run inserted is what its insert steps say. */
  lemma {:induction false} PushesTell(steps: seq<Step>, s: State, e: Elem)
    requires Reaches(steps, s)
    ensures e in Inserted(s) <==> e.seqno < Pushes(steps, e.writer)
    ensures e.writer in s.writers ==> e.writer in s.pushed && s.pushed[e.writer] == Pushes(steps, e.writer)
    ensures e.writer !in s.writers ==> Pushes(steps, e.writer) == 0
    decreases |steps|
  {
    hide *;
    if steps == [] {
      NothingPushed(s, e);
    } else {
      var a, rest := steps[|steps| - 1], steps[..|steps| - 1];
      var p := BeforeLast(steps, s);
      RunsKeep(rest, p);
      SameKeys(p);
      PushesTell(rest, p, e);
      PushedStep(p, a, e.writer);
      PushesLast(steps, e.writer);
    }
    InsertedIs(s, e);
  }

  lemma SameKeys(s: State)
    requires Inv(s)
    ensures s.pushed.Keys == s.writers.Keys
  {
    hide Owned, HoldersSafe, Conserved, InOrder;
  }

  lemma InsertedIs(s: State, e: Elem)
    ensures e in Inserted(s) <==> e.writer in s.pushed && e.seqno < s.pushed[e.writer]
  {}

  lemma PushedStep(s: State, a: Step, t: Thread)
    requires Enabled(s, a) && s.pushed.Keys == s.writers.Keys
    ensures var s' := Next(s, a);
      && s'.pushed.Keys == s'.writers.Keys && (t in s.writers ==> t in s'.writers)
      && (t in s'.writers ==>
            s'.pushed[t] == (if t in s.writers then s.pushed[t] else 0) + if a == Push(t) then 1 else 0)
      && (a == Push(t) ==> t in s.writers)
  {
    match a {
      case Push(_) =>
      case Pick(_, _) =>
      case _ =>
    }
  }

  /** A rotation waits for writers in their sections only. */
  predicate WaitsForReaders(s: State) {
    s.rot.Syncing? ==> forall t :: t in s.rot.waiting ==> t in s.writers && InSection(s.writers[t])
  }

  lemma StepWaits(s: State, a: Step)
    requires WaitsForReaders(s) && Enabled(s, a)
    ensures WaitsForReaders(Next(s, a))
  {}

  lemma {:induction false} RunsWait(steps: seq<Step>, s: State)
    requires Reaches(steps, s)
    ensures WaitsForReaders(s)
    decreases |steps|
  {
    if steps != [] {
      var a, rest := steps[|steps| - 1], steps[..|steps| - 1];
      var p :| Reaches(rest, p) && Enabled(p, a) && s == Next(p, a);
      hide Next, Enabled, WaitsForReaders;
      RunsWait(rest, p);
      StepWaits(p, a);
    }
  }

  /** A rotation has a step, or waits for writers that are inside their sections and can leave them. */
  lemma RotationGoesOn(steps: seq<Step>, s: State) returns (a: Step)
    requires Reaches(steps, s) && !s.rot.Resting?
    ensures Enabled(s, a)
    ensures !ThreadStep(a) || (s.rot.Syncing? && (a.Deref? || a.Unlock?) && a.t in s.rot.waiting)
  {
    hide Reaches, InOrder, Collecting, Conserved, SlotsAgree, Owned, HoldersSafe, Enabled, WaitsForReaders;
    RunsKeep(steps, s);
    RunsWait(steps, s);
    a := RotatorStep(s);
  }

  lemma RotatorStep(s: State) returns (a: Step)
    requires SlotsAgree(s) && Owned(s) && WaitsForReaders(s) && !s.rot.Resting?
    ensures Enabled(s, a)
    ensures !ThreadStep(a) || (s.rot.Syncing? && (a.Deref? || a.Unlock?) && a.t in s.rot.waiting)
  {
    hide Owned;
    match s.rot {
      case SwapLive(_, _, cursor) =>
        if forall n :: n in s.cells ==> n < cursor { a := EndLive; }
        else {
          var n := Least(s.cells, cursor);
          a := SwapOne(n);
        }
      case Between(_, _) => a := BeginExited;
      case SwapExited(_, _) => a := if s.exited == [] then EndExited else SwapExitedOne;
      case Unsynced(_, _) => a := BeginSync;
      case Syncing(_, _, waiting) =>
        if waiting == {} { a := SyncDone; }
        else {
          var t :| t in waiting;
          a := if s.writers[t].Locked? then Deref(t) else Unlock(t);
        }
      case Merging(_, _) =>
        a := if s.swapped == [] then Finish else MergeOne;
        if s.swapped != [] { FirstExists(s); }
    }
  }

  lemma FirstExists(s: State)
    requires Owned(s) && s.swapped != []
    ensures s.swapped[0] in s.heap && s.base in s.heap
  {
    assert s.swapped[0] in multiset(s.swapped);
    assert s.swapped[0] in Lists(s);
  }

  lemma {:induction false} Least(cells: map<nat, Buf>, cursor: nat) returns (n: nat)
    requires exists n :: n in cells && cursor <= n
    ensures NextLive(cells, cursor, n)
  {
    n :| n in cells && cursor <= n;
    while !NextLive(cells, cursor, n)
      invariant n in cells && cursor <= n
      decreases n
    {
      var m :| m in cells && cursor <= m && m < n;
      n := m;
    }
  }

  /** A thread has a step, unless it is about to give or take a buffer while a rotation has the buffers locked. */
  lemma ThreadsGoOn(steps: seq<Step>, s: State, t: Thread) returns (a: Step)
    requires Reaches(steps, s) && t in s.writers && !s.writers[t].Exited?
    requires BuffersLocked(s) ==> !s.writers[t].Attaching? && !s.writers[t].Detaching?
    ensures Enabled(s, a) && ThreadStep(a) && a.t == t
  {
    hide Reaches, InOrder, Collecting, Conserved, SlotsAgree, Owned, HoldersSafe, Enabled;
    RunsKeep(steps, s);
    a := StepOf(s, t);
  }

  /** Nothing else holds a thread up: an idle one may insert or exit, a new one may take any number that is free and
      not referenced, and while no rotation is going on any kind may begin. */
  lemma MayAlways(s: State, t: Thread, n: nat, kind: Kind)
    ensures t in s.writers && s.writers[t].Idle? ==> Enabled(s, Lock(t)) && Enabled(s, Free(t))
    ensures t in s.writers && s.writers[t].Holding? ==> Enabled(s, Unlock(t))
    ensures t !in s.writers && n !in s.taken && n !in s.refs ==> Enabled(s, Pick(t, n))
    ensures s.rot.Resting? ==> Enabled(s, Start(kind))
  {}

  lemma StepOf(s: State, t: Thread) returns (a: Step)
    requires SlotsAgree(s) && t in s.writers && !s.writers[t].Exited?
    requires BuffersLocked(s) ==> !s.writers[t].Attaching? && !s.writers[t].Detaching?
    ensures Enabled(s, a) && ThreadStep(a) && a.t == t
  {
    match s.writers[t] {
      case Attaching(_) => a := Create(t);
      case Idle(_) => a := Free(t);
      case Locked(_) => a := Deref(t);
      case Holding(_, _) => a := Unlock(t);
      case Detaching(_) => a := Move(t);
    }
  }
}
