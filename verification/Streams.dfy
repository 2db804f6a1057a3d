/**
  What a StreamTracker means (include/sisl/fds/stream_tracker.hpp): a reference index, and for every
  index from there on its data, whether it is active and whether it is completed. Slots, bitsets,
  skipped heads and their sizes are not visible here.
 */
module Streams {
  import opened WordArrays

  /** data holds the indices whose data is not the zero value. */
  datatype Stream<!T> = Stream(ref: int, data: map<int, T>, active: set<int>, completed: set<int>)

  // ----- the operations

  ghost function Lookup<T>(s: Stream<T>, zero: T, i: int): T {
    if i in s.data then s.data[i] else zero
  }

  ghost function Put<T>(data: map<int, T>, zero: T, i: int, v: T): map<int, T> {
    if v == zero then data - {i} else data[i := v]
  }

  /** create, create_and_complete and update; an index below the reference is ignored. */
  ghost function Updated<T>(s: Stream<T>, zero: T, i: int, replace: bool, init: T, process: T -> (T, bool)): Stream<T> {
    if i < s.ref then s
    else
      var before := if replace || i !in s.active then init else Lookup(s, zero, i);
      var (after, done) := process(before);
      Stream(s.ref, Put(s.data, zero, i, after), s.active + {i}, if done then s.completed + {i} else s.completed)
  }

  lemma IgnoredUpdate<T>(s: Stream<T>, zero: T, i: int, replace: bool, init: T, process: T -> (T, bool))
    requires i < s.ref
    ensures Updated(s, zero, i, replace, init, process) == s
  {}

  ghost function Completed<T>(s: Stream<T>, first: int, last: int): Stream<T> {
    s.(completed := s.completed + (set i | first <= i <= last && Within(first, i, last)))
  }

  ghost function Truncated<T>(s: Stream<T>, ref: int): Stream<T> {
    Stream(ref, (map i | i in s.data && ref <= i :: s.data[i]),
      (set i | i in s.active && ref <= i), (set i | i in s.completed && ref <= i))
  }

  ghost function RolledBack<T>(s: Stream<T>, last: int): Stream<T> {
    s.(active := (set i | i in s.active && i <= last), completed := (set i | i in s.completed && i <= last))
  }

  predicate Within(first: int, i: int, last: int) { first <= i <= last }

  // ----- slots as a representation

  /** The element for index i of a sequence whose first element stands for ref. */
  function Slot<E>(ref: int, slots: seq<E>, i: int): E
    requires ref <= i < ref + |slots|
  {
    slots[i - ref]
  }

  /** The indices whose bit is set. */
  ghost function Marked(ref: int, bits: seq<bool>): (s: set<int>)
    ensures forall i :: i in s <==> ref <= i < ref + |bits| && bits[i - ref]
  {
    set i | ref <= i < ref + |bits| && Slot(ref, bits, i)
  }

  /** The stream represented by slots, active and completed bits whose first position stands for ref. */
  ghost function View<T>(ref: int, zero: T, slots: seq<T>, active: seq<bool>, completed: seq<bool>): (s: Stream<T>)
    requires |slots| == |active| == |completed|
    ensures s.ref == ref && s.completed == Marked(ref, completed)
  {
    Stream(ref,
      (map i | ref <= i < ref + |slots| && Slot(ref, slots, i) != zero :: Slot(ref, slots, i)),
      Marked(ref, active), Marked(ref, completed))
  }

  /** Dropping the first n slots moves the reference by n. */
  lemma ShrunkView<T>(ref: int, zero: T, slots: seq<T>, active: seq<bool>, completed: seq<bool>, n: nat)
    requires |slots| == |active| == |completed| && n <= |slots|
    ensures View(ref + n, zero, slots[n..], active[n..], completed[n..])
      == Truncated(View(ref, zero, slots, active, completed), ref + n)
  {
    var v, w := View(ref + n, zero, slots[n..], active[n..], completed[n..]),
      Truncated(View(ref, zero, slots, active, completed), ref + n);
    assert v.data == w.data;
    assert v.active == w.active;
    assert v.completed == w.completed;
  }

  lemma UpdatedView<T>(ref: int, zero: T, slots: seq<T>, active: seq<bool>, completed: seq<bool>, k: nat,
                       replace: bool, init: T, process: T -> (T, bool))
    requires |slots| == |active| == |completed| && k < |slots|
    ensures var (after, done) := process(if replace || !active[k] then init else slots[k]);
      View(ref, zero, slots[k := after], active[k := true], if done then completed[k := true] else completed)
        == Updated(View(ref, zero, slots, active, completed), zero, ref + k, replace, init, process)
  {
    var (after, done) := process(if replace || !active[k] then init else slots[k]);
    var completed' := if done then completed[k := true] else completed;
    var v, w := View(ref, zero, slots[k := after], active[k := true], completed'),
      Updated(View(ref, zero, slots, active, completed), zero, ref + k, replace, init, process);
    assert v.data == w.data;
    assert v.active == w.active;
    assert v.completed == w.completed;
  }

  /** Bits set from position k on complete the indices first..last, as far as they have a slot. */
  lemma CompletedView<T>(ref: int, zero: T, slots: seq<T>, active: seq<bool>, completed: seq<bool>, k: nat, n: nat,
                         first: int, last: int)
    requires |slots| == |active| == |completed| && Covers(ref, k, n, first, last)
    ensures View(ref, zero, slots, active, Overwrite(completed, k, n, true))
      == Completed(View(ref, zero, slots, active, completed), Max(first, ref), Min(last, ref + |slots| - 1))
  {
    assert View(ref, zero, slots, active, Overwrite(completed, k, n, true)).completed
      == Completed(View(ref, zero, slots, active, completed), Max(first, ref), Min(last, ref + |slots| - 1)).completed;
  }

  /** Positions k..k+n-1 are the indices first..last from ref on. */
  predicate Covers(ref: int, k: nat, n: nat, first: int, last: int) {
    k == Max(first, ref) - ref && n == Max(last + 1, ref + k) - (ref + k)
  }

  function Max(a: int, b: int): int { if a < b then b else a }

  function Min(a: int, b: int): int { if a < b then a else b }

  lemma RolledBackView<T>(ref: int, zero: T, slots: seq<T>, active: seq<bool>, completed: seq<bool>, k: nat, n: nat)
    requires |slots| == |active| == |completed| && k + n == |slots|
    ensures View(ref, zero, slots, Overwrite(active, k, n, false), Overwrite(completed, k, n, false))
      == RolledBack(View(ref, zero, slots, active, completed), ref + k - 1)
  {
    var v, w := View(ref, zero, slots, Overwrite(active, k, n, false), Overwrite(completed, k, n, false)),
      RolledBack(View(ref, zero, slots, active, completed), ref + k - 1);
    assert v.active == w.active;
    assert v.completed == w.completed;
  }

  // ----- bits past the slots

  /** Growing to slots up to end - 1 turns marks past the old slots into completed indices. */
  ghost function Revealed<T>(s: Stream<T>, marks: set<int>, end: int): Stream<T> {
    s.(completed := (set i | i in marks && i < end))
  }

  lemma NothingRevealed<T>(s: Stream<T>, end: int)
    requires forall i :: i in s.completed ==> i < end
    ensures Revealed(s, s.completed, end) == s
  {
    assert Revealed(s, s.completed, end).completed == s.completed;
  }

  /** More slots than before, all of them empty, with the bits that a row has there. */
  lemma RevealedView<T>(ref: int, zero: T, slots: seq<T>, active: seq<bool>, completed: seq<bool>, more: seq<T>,
                        row: seq<bool>, completed': seq<bool>)
    requires |slots| == |active| == |completed| && |completed'| == |slots| + |more|
    requires forall k :: 0 <= k < |more| ==> more[k] == zero
    requires forall k :: 0 <= k < |completed'| ==> completed'[k] == (k < |row| && row[k])
    ensures View(ref, zero, slots + more, active + Repeat(false, |more|), completed')
      == Revealed(View(ref, zero, slots, active, completed), Marked(ref, row), ref + |completed'|)
  {
    var v := View(ref, zero, slots + more, active + Repeat(false, |more|), completed');
    var w := Revealed(View(ref, zero, slots, active, completed), Marked(ref, row), ref + |completed'|);
    assert v.data == w.data;
    assert v.active == w.active;
    assert v.completed == w.completed;
  }

  /** Setting bits of a row that goes on past the slots. */
  lemma OverwrittenMarks(ref: int, row: seq<bool>, k: nat, n: nat, first: int, last: int)
    requires Covers(ref, k, n, first, last)
    ensures Marked(ref, Overwrite(row, k, n, true)) == Marked(ref, row) + Span(Max(first, ref), last, ref + |row|)
  {}

  /** Resetting bits of such a row. */
  lemma ResetMarks(ref: int, row: seq<bool>, k: nat, n: nat)
    ensures Marked(ref, Overwrite(row, k, n, false)) == Outside(Marked(ref, row), ref + k, ref + k + n)
  {}

  /** The members outside lo..hi-1. */
  ghost function Outside(s: set<int>, lo: int, hi: int): set<int> { set i | i in s && (i < lo || hi <= i) }

  lemma DroppedMarks(ref: int, row: seq<bool>, n: nat)
    requires n <= |row|
    ensures Marked(ref + n, row[n..]) == From(Marked(ref, row), ref + n)
  {}

  /** The members from lo on. */
  ghost function From(s: set<int>, lo: int): set<int> { set i | i in s && lo <= i }

  lemma KeptMarks(ref: int, row: seq<bool>, row': seq<bool>)
    requires |row| <= |row'| && RowKept(row, row')
    ensures Marked(ref, row') == Marked(ref, row)
  {}

  lemma AllFrom(ref: int, row: seq<bool>)
    ensures Marked(ref, row) == From(Marked(ref, row), ref)
  {}

  lemma RevealedAreMarks<T>(s: Stream<T>, marks: set<int>, end: int)
    ensures marks == marks + Revealed(s, marks, end).completed
  {}

  /** A bit set among the first ones, or none. */
  lemma OneMark(ref: int, row: seq<bool>, bits: seq<bool>, k: nat)
    requires k < |bits| <= |row| && bits == row[..|bits|]
    ensures Marked(ref, row[k := true]) == Marked(ref, row) + Marked(ref, bits[k := true])
    ensures Marked(ref, row) == Marked(ref, row) + Marked(ref, bits)
  {}

  predicate AllBelow(s: set<int>, end: int) { forall i :: i in s ==> i < end }

  /** Which indices have a mark after a rollback to last: those past the slots keep theirs, so a rollback forgets every
      index above last if and only if no mark lies past the slots. */
  lemma RollbackForgetsIff(marks: set<int>, last: int, end: int)
    requires last < end
    ensures AllBelow(Outside(marks, last + 1, end), last + 1) <==> AllBelow(marks, end)
  {
    if i :| i in marks && end <= i { assert i in Outside(marks, last + 1, end); }
  }

  // ----- completing a range that starts in front of the reference

  /** Truncated indices still have a bit as long as they are skipped only; hidden is how many do. */
  predicate Writable(ref: int, hidden: nat, end: int, first: int) { ref - hidden <= first < end }

  /** complete(first, last) without an exception. */
  predicate Completes(ref: int, hidden: nat, end: int, capacity: int, first: int, last: int) {
    Writable(ref, hidden, end, first) && last < capacity
  }

  ghost function CompletedFrom<T>(s: Stream<T>, hidden: nat, end: int, first: int, last: int): Stream<T> {
    if Writable(s.ref, hidden, end, first) then Completed(s, Max(first, s.ref), Min(last, end - 1)) else s
  }

  /** Two trackers of one stream that skip more and less: completing a range differs if and only if it starts where only
      one of them still has bits, unless it throws in both and has nothing to complete. */
  lemma SkippingShowsIff<T>(s: Stream<T>, less: nat, more: nat, end: int, capacity: int, first: int, last: int)
    requires less <= more && s.ref <= end <= capacity && first <= last
    ensures
      (&& (Completes(s.ref, less, end, capacity, first, last) <==> Completes(s.ref, more, end, capacity, first, last))
       && CompletedFrom(s, less, end, first, last) == CompletedFrom(s, more, end, first, last))
      <==>
      (|| !(s.ref - more <= first < s.ref - less)
       || (capacity <= last && forall i :: s.ref <= i < end ==> i in s.completed))
  {
    if s.ref - more <= first < s.ref - less && capacity <= last {
      var t := CompletedFrom(s, more, end, first, last);
      if forall i :: s.ref <= i < end ==> i in s.completed {
        assert t.completed == s.completed;
      } else {
        var i :| s.ref <= i < end && i !in s.completed;
        assert i in t.completed;
      }
    }
  }

  /** The indices first..last below end. */
  ghost function Span(first: int, last: int, end: int): set<int> { set i | first <= i < end && Within(first, i, last) }

  // ----- the first index that is missing from a set

  ghost function FirstMissing(s: set<int>, from: int): (i: int)
    ensures from <= i && i !in s && forall j :: from <= j < i ==> j in s
    decreases |s|
  {
    if from !in s then from
    else
      var rest := s - {from};
      var i := FirstMissing(rest, from + 1);
      assert forall j :: from <= j < i && j !in s ==> j != from && j in rest;
      i
  }

  lemma FirstMissingUnique(s: set<int>, from: int, i: int)
    requires from <= i && i !in s && forall j :: from <= j < i ==> j in s
    ensures FirstMissing(s, from) == i
  {}

  /** The first reset bit from k on is the first index missing from the set of set bits. */
  lemma FirstMissingOfBits(ref: int, bits: seq<bool>, k: nat, none: nat, next: nat)
    requires k <= |bits| <= none && IsNext(bits, k, false, none, next)
    ensures FirstMissing(Marked(ref, bits), ref + k) == ref + if next == none then |bits| else next
  {
    var s := Marked(ref, bits);
    var stop := if next == none then |bits| else next;
    forall j | ref + k <= j < ref + stop ensures j in s { assert bits[j - ref]; }
    FirstMissingUnique(s, ref + k, ref + stop);
  }

  // ----- runs

  datatype Op<!T> =
    | Update(idx: int, replace: bool, init: T, process: T -> (T, bool))
    | Complete(first: int, last: int)
    | Truncate(upto: int)
    | TruncateCompleted
    | Rollback(last: int)
    | Grow(marks: set<int>)    // marks past the slots come into sight

  /** The last index of the maximal completed prefix. */
  ghost function CompletedUpto<T>(s: Stream<T>): int { FirstMissing(s.completed, s.ref) - 1 }

  ghost function Apply<T>(s: Stream<T>, zero: T, op: Op<T>): Stream<T> {
    match op
    case Update(i, replace, init, process) => Updated(s, zero, i, replace, init, process)
    case Complete(first, last) => Completed(s, first, last)
    case Truncate(upto) => if upto < s.ref then s else Truncated(s, upto + 1)
    case TruncateCompleted => Truncated(s, CompletedUpto(s) + 1)
    case Rollback(last) => RolledBack(s, last)
    case Grow(marks) => s.(completed := s.completed + marks)
  }

  /** What an observer of index i sees of a stream: its data, whether it is active and whether it is completed. */
  ghost function Observed<T>(s: Stream<T>, zero: T, i: int): (T, bool, bool) {
    (Lookup(s, zero, i), i in s.active, i in s.completed)
  }

  /** An update builds the data of an index that is not active, or is to be replaced, from the initial value, and gives
      it to the callback; other indices and those below the reference are left alone. */
  lemma UpdateMeaning<T>(s: Stream<T>, zero: T, i: int, replace: bool, init: T, process: T -> (T, bool), j: int)
    ensures var t := Updated(s, zero, i, replace, init, process);
      && t.ref == s.ref
      && (j != i || i < s.ref ==> Observed(t, zero, j) == Observed(s, zero, j))
      && (s.ref <= i ==>
            var (data, active, completed) := Observed(s, zero, i);
            var (after, done) := process(if active && !replace then data else init);
            Observed(t, zero, i) == (after, true, completed || done))
  {}

  /** Two updates of an active index are one with both callbacks. */
  lemma UpdatesCompose<T>(s: Stream<T>, zero: T, i: int, init: T, init': T, p: T -> (T, bool), q: T -> (T, bool))
    requires s.ref <= i
    ensures var both := (x: T) => var (y, done) := p(x); var (z, done') := q(y); (z, done || done');
      var t := Updated(Updated(s, zero, i, false, init, p), zero, i, false, init', q);
      forall j :: Observed(t, zero, j) == Observed(Updated(s, zero, i, false, init, both), zero, j)
  {
    var both := (x: T) => var (y, done) := p(x); var (z, done') := q(y); (z, done || done');
    var s1 := Updated(s, zero, i, false, init, p);
    forall j ensures Observed(Updated(s1, zero, i, false, init', q), zero, j) ==
      Observed(Updated(s, zero, i, false, init, both), zero, j)
    {
      UpdateMeaning(s, zero, i, false, init, p, j);
      UpdateMeaning(s1, zero, i, false, init', q, j);
      UpdateMeaning(s, zero, i, false, init, both, j);
      UpdateMeaning(s, zero, i, false, init, p, i);
      hide Updated, Observed;
    }
  }

  /** Completing, truncating and rolling back, seen from one index: completing touches only the completed flag of its
      range; truncating forgets all below the new reference; rolling back forgets all above its end but the data. */
  lemma RangesMeaning<T>(s: Stream<T>, zero: T, first: int, last: int, ref: int, j: int)
    ensures var (data, active, completed) := Observed(s, zero, j);
      && Observed(Completed(s, first, last), zero, j) == (data, active, completed || first <= j <= last)
      && Observed(Truncated(s, ref), zero, j) == (if ref <= j then (data, active, completed) else (zero, false, false))
      && Observed(RolledBack(s, last), zero, j) == (data, active && j <= last, completed && j <= last)
    ensures Completed(s, first, last).ref == RolledBack(s, last).ref == s.ref && Truncated(s, ref).ref == ref
  {}

  /** A completed range that is rolled back to its front is as if it had never been completed. */
  lemma RollbackUndoes<T>(s: Stream<T>, zero: T, first: int, last: int, j: int)
    requires forall i :: i in s.active || i in s.completed ==> i < first
    ensures Observed(RolledBack(Completed(s, first, last), first - 1), zero, j) == Observed(s, zero, j)
  {
    RangesMeaning(s, zero, first, last, 0, j);
    RangesMeaning(Completed(s, first, last), zero, 0, first - 1, 0, j);
  }

  ghost function Run<T>(s: Stream<T>, zero: T, ops: seq<Op<T>>): Stream<T>
    decreases |ops|
  {
    if ops == [] then s else Run(Apply(s, zero, ops[0]), zero, ops[1..])
  }

  /**
    completed_upto and active_upto of a set of indices from ref on with slots up to end - 1: the search starts at
    the hint, and past the slots the last slot is returned.
   */
  ghost function UptoFrom(s: set<int>, ref: int, end: int, hint: int): (upto: int)
    ensures IsUpto(s, ref, end, hint, upto)
  {
    var from := if hint < ref then ref else hint;
    if from < end then FirstMissing(s, from) - 1 else end - 1
  }

  /** From the hint on, not below ref, everything up to upto is in s and the next index is not; past the slots the last
      slot is the answer. */
  ghost predicate IsUpto(s: set<int>, ref: int, end: int, hint: int, upto: int) {
    var from := Max(hint, ref);
    if end <= from then upto == end - 1
    else from <= upto + 1 && upto + 1 !in s && forall i :: from <= i <= upto ==> i in s
  }

  lemma UptoIsUnique(s: set<int>, ref: int, end: int, hint: int, upto: int, upto': int)
    requires IsUpto(s, ref, end, hint, upto) && IsUpto(s, ref, end, hint, upto')
    ensures upto == upto'
  {}

  /** For a hint up to the reference it is the end of the completed prefix. */
  lemma UptoOfPrefix<T>(s: Stream<T>, end: int, hint: int)
    requires hint <= s.ref <= end && forall i :: i in s.completed ==> i < end
    ensures UptoFrom(s.completed, s.ref, end, hint) == CompletedUpto(s)
  {
    assert s.ref == end ==> s.ref !in s.completed;
  }

  /** A prefix that is complete stays complete or is dropped, from whatever hint it is searched. */
  lemma UptoGrows<T>(s: Stream<T>, end: int, t: Stream<T>, end': int, hint: int)
    requires s.ref <= t.ref <= end' && end <= end'
    requires forall i :: i in s.completed ==> i < end
    requires forall i :: i in s.completed && t.ref <= i ==> i in t.completed
    ensures UptoFrom(s.completed, s.ref, end, hint) <= UptoFrom(t.completed, t.ref, end', hint)
  {
    var from, from' := if hint < s.ref then s.ref else hint, if hint < t.ref then t.ref else hint;
    if from < end {
      var a := FirstMissing(s.completed, from);
      assert end < a ==> end in s.completed;
      if from' < end' {
        var b := FirstMissing(t.completed, from');
        assert b < a ==> b in s.completed;
      }
    }
  }

  /** The slots of a run: ends[k] is one past the last slot in front of operation k. They only grow in number, and
      completed indices have a slot. */
  ghost predicate HasSlots<T>(s: Stream<T>, zero: T, ops: seq<Op<T>>, ends: seq<int>)
    decreases |ops|
  {
    && |ends| == |ops| + 1 && s.ref <= ends[0] && (forall i :: i in s.completed ==> i < ends[0])
    && (ops != [] ==> ends[0] <= ends[1] && HasSlots(Apply(s, zero, ops[0]), zero, ops[1..], ends[1..]))
  }

  lemma StepGrows<T>(s: Stream<T>, zero: T, op: Op<T>, end: int, end': int, hint: int)
    requires !op.Rollback? && Apply(s, zero, op).ref <= end' && end <= end' && forall i :: i in s.completed ==> i < end
    ensures UptoFrom(s.completed, s.ref, end, hint)
      <= UptoFrom(Apply(s, zero, op).completed, Apply(s, zero, op).ref, end', hint)
  {
    UptoGrows(s, end, Apply(s, zero, op), end', hint);
  }

  /** Without rollback, completed_upto never decreases over any run, for any hint, the default one included. */
  lemma {:induction false} UptoNeverDecreases<T>(s: Stream<T>, zero: T, ops: seq<Op<T>>, ends: seq<int>, hint: int)
    requires HasSlots(s, zero, ops, ends) && forall k :: 0 <= k < |ops| ==> !ops[k].Rollback?
    ensures var t := Run(s, zero, ops);
      UptoFrom(s.completed, s.ref, ends[0], hint) <= UptoFrom(t.completed, t.ref, ends[|ops|], hint)
    decreases |ops|
  {
    if ops != [] {
      StepGrows(s, zero, ops[0], ends[0], ends[1], hint);
      UptoNeverDecreases(Apply(s, zero, ops[0]), zero, ops[1..], ends[1..], hint);
    }
  }

  /** truncate() without an index drops exactly the completed prefix. */
  lemma TruncateDropsPrefix<T>(s: Stream<T>, zero: T)
    ensures var t := Apply(s, zero, TruncateCompleted);
      && CompletedUpto(t) == CompletedUpto(s) == t.ref - 1
      && t.ref !in t.completed
      && forall i :: t.ref <= i ==>
           (i in t.active <==> i in s.active) && (i in t.completed <==> i in s.completed)
             && Lookup(t, zero, i) == Lookup(s, zero, i)
  {}

  /** It leaves completed_upto where it was, whatever the hint. */
  lemma TruncateKeepsUpto<T>(s: Stream<T>, zero: T, end: int, hint: int)
    requires s.ref <= end && forall i :: i in s.completed ==> i < end
    ensures var t := Apply(s, zero, TruncateCompleted);
      UptoFrom(t.completed, t.ref, end, hint) == UptoFrom(s.completed, s.ref, end, hint)
  {
    var t := Apply(s, zero, TruncateCompleted);
    TruncateDropsPrefix(s, zero);
    assert end < t.ref ==> end in s.completed;
    var from, from' := if hint < s.ref then s.ref else hint, if hint < t.ref then t.ref else hint;
    if from' < end { FirstMissingUnique(s.completed, from, FirstMissing(t.completed, from')); }
    else if from < end { FirstMissingUnique(s.completed, from, t.ref); }
  }

  // ----- visiting the members of a set in order

  ghost predicate Seen<T>(visited: seq<(int, T)>, i: int) {
    exists k :: 0 <= k < |visited| && visited[k].0 == i
  }

  /** Members of s from start on, each with its data, in ascending order; the callback accepted all but maybe the
      last. */
  ghost predicate InOrder<T>(st: Stream<T>, zero: T, s: set<int>, start: int, cb: (int, T) -> bool,
                             visited: seq<(int, T)>)
  {
    && (forall k :: 0 <= k < |visited| ==>
          visited[k].0 in s && start <= visited[k].0 && visited[k].1 == Lookup(st, zero, visited[k].0))
    && (forall j, k :: 0 <= j < k < |visited| ==> visited[j].0 < visited[k].0)
    && (forall k :: 0 <= k < |visited| - 1 ==> cb(visited[k].0, visited[k].1))
  }

  /** Every member from start on was visited, except those beyond one that the callback refused. */
  ghost predicate Exhaustive<T>(s: set<int>, start: int, cb: (int, T) -> bool, visited: seq<(int, T)>) {
    forall i :: i in s && start <= i ==>
      || Seen(visited, i)
      || (visited != [] && var v := visited[|visited| - 1]; !cb(v.0, v.1) && v.0 < i)
  }

  /** Everything below limit has been visited and accepted. */
  ghost predicate VisitedBelow<T>(st: Stream<T>, zero: T, s: set<int>, start: int, cb: (int, T) -> bool,
                                  visited: seq<(int, T)>, limit: int)
  {
    && InOrder(st, zero, s, start, cb, visited)
    && (forall k :: 0 <= k < |visited| ==> visited[k].0 < limit && cb(visited[k].0, visited[k].1))
    && (forall i :: i in s && start <= i < limit ==> Seen(visited, i))
  }

  lemma VisitNext<T>(st: Stream<T>, zero: T, s: set<int>, start: int, cb: (int, T) -> bool,
                     visited: seq<(int, T)>, limit: int, i: int)
    requires VisitedBelow(st, zero, s, start, cb, visited, limit)
    requires i in s && start <= i && limit <= i && forall j :: limit <= j < i ==> j !in s
    ensures var v := (i, Lookup(st, zero, i));
      && InOrder(st, zero, s, start, cb, visited + [v])
      && if cb(v.0, v.1) then VisitedBelow(st, zero, s, start, cb, visited + [v], i + 1)
         else Exhaustive(s, start, cb, visited + [v])
  {
    hide Lookup;
    var v := (i, Lookup(st, zero, i));
    var longer := visited + [v];
    assert longer[|visited|] == v;
    forall j | Seen(visited, j) ensures Seen(longer, j) {
      var k :| 0 <= k < |visited| && visited[k].0 == j;
      assert longer[k].0 == j;
    }
    assert Seen(longer, i);
  }

  lemma VisitStarts<T>(st: Stream<T>, zero: T, s: set<int>, start: int, cb: (int, T) -> bool, limit: int)
    requires forall i :: i in s && start <= i ==> limit <= i
    ensures VisitedBelow(st, zero, s, start, cb, [], limit)
  {}

  lemma VisitEnds<T>(st: Stream<T>, zero: T, s: set<int>, start: int, cb: (int, T) -> bool,
                     visited: seq<(int, T)>, limit: int)
    requires VisitedBelow(st, zero, s, start, cb, visited, limit) && forall i :: i in s ==> i < limit
    ensures InOrder(st, zero, s, start, cb, visited) && Exhaustive(s, start, cb, visited)
  {}

  /** Searching the bits is searching the set. */
  lemma NextMember(ref: int, bits: seq<bool>, k: nat, none: nat, next: nat)
    requires |bits| <= none && IsNext(bits, k, true, none, next)
    ensures var s := Marked(ref, bits);
      if next == none then forall i :: i in s ==> i < ref + k
      else ref + next in s && k <= next < |bits| && forall i :: ref + k <= i < ref + next ==> i !in s
  {}

  lemma SlotIsLookup<T>(ref: int, zero: T, slots: seq<T>, active: seq<bool>, completed: seq<bool>, k: nat)
    requires |slots| == |active| == |completed| && k < |slots|
    ensures Lookup(View(ref, zero, slots, active, completed), zero, ref + k) == slots[k]
  {
    assert Slot(ref, slots, ref + k) == slots[k];
  }

  lemma MembersOfView<T>(ref: int, zero: T, slots: seq<T>, active: seq<bool>, completed: seq<bool>)
    requires |slots| == |active| == |completed|
    ensures var v := View(ref, zero, slots, active, completed);
      && v.active == Marked(ref, active) && v.completed == Marked(ref, completed)
      && (forall i :: i in v.active || i in v.completed ==> ref <= i)
  {}
}
