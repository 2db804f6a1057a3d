/**
  StreamTracker (include/sisl/fds/stream_tracker.hpp). Two bitsets and a slot array, each with a
  lazily compacted head, represent the stream `Abs()`. Both kinds of compaction thresholds are
  parameters, and each method is taken as one step under the lock.
 */
module StreamTrackers {
  import opened Wrappers
  import opened Bitwords
  import opened WordArrays
  import opened Bitsets
  import opened Streams

  const ALLOC_BLK_SIZE: nat := 10000

  const INT64_MAX: nat := 0x7FFF_FFFF_FFFF_FFFF

  /** A difference of indices that does not overflow. */
  predicate IsInt64(x: int) { 0 <= x + INT64_MAX + 1 && x <= INT64_MAX }

  datatype Status = IsOutOfRange | IsHole | IsActive | IsCompleted

  /** memmove of n elements from position skip to the front. */
  method MoveDown<T>(a: array<T>, skip: nat, n: nat)
    requires skip + n <= a.Length
    modifies a
    ensures a[..n] == old(a[skip..skip + n])
  {
    ghost var was := a[skip..skip + n];
    var i := 0;
    while i < n
      invariant 0 <= i <= n
      invariant forall k :: 0 <= k < i ==> a[k] == was[k]
      invariant forall k :: skip + i <= k < skip + n ==> a[k] == was[k - skip]
    {
      a[i] := a[skip + i];
      i := i + 1;
    }
  }

  class StreamTracker<T(0)> {
    const zero: T
    const dataThreshold: nat
    const completedBits: Bitset
    const activeBits: Bitset
    var slotData: array<T>
    var dataSkip: nat
    var alloced: nat
    var refIdx: int

    ghost predicate Separate()
      reads this, completedBits, activeBits
    {
      && completedBits != activeBits && completedBits.words != activeBits.words
      && slotData as object != completedBits.words as object && slotData as object != activeBits.words as object
    }

    ghost predicate Valid()
      reads this, completedBits, activeBits, completedBits.words, activeBits.words
    {
      && Separate()
      && completedBits.Valid() && |completedBits.Bits()| == alloced
      && activeBits.Valid() && activeBits.ZeroTail() && |activeBits.Bits()| == alloced
      && dataSkip + alloced <= slotData.Length
      && completedBits.nbits == completedBits.skipBits + alloced <= INT64_MAX
      && activeBits.nbits == activeBits.skipBits + alloced <= INT64_MAX
    }

    /** No completed bit is set past the slots; only completing indices without a slot breaks this. */
    ghost predicate Clean()
      reads this, completedBits, activeBits, completedBits.words, activeBits.words
    {
      Valid() && completedBits.ZeroTail()
    }

    /** One past the last index that has a slot. */
    function End(): int
      reads this
    {
      refIdx + alloced
    }

    /** One past the last index that has a bit in the last word of the completed bits. */
    ghost function Capacity(): int
      reads this, completedBits, completedBits.words
    {
      refIdx + |completedBits.Row()|
    }

    /** How many truncated indices still have a completed bit. */
    function Hidden(): nat
      reads this, completedBits
    {
      completedBits.skipBits
    }

    /** All indices from the reference on whose completed bit is set, those past the slots included. */
    ghost function Marks(): set<int>
      reads this, completedBits, completedBits.words
    {
      Marked(refIdx, completedBits.Row())
    }

    lemma LastWordEnds()
      requires Valid()
      ensures Capacity() == refIdx + 64 * TotalWords(completedBits.nbits) - Hidden()
    {
      TotalWordsBounds(completedBits.nbits);
    }

    /** The completed indices are the marks that have a slot. */
    lemma VisibleMarks()
      requires Valid()
      ensures Abs() == Revealed(Abs(), Marks(), End()) && End() <= Capacity()
      ensures Clean() ==> Marks() == Abs().completed
    {
      hide WordArrays.At, Bit;
      TotalWordsBounds(completedBits.nbits);
      var bits, row := completedBits.Bits(), completedBits.Row();
      assert |bits| <= |row| && forall i :: 0 <= i < |bits| ==> bits[i] == row[i];
      if Clean() { ClearRow(completedBits.words[..], completedBits.skipBits, completedBits.nbits); }
      assert Revealed(Abs(), Marks(), End()).completed == Abs().completed;
      if Clean() { assert Marks() == Abs().completed; }
    }

    ghost function Slots(): seq<T>
      requires dataSkip + alloced <= slotData.Length
      reads this, slotData
    {
      slotData[dataSkip..dataSkip + alloced]
    }

    ghost function Abs(): Stream<T>
      requires Valid()
      reads this, completedBits, activeBits, completedBits.words, activeBits.words, slotData
    {
      View(refIdx, zero, Slots(), activeBits.Bits(), completedBits.Bits())
    }

    /** Everything the tracker owns. */
    ghost function Repr(): set<object>
      reads this, completedBits, activeBits
    {
      {this, completedBits, activeBits, completedBits.words, activeBits.words, slotData}
    }

    constructor (startIdx: int, zero: T, dataThreshold: nat, bitsThreshold: nat)
      ensures Clean() && fresh(Repr())
      ensures this.zero == zero
      ensures Abs() == Stream(startIdx + 1, map[], {}, {}) && alloced == ALLOC_BLK_SIZE && Hidden() == 0
      ensures completedBits.compactionThreshold == bitsThreshold
    {
      this.zero, this.dataThreshold := zero, dataThreshold;
      completedBits := new Bitset(ALLOC_BLK_SIZE, bitsThreshold);
      activeBits := new Bitset(ALLOC_BLK_SIZE, bitsThreshold);
      slotData := new T[ALLOC_BLK_SIZE](_ => zero);
      refIdx, alloced, dataSkip := startIdx + 1, ALLOC_BLK_SIZE, 0;
      new;
      hide Content, WordArrays.At;
    }

    ghost function Zeros(n: nat): (s: seq<T>)
      ensures |s| == n && forall k :: 0 <= k < n ==> s[k] == zero
    {
      seq(n, _ => zero)
    }

    /** A zeroed array of n slots that starts with the current ones. */
    method CopySlots(n: nat) returns (data: array<T>)
      requires dataSkip + alloced <= slotData.Length && alloced <= n
      ensures fresh(data) && data[..] == Slots() + Zeros(n - alloced)
    {
      data := new T[n](_ => zero);
      var i := 0;
      while i < alloced
        invariant 0 <= i <= alloced
        invariant data[..i] == Slots()[..i] && forall k :: i <= k < n ==> data[k] == zero
      {
        data[i] := slotData[dataSkip + i];
        i := i + 1;
      }
    }

    /** Makes room for at least `count` slots. The stream stays what it was, except that marks past the old slots become
        completed indices. */
    method DoResize(count: nat)
      requires Valid() && count + 63 <= INT64_MAX && 2 * alloced + 63 <= INT64_MAX
      modifies this, slotData, activeBits, completedBits, activeBits.words, completedBits.words
      ensures Valid() && (slotData == old(slotData) || fresh(slotData))
      ensures activeBits.words == old(activeBits.words) || fresh(activeBits.words)
      ensures completedBits.words == old(completedBits.words) || fresh(completedBits.words)
      ensures Abs() == Revealed(old(Abs()), old(Marks()), End()) && refIdx == old(refIdx) && old(End()) <= End()
      ensures old(Clean()) ==> Clean() && Abs() == old(Abs())
      ensures Marks() == old(Marks())
      ensures alloced == if count < old(alloced) then old(alloced) else Max(2 * old(alloced), count)
    {
      hide Content, WordArrays.At, Bit, View, ClearFrom, Marked, Revealed, Resized;
      VisibleMarks();
      if count < alloced { return; }
      var n := if 2 * alloced < count then count else 2 * alloced;
      Grow(n);
    }

    method Grow(n: nat)
      requires Valid() && alloced <= n && n + 63 <= INT64_MAX
      modifies this, slotData, activeBits, completedBits, activeBits.words, completedBits.words
      ensures Valid() && fresh(slotData) && fresh(activeBits.words) && fresh(completedBits.words)
      ensures Abs() == Revealed(old(Abs()), old(Marks()), End()) && refIdx == old(refIdx) && alloced == n
      ensures old(Clean()) ==> Clean() && Abs() == old(Abs())
      ensures Marks() == old(Marks())
    {
      hide View, Marked, Revealed, RowKept, Bitset.Valid, Bitset.Bits, Bitset.Row, Bitset.ZeroTail;
      ghost var st, row, active, completed := Abs(), completedBits.Row(), activeBits.Bits(), completedBits.Bits();
      SlotsBelowEnd();
      NothingRevealed(st, refIdx + n);
      VisibleMarks();
      var data := CopySlots(n);
      ghost var slots, more := Slots(), Zeros(n - alloced);
      GrowBits(n);
      slotData, alloced, dataSkip := data, n, 0;
      assert Slots() == slots + more;
      RevealedView(refIdx, zero, slots, active, completed, more, row, completedBits.Bits());
      KeptMarks(refIdx, row, completedBits.Row());
    }

    /** Gives both bitsets n positions, filled with zeros; completed bits past the old end come into sight. */
    method GrowBits(n: nat)
      requires Valid() && alloced <= n && n + 63 <= INT64_MAX
      modifies activeBits, completedBits
      ensures activeBits.Valid() && activeBits.ZeroTail() && fresh(activeBits.words)
      ensures completedBits.Valid() && (old(completedBits.ZeroTail()) ==> completedBits.ZeroTail())
      ensures fresh(completedBits.words) && completedBits.words != activeBits.words
      ensures activeBits.Bits() == old(activeBits.Bits()) + Repeat(false, n - alloced)
      ensures |completedBits.Bits()| == n && |activeBits.Bits()| == n
      ensures completedBits.nbits == completedBits.skipBits + n <= INT64_MAX
      ensures activeBits.nbits == activeBits.skipBits + n <= INT64_MAX
      ensures var row := old(completedBits.Row());
        && |row| <= |completedBits.Row()| && RowKept(row, completedBits.Row())
        && forall k :: 0 <= k < n ==> completedBits.Bits()[k] == (k < |row| && row[k])
    {
      hide Content, WordArrays.At, Bit, ClearFrom, Resized, CleanCut;
      activeBits.ResizeImpl(n, false);
      completedBits.ResizeImpl(n, false);
    }

    lemma SlotsBelowEnd()
      requires Valid()
      ensures forall i :: i in Abs().completed ==> refIdx <= i < End()
    {}

    /**
      create (replace, process returns false), create_and_complete (replace, process returns true)
      and update. The callback turns the slot's data into new data and says whether it is completed.
     */
    method DoUpdate(idx: int, process: T -> (T, bool), replace: bool, init: T) returns (ret: int)
      requires Valid() && 2 * alloced + 63 <= INT64_MAX && idx - refIdx + 64 <= INT64_MAX
      modifies this, slotData, activeBits, completedBits, activeBits.words, completedBits.words
      ensures Valid() && (slotData == old(slotData) || fresh(slotData))
      ensures activeBits.words == old(activeBits.words) || fresh(activeBits.words)
      ensures completedBits.words == old(completedBits.words) || fresh(completedBits.words)
      ensures Abs() == Updated(Revealed(old(Abs()), old(Marks()), End()), zero, idx, replace, init, process)
      ensures old(Clean()) ==> Clean() && Abs() == Updated(old(Abs()), zero, idx, replace, init, process)
      ensures Marks() == old(Marks()) + Abs().completed
      ensures ret == refIdx - 1 && refIdx == old(refIdx)
      ensures alloced == if idx < old(End()) then old(alloced) else Max(2 * old(alloced), idx - refIdx + 1)
    {
      hide Content, WordArrays.At, Bit, View, ClearFrom, Updated, Marked, Revealed;
      VisibleMarks();
      CompletedAreMarks();
      if idx < refIdx {
        IgnoredUpdate(Abs(), zero, idx, replace, init, process);
        return refIdx - 1;
      }
      var nbit := idx - refIdx;
      if nbit >= alloced { DoResize(nbit + 1); }
      UpdateSlot(nbit, process, replace, init);
      ret := refIdx - 1;
    }

    lemma CompletedAreMarks()
      requires Valid()
      ensures Marks() == Marks() + Abs().completed
    {
      hide Revealed;
      VisibleMarks();
      RevealedAreMarks(Abs(), Marks(), End());
    }

    /** The part of an update that happens once the slot exists. */
    method UpdateSlot(nbit: nat, process: T -> (T, bool), replace: bool, init: T)
      requires Valid() && nbit < alloced
      modifies slotData, activeBits.words, completedBits.words
      ensures Valid() && (old(Clean()) ==> Clean())
      ensures Abs() == Updated(old(Abs()), zero, refIdx + nbit, replace, init, process)
      ensures Marks() == old(Marks()) + Abs().completed
    {
      hide View, Updated, Marked, Bitset.Valid, Bitset.Bits, Bitset.Row, Bitset.ZeroTail;
      ghost var slots, active, completed, row := Slots(), activeBits.Bits(), completedBits.Bits(), completedBits.Row();
      UpdatedView(refIdx, zero, slots, active, completed, nbit, replace, init, process);
      PrefixOfRow();
      OneMark(refIdx, row, completed, nbit);
      Activate(nbit, replace, init);
      var data := slotData[dataSkip + nbit];
      assert data == Slots()[nbit];
      var (after, done) := process(data);
      SetSlot(nbit, after);
      assert Slots() == slots[nbit := after];
      if done { SetCompleted(nbit); }
    }

    /** Makes a slot active, with the initial data unless it was active and is not replaced. */
    method Activate(nbit: nat, replace: bool, init: T)
      requires Valid() && nbit < alloced
      modifies slotData, activeBits.words
      ensures Valid() && activeBits.Bits() == old(activeBits.Bits())[nbit := true]
      ensures Slots() ==
        if replace || !old(activeBits.Bits())[nbit] then old(Slots())[nbit := init] else old(Slots())
    {
      hide Content, WordArrays.At, Bit, ClearFrom, U64;
      var wasActive := activeBits.GetBitval(nbit);
      if replace || !wasActive {
        SetSlot(nbit, init);
        activeBits.SetResetBit(nbit, true);
      }
    }

    method SetCompleted(nbit: nat)
      requires Valid() && nbit < alloced
      modifies completedBits.words
      ensures Valid() && (old(Clean()) ==> Clean())
      ensures completedBits.Bits() == old(completedBits.Bits())[nbit := true]
      ensures |old(completedBits.Row())| > nbit && completedBits.Row() == old(completedBits.Row())[nbit := true]
    {
      hide Content, WordArrays.At, Bit, ClearFrom, U64;
      PrefixOfRow();
      completedBits.SetResetBit(nbit, true);
    }

    lemma PrefixOfRow()
      requires Valid()
      ensures |completedBits.Bits()| <= |completedBits.Row()|
      ensures completedBits.Bits() == completedBits.Row()[..|completedBits.Bits()|]
    {
      hide Content, WordArrays.At, Bit;
      TotalWordsBounds(completedBits.nbits);
    }

    /** Writes one slot. */
    method SetSlot(nbit: nat, v: T)
      requires Valid() && nbit < alloced
      modifies slotData
      ensures Valid() && Slots() == old(Slots())[nbit := v]
    {
      slotData[dataSkip + nbit] := v;
    }

    /** Where a range ends once its length is an unsigned 64-bit number. */
    function Reach(first: int, last: int): int {
      if last + 1 < first then last + 0x1_0000_0000_0000_0000 else last
    }

    /**
      Sets the completed bits of first..last. The first position and the length are unsigned: a range in front of the
      reference starts in the skipped head as long as that has a bit for it, and a reversed one goes on to the last
      word. Indices without a slot are marked as far as the last word reaches, and the bitset throws beyond it; growing
      turns those marks into completed indices. A range that does not start at a bit throws and changes nothing.
     */
    method Complete(first: int, last: int) returns (o: Outcome)
      requires Valid() && IsInt64(first - refIdx) && IsInt64(last - first + 1)
      requires Writable(refIdx, Hidden(), End(), first) ==> last + 1 != first
      modifies completedBits.words
      ensures Valid() && (old(Clean()) && Reach(first, last) < End() ==> Clean())
      ensures o == Done <==> Completes(refIdx, Hidden(), End(), Capacity(), first, Reach(first, last))
      ensures Abs() == CompletedFrom(old(Abs()), Hidden(), End(), first, Reach(first, last))
      ensures Writable(refIdx, Hidden(), End(), first) ==>
        Marks() == old(Marks()) + Span(Max(first, refIdx), Reach(first, last), Capacity())
      ensures !Writable(refIdx, Hidden(), End(), first) ==> Marks() == old(Marks())
      ensures Capacity() == old(Capacity())
    {
      hide View, Completed, Overwrite, Marked, Span, U64, Bitset.Valid, Bitset.Bits, Bitset.Row, Bitset.ZeroTail;
      ghost var bits, row, skip := completedBits.Bits(), completedBits.Row(), completedBits.skipBits;
      var start, count := U64(first - refIdx), U64(last - first + 1);
      assert count == Reach(first, last) - first + 1;
      ghost var pos := completedBits.Pos(start);
      assert pos < completedBits.nbits <==> Writable(refIdx, skip, End(), first);
      assert pos < completedBits.nbits ==> pos == skip + first - refIdx;
      o := MarkCompleted(start, count);
      if pos < completedBits.nbits {
        ghost var k, n := Behind(skip, pos), Behind(skip, pos + count) - Behind(skip, pos);
        CompletedView(refIdx, zero, Slots(), activeBits.Bits(), bits, k, n, first, Reach(first, last));
        OverwrittenMarks(refIdx, row, k, n, first, Reach(first, last));
      }
    }

    /** Sets completed bits, as far as the last word reaches. */
    method MarkCompleted(start: nat, count: nat) returns (o: Outcome)
      requires Valid() && start <= NPOS && (completedBits.Pos(start) < completedBits.nbits ==> 0 < count)
      modifies completedBits.words
      ensures completedBits.Valid() && |completedBits.Row()| == |old(completedBits.Row())|
      ensures |completedBits.Row()| == 64 * completedBits.words.Length - completedBits.skipBits
      ensures var skip, nbits, pos := completedBits.skipBits, completedBits.nbits, completedBits.Pos(start);
        && (o == Done <==> pos < nbits && pos + count <= 64 * completedBits.words.Length)
        && (nbits <= pos ==>
              && completedBits.Row() == old(completedBits.Row()) && completedBits.Bits() == old(completedBits.Bits())
              && (old(completedBits.ZeroTail()) ==> completedBits.ZeroTail()))
        && (pos < nbits ==>
              var k, n := Behind(skip, pos), Behind(skip, pos + count) - Behind(skip, pos);
              && completedBits.Row() == Overwrite(old(completedBits.Row()), k, n, true)
              && completedBits.Bits() == Overwrite(old(completedBits.Bits()), k, n, true))
        && (old(completedBits.ZeroTail()) && pos + count <= nbits ==> completedBits.ZeroTail())
    {
      hide Content, WordArrays.At, Bit, ClearFrom, Overwrite, U64;
      ghost var ws, nbits, skip := completedBits.words[..], completedBits.nbits, completedBits.skipBits;
      TotalWordsBounds(nbits);
      o := completedBits.SetResetBits(start, count, true);
      ghost var pos := completedBits.Pos(start);
      if pos < nbits {
        WrittenRow(ws, completedBits.words[..], skip, 64 * |ws|, pos, pos + count, true);
        WrittenRow(ws, completedBits.words[..], skip, nbits, pos, pos + count, true);
        if pos + count <= nbits { WrittenContent(ws, completedBits.words[..], 0, nbits, pos, count, true); }
      }
    }

    /**
      Forgets every index above `last`, but not the marks past the slots. A rollback to the very last slot would reset
      an empty range at the end of the bitset, which the bitset rejects, as is any rollback when no slot is left.
     */
    method Rollback(last: int) returns (o: Outcome)
      requires Valid()
      modifies completedBits.words, activeBits.words
      ensures Valid() && (old(Clean()) ==> Clean())
      ensures o == Done <==> refIdx - 1 <= last < refIdx + alloced - 1
      ensures Abs() == if o == Done then RolledBack(old(Abs()), last) else old(Abs())
      ensures Marks() == if o == Done then Outside(old(Marks()), last + 1, End()) else old(Marks())
    {
      hide View, RolledBack, Overwrite, Marked, Outside, Bitset.Valid, Bitset.Bits, Bitset.Row, Bitset.ZeroTail;
      var size := alloced;
      if last + 1 == refIdx {
        RolledBackView(refIdx, zero, Slots(), activeBits.Bits(), completedBits.Bits(), 0, size);
        ResetMarks(refIdx, completedBits.Row(), 0, size);
        o := ResetFrom(0);
        return;
      }
      if last < refIdx || last >= refIdx + size { return OutOfRange; }
      var bit := last - refIdx;
      RolledBackView(refIdx, zero, Slots(), activeBits.Bits(), completedBits.Bits(), bit + 1, size - bit - 1);
      ResetMarks(refIdx, completedBits.Row(), bit + 1, size - bit - 1);
      o := ResetFrom(bit + 1);
    }

    /** Resets both bitsets from position k up to the slots. */
    method ResetFrom(k: nat) returns (o: Outcome)
      requires Valid() && k <= alloced
      modifies completedBits.words, activeBits.words
      ensures completedBits.Valid() && activeBits.Valid() && activeBits.ZeroTail()
      ensures old(completedBits.ZeroTail()) ==> completedBits.ZeroTail()
      ensures o == if k < alloced then Done else OutOfRange
      ensures completedBits.Bits() ==
        if o == Done then Overwrite(old(completedBits.Bits()), k, alloced - k, false) else old(completedBits.Bits())
      ensures activeBits.Bits() ==
        if o == Done then Overwrite(old(activeBits.Bits()), k, alloced - k, false) else old(activeBits.Bits())
      ensures completedBits.Row() ==
        if o == Done then Overwrite(old(completedBits.Row()), k, alloced - k, false) else old(completedBits.Row())
    {
      hide Content, WordArrays.At, Bit, ClearFrom, Overwrite, Written, U64;
      TotalWordsBounds(completedBits.nbits);
      ghost var ws, skip := completedBits.words[..], completedBits.skipBits;
      var n := alloced - k;
      o := activeBits.SetResetBits(k, n, false);
      if o == OutOfRange { return; }
      o := completedBits.SetResetBits(k, n, false);
      WrittenRow(ws, completedBits.words[..], skip, 64 * |ws|, skip + k, skip + k + n, false);
    }

    /** The data of an active index. */
    method At(idx: int) returns (r: Option<T>)
      requires Valid() && IsInt64(idx - refIdx)
      ensures r == if idx in Abs().active then Some(Lookup(Abs(), zero, idx)) else None
    {
      hide Content, WordArrays.At, Bit;
      if idx < refIdx { return None; }
      var nbit := idx - refIdx;
      var active := activeBits.GetBitval(nbit);
      if !active { return None; }
      r := Some(slotData[dataSkip + nbit]);
      assert Slot(refIdx, Slots(), idx) == slotData[dataSkip + nbit];
    }

    method GetStatus(idx: int) returns (s: Status)
      requires Valid() && IsInt64(idx - refIdx)
      ensures s == if idx < Abs().ref then IsOutOfRange
                   else if idx in Abs().completed then IsCompleted
                   else if idx in Abs().active then IsActive
                   else IsHole
    {
      hide Content, WordArrays.At, Bit;
      if idx < refIdx { return IsOutOfRange; }
      var completed := completedBits.GetBitval(idx - refIdx);
      if completed { return IsCompleted; }
      var active := activeBits.GetBitval(idx - refIdx);
      s := if active then IsActive else IsHole;
    }

    /** How much of a head of n bits stays: compaction drops whole words. */
    function Skipped(n: nat): nat { if n < completedBits.compactionThreshold then n else n % 64 }

    /** Drops the first n slots from both bitsets and, lazily, from the data. */
    method DoTruncate(n: nat) returns (o: Outcome)
      requires Valid()
      modifies this, completedBits, activeBits, slotData
      ensures Valid() && (old(Clean()) ==> Clean()) && End() == old(End())
      ensures slotData == old(slotData) || fresh(slotData)
      ensures activeBits.words == old(activeBits.words) || fresh(activeBits.words)
      ensures completedBits.words == old(completedBits.words) || fresh(completedBits.words)
      ensures o == Done <==> n <= old(alloced)
      ensures o == Done ==> Abs() == Truncated(old(Abs()), old(refIdx) + n) && refIdx == old(refIdx) + n
      ensures o == OutOfRange ==> Abs() == old(Abs()) && refIdx == old(refIdx)
      ensures Marks() == if o == Done then From(old(Marks()), refIdx) else old(Marks())
      ensures o == Done ==> Hidden() == Skipped(old(Hidden()) + n)
    {
      hide View, Truncated, Marked, From, Bitset.Valid, Bitset.Bits, Bitset.Row, Bitset.ZeroTail;
      ghost var slots, active, completed, row := Slots(), activeBits.Bits(), completedBits.Bits(), completedBits.Row();
      o := ShrinkBits(n);
      if o == OutOfRange { return; }
      ShrunkView(refIdx, zero, slots, active, completed, n);
      DroppedMarks(refIdx, row, n);
      DropSlots(n);
      refIdx := refIdx + n;
    }

    /** Drops the first n positions of both bitsets. */
    method ShrinkBits(n: nat) returns (o: Outcome)
      requires Valid()
      modifies completedBits, activeBits
      ensures completedBits.Valid() && activeBits.Valid()
      ensures (old(completedBits.ZeroTail()) ==> completedBits.ZeroTail()) && activeBits.ZeroTail()
      ensures activeBits.words == old(activeBits.words) || fresh(activeBits.words)
      ensures completedBits.words == old(completedBits.words) || fresh(completedBits.words)
      ensures activeBits.words != completedBits.words
      ensures o == if n <= alloced then Done else OutOfRange
      ensures var left := if o == Done then alloced - n else alloced;
        && completedBits.nbits == completedBits.skipBits + left <= INT64_MAX
        && activeBits.nbits == activeBits.skipBits + left <= INT64_MAX
      ensures alloced <= |old(completedBits.Row())|
      ensures o == Done ==>
        && completedBits.Bits() == old(completedBits.Bits())[n..]
        && completedBits.Row() == old(completedBits.Row())[n..]
        && activeBits.Bits() == old(activeBits.Bits())[n..] && completedBits.skipBits == Skipped(old(Hidden()) + n)
      ensures o == OutOfRange ==>
        && completedBits.Bits() == old(completedBits.Bits()) && completedBits.Row() == old(completedBits.Row())
        && activeBits.Bits() == old(activeBits.Bits())
    {
      hide Bitset.Valid, Bitset.Bits, Bitset.Row, Bitset.ZeroTail;
      PrefixOfRow();
      o := completedBits.ShrinkHead(n);
      if o == Done { o := activeBits.ShrinkHead(n); }
    }

    /** Skips n slots and moves the rest to the front once more than the threshold are skipped. */
    method DropSlots(n: nat)
      requires n <= alloced && dataSkip + alloced <= slotData.Length
      modifies this`dataSkip, this`alloced, slotData
      ensures alloced == old(alloced) - n && dataSkip + alloced <= slotData.Length
      ensures Slots() == old(Slots())[n..]
    {
      assert slotData[dataSkip + n..dataSkip + alloced] == Slots()[n..];
      dataSkip, alloced := dataSkip + n, alloced - n;
      if dataSkip > dataThreshold {
        MoveDown(slotData, dataSkip, alloced);
        dataSkip := 0;
      }
    }

    /** truncate(idx): everything up to and including idx; beyond the tracked range it throws. */
    method Truncate(idx: int) returns (ret: int, o: Outcome)
      requires Valid()
      modifies this, completedBits, activeBits, slotData
      ensures Valid() && (old(Clean()) ==> Clean()) && End() == old(End())
      ensures slotData == old(slotData) || fresh(slotData)
      ensures activeBits.words == old(activeBits.words) || fresh(activeBits.words)
      ensures completedBits.words == old(completedBits.words) || fresh(completedBits.words)
      ensures o == Done <==> idx < old(refIdx) + old(alloced)
      ensures o == Done ==> Abs() == Apply(old(Abs()), zero, Op<T>.Truncate(idx)) && ret == refIdx - 1
      ensures o == OutOfRange ==> Abs() == old(Abs())
      ensures Marks() == From(old(Marks()), refIdx)
    {
      hide Marked;
      AllFrom(refIdx, completedBits.Row());
      ret, o := refIdx - 1, Done;
      if idx - refIdx + 1 > 0 {
        o := DoTruncate(idx - refIdx + 1);
        ret := refIdx - 1;
      }
    }

    /** truncate(): the maximal completed prefix. */
    method TruncateCompleted() returns (ret: int)
      requires Valid()
      modifies this, completedBits, activeBits, slotData
      ensures Valid() && (old(Clean()) ==> Clean()) && End() == old(End())
      ensures slotData == old(slotData) || fresh(slotData)
      ensures activeBits.words == old(activeBits.words) || fresh(activeBits.words)
      ensures completedBits.words == old(completedBits.words) || fresh(completedBits.words)
      ensures Abs() == Apply(old(Abs()), zero, Op<T>.TruncateCompleted)
      ensures ret == refIdx - 1 == CompletedUpto(old(Abs()))
      ensures forall hint :: hint <= old(refIdx) ==>
        ret == UptoFrom(old(Abs()).completed, old(refIdx), old(End()), hint)
      ensures Marks() == From(old(Marks()), refIdx)
      ensures refIdx != old(refIdx) ==> Hidden() == Skipped(old(Hidden()) + refIdx - old(refIdx))
    {
      hide Truncated, View, Marked, From, UptoFrom, Bitset.Valid, Bitset.Bits, Bitset.Row, Bitset.ZeroTail;
      AllFrom(refIdx, completedBits.Row());
      UptoOfReference();
      var first := FirstIncomplete();
      if first == NPOS {
        first := alloced;
      } else if first == 0 {
        ShrunkView(refIdx, zero, Slots(), activeBits.Bits(), completedBits.Bits(), 0);
        assert Slots()[0..] == Slots() && activeBits.Bits()[0..] == activeBits.Bits();
        assert completedBits.Bits()[0..] == completedBits.Bits();
        return refIdx - 1;
      }
      var o := DoTruncate(first);
      ret := refIdx - 1;
    }

    lemma UptoOfReference()
      requires Valid()
      ensures forall hint :: hint <= refIdx ==>
        UptoFrom(Abs().completed, refIdx, End(), hint) == CompletedUpto(Abs())
    {
      hide UptoFrom, CompletedUpto, View;
      SlotsBelowEnd();
      forall hint | hint <= refIdx ensures UptoFrom(Abs().completed, refIdx, End(), hint) == CompletedUpto(Abs()) {
        UptoOfPrefix(Abs(), End(), hint);
      }
    }

    method FirstIncomplete() returns (first: nat)
      requires Valid()
      ensures first == NPOS || first <= alloced
      ensures FirstMissing(Abs().completed, refIdx) == refIdx + if first == NPOS then alloced else first
    {
      hide Content, WordArrays.At, Bit, ClearFrom, U64;
      first := completedBits.GetNextBit(0, false);
      FirstMissingOfBits(refIdx, completedBits.Bits(), 0, NPOS, first);
    }

    /** completed_upto and active_upto: one less than the first index from the hint on that is missing. */
    method Upto(completed: bool, hint: int) returns (r: int)
      requires Valid() && hint - refIdx <= INT64_MAX
      ensures var s := if completed then Abs().completed else Abs().active;
        && r == UptoFrom(s, refIdx, End(), hint)
        && IsUpto(s, refIdx, End(), hint, r)
    {
      hide Content, WordArrays.At, Bit;
      var bits := if completed then completedBits else activeBits;
      var start := if hint < refIdx then 0 else hint - refIdx;
      var first := bits.GetNextBit(start, false);
      if start < alloced { FirstMissingOfBits(refIdx, bits.Bits(), start, NPOS, first); }
      r := refIdx + (if first == NPOS then alloced else first) - 1;
    }

    /** The first index of a stream from refIdx + k on, as a bit position. */
    method NextIn(k: nat, completed: bool) returns (bit: nat)
      requires Valid() && k <= INT64_MAX
      ensures var s := if completed then Abs().completed else Abs().active;
        if bit == NPOS then forall i :: i in s ==> i < refIdx + k
        else
          && k <= bit < alloced && refIdx + bit in s && (forall i :: refIdx + k <= i < refIdx + bit ==> i !in s)
          && Lookup(Abs(), zero, refIdx + bit) == Slots()[bit]
    {
      hide Content, WordArrays.At, Bit, View, Lookup, IsNext, Marked, ClearFrom;
      var bits := if completed then completedBits else activeBits;
      bit := bits.GetNextBit(k, true);
      NextMember(refIdx, bits.Bits(), k, NPOS, bit);
      MembersOfView(refIdx, zero, Slots(), activeBits.Bits(), completedBits.Bits());
      if bit != NPOS { SlotIsLookup(refIdx, zero, Slots(), activeBits.Bits(), completedBits.Bits(), bit); }
    }

    /**
      foreach_all_completed and foreach_all_active: calls cb for the matching indices from start on,
      in ascending order, until it returns false.
     */
    method ForeachAll(start: int, completed: bool, cb: (int, T) -> bool) returns (visited: seq<(int, T)>)
      requires Valid() && start - refIdx <= INT64_MAX
      ensures var s := if completed then Abs().completed else Abs().active;
        InOrder(Abs(), zero, s, start, cb, visited) && Exhaustive(s, start, cb, visited)
    {
      hide View, Marked, Lookup, VisitedBelow, InOrder, Exhaustive;
      hide Bitset.Valid, Bitset.Bits, Bitset.Row, Bitset.ZeroTail;
      visited := [];
      ghost var st := Abs();
      ghost var s := if completed then st.completed else st.active;
      MembersOfView(refIdx, zero, Slots(), activeBits.Bits(), completedBits.Bits());
      var bit := if start < refIdx then 0 else start - refIdx;
      VisitStarts(st, zero, s, start, cb, refIdx + bit);
      while true
        invariant 0 <= bit <= INT64_MAX && start <= refIdx + bit && Abs() == st
        invariant VisitedBelow(st, zero, s, start, cb, visited, refIdx + bit)
        decreases alloced - bit
      {
        ghost var from := bit;
        bit := NextIn(bit, completed);
        if bit == NPOS {
          VisitEnds(st, zero, s, start, cb, visited, refIdx + from);
          return;
        }
        VisitNext(st, zero, s, start, cb, visited, refIdx + from, refIdx + bit);
        var idx, data := bit + refIdx, slotData[dataSkip + bit];
        assert Abs() == st && data == Lookup(st, zero, idx);
        visited := visited + [(idx, data)];
        if !cb(idx, data) { return; }
        bit := bit + 1;
      }
    }
  }

  // ----- what completing and forgetting indices without a slot does

  /** A tracker whose first n indices are completed and truncated. */
  method TruncateFirst(n: nat, bitsThreshold: nat) returns (t: StreamTracker<int>)
    requires 0 < n < ALLOC_BLK_SIZE
    ensures fresh(t) && fresh(t.Repr()) && t.Clean() && t.Abs() == Stream(n, map[], {}, {})
    ensures t.refIdx == n && t.End() == ALLOC_BLK_SIZE && t.Hidden() == if n < bitsThreshold then n else n % 64
  {
    hide View, Marked, Span, CompletedFrom, Apply, CompletedUpto, From;
    hide Bitset.Valid, Bitset.Bits, Bitset.Row, Bitset.ZeroTail;
    t := new StreamTracker<int>(-1, 0, 5000, bitsThreshold);
    t.VisibleMarks();
    var o := t.Complete(0, n - 1);
    FirstTruncated(t.zero, n);
    var ret := t.TruncateCompleted();
  }

  lemma FirstTruncated(zero: int, n: nat)
    requires 0 < n < ALLOC_BLK_SIZE
    ensures var s: Stream<int> := CompletedFrom(Stream(0, map[], {}, {}), 0, ALLOC_BLK_SIZE, 0, n - 1);
      Apply(s, zero, TruncateCompleted) == Stream(n, map[], {}, {}) && CompletedUpto(s) == n - 1
  {
    var s: Stream<int> := CompletedFrom(Stream(0, map[], {}, {}), 0, ALLOC_BLK_SIZE, 0, n - 1);
    FirstMissingUnique(s.completed, 0, n);
  }

  /** The indices lo..hi. */
  ghost function Indices(lo: int, hi: int): set<int> { Span(lo, hi, hi + 1) }

  /** complete(5, 12) after 0..9 have been truncated completes 10, 11 and 12 and throws nothing. */
  method CompletesInFront() returns (t: StreamTracker<int>, o: Outcome)
    ensures t.Valid() && o == Done && t.Abs() == Stream(10, map[], {}, Indices(10, 12))
  {
    hide View, Marked, Bitset.Valid, Bitset.Bits, Bitset.Row, Bitset.ZeroTail;
    t := TruncateFirst(10, 640);
    t.VisibleMarks();
    o := t.Complete(5, 12);
    assert t.Abs().completed == Indices(10, 12);
  }

  /** After 640 truncated indices, complete(630, 650) throws if the bitset has been compacted and completes 640..650 if
      not: a debug build, whose threshold is 640, does the one and a release build, with 65536, the other. */
  method CompactionShows(bitsThreshold: nat) returns (t: StreamTracker<int>, o: Outcome)
    ensures t.Valid() && (o == Done <==> 640 < bitsThreshold)
    ensures t.Abs() == Stream(640, map[], {}, if o == Done then Indices(640, 650) else {})
  {
    hide View, Marked, Bitset.Valid, Bitset.Bits, Bitset.Row, Bitset.ZeroTail;
    t := TruncateFirst(640, bitsThreshold);
    t.VisibleMarks();
    o := t.Complete(630, 650);
    if o == Done { assert t.Abs().completed == Indices(640, 650); }
  }

  /** 10000..10005 are completed in front of their slots and rolled back; making room for 10010 completes them again. */
  method RolledBackReturn() returns (t: StreamTracker<int>, o: Outcome)
    ensures t.Valid() && o == Done && t.Abs().completed == Indices(10000, 10005) && t.Abs().active == {10010}
  {
    hide View, Marked, Bitset.Valid, Bitset.Bits, Bitset.Row, Bitset.ZeroTail;
    t := new StreamTracker<int>(-1, 0, 5000, 640);
    t.VisibleMarks();
    t.LastWordEnds();
    var done := t.Complete(9990, 10005);
    assert t.Marks() == Indices(9990, 10005);
    o := t.Rollback(9989);
    assert t.Marks() == Indices(10000, 10005);
    var ret := t.DoUpdate(10010, data => (data, false), true, 1);
    assert t.Abs().completed == Indices(10000, 10005);
  }
}
