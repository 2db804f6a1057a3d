/**
  BitsetImpl (include/sisl/fds/bitset.hpp) with 64-bit words.

  The abstract value of a bitset is `Bits()`, a sequence of booleans. The words
  hold it at an offset of `skipBits`: a shrunk head stays in memory until the
  skipped part reaches the compaction threshold.
 */
module Bitsets {
  import opened Wrappers
  import opened BitVectors
  import opened Bitwords
  import opened WordArrays
  import opened ResetRuns

  /** Compaction leaves the bits past the logical end where they are. */
  lemma CompactionKeepsTail(ws: seq<Bitword>, skip: nat, nbits: nat)
    requires skip <= nbits && |ws| == TotalWords(nbits)
    ensures CleanCut(ws, skip, nbits - skip, false) <==> ClearFrom(ws, nbits)
  {
    assert skip / 64 + TotalWords(nbits - skip + skip % 64) == |ws|;
  }

  // ----- counting

  function CountTrue(bits: seq<bool>): nat {
    if bits == [] then 0 else CountTrue(bits[..|bits| - 1]) + if bits[|bits| - 1] then 1 else 0
  }

  /** The number of set bits of the row in positions lo..hi-1. */
  function RowCount(ws: seq<Bitword>, lo: nat, hi: nat): nat
    decreases hi
  {
    if hi <= lo then 0 else RowCount(ws, lo, hi - 1) + if At(ws, hi - 1) then 1 else 0
  }

  lemma {:induction false} RowCountSplit(ws: seq<Bitword>, lo: nat, mid: nat, hi: nat)
    requires lo <= mid <= hi
    ensures RowCount(ws, lo, hi) == RowCount(ws, lo, mid) + RowCount(ws, mid, hi)
    decreases hi
  {
    if mid < hi { RowCountSplit(ws, lo, mid, hi - 1); }
  }

  lemma {:induction false} CountWord(ws: seq<Bitword>, k: nat, lo: nat, hi: nat)
    requires k < |ws| && lo <= hi <= 64
    ensures RowCount(ws, 64 * k + lo, 64 * k + hi) == Count(ws[k], lo, hi)
    decreases hi
  {
    if lo < hi {
      CountWord(ws, k, lo, hi - 1);
      AtWord(ws, k, hi - 1);
    }
  }

  lemma {:induction false} RowCountIsCountTrue(ws: seq<Bitword>, lo: nat, hi: nat)
    requires lo <= hi
    ensures RowCount(ws, lo, hi) == CountTrue(Content(ws, lo, hi))
    decreases hi
  {
    hide At;
    if lo < hi {
      RowCountIsCountTrue(ws, lo, hi - 1);
      assert Content(ws, lo, hi)[..hi - lo - 1] == Content(ws, lo, hi - 1);
    }
  }

  lemma Disagrees(ws: seq<Bitword>, nbits: nat, lo: nat, hi: nat, p: nat, value: bool)
    requires lo <= p < hi && p < nbits && At(ws, p) != value
    ensures !AllAre(Content(ws, 0, nbits), lo, hi, value)
  {
    assert Content(ws, 0, nbits)[p] != value;
  }

  /** The bits of positions lo..hi-1, as far as there are any, have the given value. */
  predicate AllAre(bits: seq<bool>, lo: nat, hi: nat, value: bool) {
    forall i :: lo <= i < hi && i < |bits| ==> bits[i] == value
  }

  /** A range of the logical content is a range of the whole. */
  lemma SameRange(ws: seq<Bitword>, skip: nat, nbits: nat, lo: nat, hi: nat, value: bool)
    requires skip <= nbits
    ensures AllAre(Content(ws, skip, nbits), lo, hi, value) <==>
      AllAre(Content(ws, 0, nbits), lo + skip, hi + skip, value)
  {
    hide At, Content;
    var bits, whole := Content(ws, skip, nbits), Content(ws, 0, nbits);
    if AllAre(bits, lo, hi, value) {
      forall p | lo + skip <= p < hi + skip && p < nbits ensures whole[p] == value { assert bits[p - skip] == value; }
    }
    if AllAre(whole, lo + skip, hi + skip, value) {
      forall i | lo <= i < hi && i < |bits| ensures bits[i] == value { assert whole[i + skip] == value; }
    }
  }

  lemma CutRange(bits: seq<bool>, lo: nat, hi: nat, value: bool)
    ensures AllAre(bits, lo, hi, value) <==> AllAre(bits, lo, Min(hi, |bits|), value)
  {}

  /** One bit written, seen from the front, from the first logical bit, and with what lies past the last one. */
  lemma OneWritten(ws: seq<Bitword>, ws': seq<Bitword>, skip: nat, nbits: nat, pos: nat, value: bool)
    requires skip <= nbits <= 64 * |ws| && pos < nbits && Written(ws, ws', pos, pos + 1, value)
    ensures Content(ws', 0, nbits) == Content(ws, 0, nbits)[pos := value]
    ensures var bits := Content(ws, skip, nbits);
      Content(ws', skip, nbits) == if skip <= pos then bits[pos - skip := value] else bits
    ensures var row := Content(ws, skip, 64 * |ws|);
      Content(ws', skip, 64 * |ws|) == if skip <= pos then row[pos - skip := value] else row
    ensures ClearFrom(ws, nbits) ==> ClearFrom(ws', nbits)
  {
    hide Bit, Content;
    forall p | nbits <= p && ClearFrom(ws, nbits) ensures !At(ws', p) { assert !At(ws, p); }
  }

  /** There is no logical bit from start on. */
  lemma NothingFrom(ws: seq<Bitword>, skip: nat, nbits: nat, start: nat, value: bool)
    requires skip <= nbits <= start + skip
    ensures IsNext(Content(ws, skip, nbits), start, value, NPOS, NPOS)
  {}

  lemma NothingBetween(ws: seq<Bitword>, p: nat, value: bool)
    ensures Without(ws, p, p, value)
  {}

  lemma JoinWithout(ws: seq<Bitword>, lo: nat, mid: nat, hi: nat, value: bool)
    ensures Without(ws, lo, mid, value) && Without(ws, mid, hi, value) ==> Without(ws, lo, hi, value)
  {}

  /** A search that starts in the head: the first word decides, or the search from the next word on. */
  lemma FromHead(ws: seq<Bitword>, skip: nat, nbits: nat, k: nat, offset: nat, found: Option<nat>, value: bool,
                 ret: nat)
    requires offset < 64 && 64 * k + offset < skip <= nbits <= MAX_BITS
    requires found.None? ==> Without(ws, 64 * k + offset, 64 * k + 64, value)
    requires found.Some? ==> offset <= found.value < 64 && FirstMatch(ws, 64 * k + offset, 64 * k + found.value, value)
    requires found.Some? && 64 * k + found.value != skip - 1 ==>
      ret == if skip <= 64 * k + found.value < nbits then 64 * k + found.value - skip else NPOS
    requires found.None? || 64 * k + found.value == skip - 1 ==>
      if 64 * k + 64 < skip then ret == NPOS else IsNext(Content(ws, skip, nbits), 64 * k + 64 - skip, value, NPOS, ret)
    ensures IsNextFromHead(ws, skip, nbits, 64 * k + offset, value, ret)
  {
    hide At, Content, IsNext;
    var pos := 64 * k + offset;
    Position(k, offset);
    forall q | pos <= q < 64 * k + 64 && FirstMatch(ws, pos, q, value)
      ensures found.Some? && q == 64 * k + found.value
    {
      assert At(ws, q) == value;
    }
    if found.Some? { assert !Without(ws, pos, 64 * k + 64, value); }
  }

  /** The answer from what the first word gave and, if that reads as "not found", from what the later words gave. */
  lemma NextAnswer(ws: seq<Bitword>, skip: nat, nbits: nat, start: nat, k: nat, offset: nat, found: Option<nat>,
                   value: bool, ret: nat)
    requires start <= NPOS && skip <= nbits <= MAX_BITS
    requires offset < 64 && 64 * k + offset == U64(start + skip) < nbits
    requires found.None? ==> Without(ws, 64 * k + offset, 64 * k + 64, value)
    requires found.Some? ==> offset <= found.value < 64 && FirstMatch(ws, 64 * k + offset, 64 * k + found.value, value)
    requires var first := if found.Some? then U64(start + found.value - offset) else NPOS;
      if first == NPOS then IsNext(Content(ws, skip, nbits), U64(start + 64 - offset), value, NPOS, ret)
      else ret == if first < nbits - skip then first else NPOS
    ensures start + skip <= NPOS ==> IsNext(Content(ws, skip, nbits), start, value, NPOS, ret)
    ensures start + skip > NPOS ==> IsNextFromHead(ws, skip, nbits, 64 * k + offset, value, ret)
  {
    hide At, Content, U64, Without, IsNextFromHead;
    if start + skip <= NPOS {
      if found.Some? {
        NextOfRow(ws, skip, nbits, NPOS, start, value, start + found.value - offset);
      } else {
        NextGoesOn(ws, skip, nbits, NPOS, start, start + 64 - offset, value, ret);
      }
    } else {
      FromHead(ws, skip, nbits, k, offset, found, value, ret);
    }
  }

  /** Copying whole words from a word boundary keeps content and tail. */
  lemma StraightCopy(ws: seq<Bitword>, ws': seq<Bitword>, skip: nat, nbits: nat)
    requires skip <= nbits && skip % 64 == 0 && |ws| == TotalWords(nbits)
    requires Reallocated(ws, ws', skip / 64, TotalWords(nbits - skip), false)
    ensures Content(ws', 0, nbits - skip) == Content(ws, skip, nbits)
    ensures ClearFrom(ws', nbits - skip) <==> ClearFrom(ws, nbits)
  {
    hide At, Content;
    TotalWordsBounds(nbits);
    ReallocatedContent(ws, ws', skip, nbits - skip, false);
    ReallocatedTail(ws, ws', skip, nbits - skip, false);
    CompactionKeepsTail(ws, skip, nbits);
    assert Resized(ws, skip, nbits - skip, false) == Content(ws, skip, nbits);
  }

  lemma SkipMore(ws: seq<Bitword>, skip: nat, n: nat, end: nat)
    requires skip + n <= end
    ensures Content(ws, skip + n, end) == Content(ws, skip, end)[n..]
  {
    hide At, Content;
  }

  /** All that a reallocation does to the bits. */
  lemma ReallocatedRows(ws: seq<Bitword>, ws': seq<Bitword>, skip: nat, nbits: nat, n: nat, value: bool)
    requires skip <= nbits && |ws| == TotalWords(nbits)
    requires Reallocated(ws, ws', skip / 64, TotalWords(n + skip % 64), value)
    ensures |ws'| == TotalWords(n + skip % 64)
    ensures var bits, row := Content(ws', skip % 64, n + skip % 64), Content(ws', skip % 64, 64 * |ws'|);
      && bits == Resized(ws, skip, n, value) && |row| == 64 * TotalWords(skip + n) - skip && bits == row[..n]
      && (!value ==> RowKept(Content(ws, skip, 64 * |ws|), row))
      && (!value && nbits - skip <= n && ClearFrom(ws, nbits) ==>
            bits == Content(ws, skip, nbits) + Repeat(false, n - (nbits - skip)))
    ensures ClearFrom(ws', n + skip % 64) <==> CleanCut(ws, skip, n, value)
    ensures !value && nbits - skip <= n && ClearFrom(ws, nbits) ==> ClearFrom(ws', n + skip % 64)
  {
    hide At, Bit, CleanCut, ClearFrom, Content, Resized, FillWord, RowKept;
    TotalWordsBounds(nbits);
    TotalWordsBounds(n + skip % 64);
    SameLastWord(skip, n);
    ReallocatedContent(ws, ws', skip, n, value);
    ReallocatedTail(ws, ws', skip, n, value);
    if !value { ReallocatedRow(ws, ws', skip, |ws'|); }
    if !value && nbits - skip <= n && ClearFrom(ws, nbits) { GrowsByZeros(ws, skip, nbits, n); }
  }

  /** A serialized bitset: header fields and words. */
  datatype Serialized = Serialized(nbits: nat, skipBits: nat, words: seq<Bitword>)

  /** A new buffer of cap words: the old words from drop on, then words filled with value. */
  method Reallocate(src: array<Bitword>, drop: nat, cap: nat, value: bool) returns (buf: array<Bitword>)
    requires drop <= src.Length
    ensures fresh(buf) && Reallocated(src[..], buf[..], drop, cap, value)
  {
    hide FillWord;
    var moved, fill := Min(src.Length - drop, cap), FillWord(value);
    buf := new Bitword[cap](_ => fill);
    var i := 0;
    while i < moved
      invariant 0 <= i <= moved
      invariant forall k :: 0 <= k < i ==> buf[k] == src[drop + k]
      invariant forall k :: i <= k < cap ==> buf[k] == fill
    {
      buf[i] := src[drop + i];
      i := i + 1;
    }
  }

  class Bitset {
    const compactionThreshold: nat
    var words: array<Bitword>
    var nbits: nat
    var skipBits: nat

    ghost predicate Valid()
      reads this
    {
      words.Length == TotalWords(nbits) && skipBits <= nbits <= MAX_BITS
    }

    /** Where a bit lies in the words. The sum has 64 bits, so from 2^64 - skipBits on it is a position of the skipped
        head. */
    function Pos(bit: nat): (p: nat)
      requires bit <= NPOS && skipBits <= MAX_BITS
      reads this
      ensures bit + skipBits <= NPOS ==> p == bit + skipBits
      ensures bit + skipBits > NPOS ==> p == bit + skipBits - NPOS - 1 < skipBits
    {
      U64(bit + skipBits)
    }

    /** The logical content behind the skipped head. */
    ghost function Whole(): seq<bool>
      reads this, words
    {
      Content(words[..], 0, nbits)
    }

    /** The logical content. */
    ghost function Bits(): seq<bool>
      reads this, words
    {
      Content(words[..], skipBits, nbits)
    }

    /** The logical content and, behind it, the bits past the last one up to the end of the last word. */
    ghost function Row(): seq<bool>
      reads this, words
    {
      Content(words[..], skipBits, 64 * words.Length)
    }

    /** Nothing is set past the last logical bit: what growing relies on. */
    ghost predicate ZeroTail()
      reads this, words
    {
      ClearFrom(words[..], nbits)
    }

    constructor (n: nat, threshold: nat)
      requires n <= MAX_BITS
      ensures Valid() && ZeroTail() && fresh(words) && skipBits == 0
      ensures compactionThreshold == threshold
      ensures |Bits()| == n && forall i :: 0 <= i < n ==> !Bits()[i]
    {
      compactionThreshold := threshold;
      nbits, skipBits := n, 0;
      var ws := new Bitword[TotalWords(n)](_ => ZERO);
      words := ws;
      new;
      ZeroBits();
      assert forall p :: 0 <= p ==> !At(words[..], p);
    }

    /** get_next_set_bit and get_next_reset_bit. */
    method GetNextBit(start: nat, value: bool) returns (ret: nat)
      requires Valid() && start <= NPOS
      ensures start + skipBits <= NPOS ==> IsNext(Bits(), start, value, NPOS, ret)
      ensures start + skipBits > NPOS ==> IsNextFromHead(words[..], skipBits, nbits, Pos(start), value, ret)
    {
      hide At, Bit, NextBit, Content, U64, Without, IsNext, IsNextFromHead;
      ghost var ws := words[..];
      var total, pos := nbits - skipBits, Pos(start);
      TotalWordsBounds(nbits);
      ret := NPOS;
      if pos >= nbits {
        NothingFrom(ws, skipBits, nbits, start, value);
        return;
      }
      var k, offset := pos / 64, pos % 64;
      var found := NextBit(words[k], offset, value);
      NextInWord(ws, k, offset, value);
      if found.Some? { ret := U64(start + found.value - offset); }
      if ret == NPOS { ret := NextInLaterWords(k, U64(start + (64 - offset)), value); }
      if ret >= total { ret := NPOS; }
      NextAnswer(ws, skipBits, nbits, start, k, offset, found, value, ret);
    }

    /** The words behind word k0; from is where they start. */
    method NextInLaterWords(k0: nat, from: nat, value: bool) returns (ret: nat)
      requires Valid() && k0 < words.Length
      requires from <= nbits - skipBits ==> from + skipBits == 64 * k0 + 64
      ensures IsNext(Bits(), from, value, NPOS, if ret < nbits - skipBits then ret else NPOS)
    {
      hide At, Bit, NextBit, Content, U64, Without;
      ghost var ws := words[..];
      TotalWordsBounds(nbits);
      var k, total, current := k0, nbits - skipBits, from;
      var remaining := if current > total then 0 else total - current;
      ret := NPOS;
      NothingBetween(ws, from + skipBits, value);
      while remaining > 0
        invariant from <= current && (current <= total ==> k < |ws| && current + skipBits == 64 * k + 64)
        invariant remaining == if current > total then 0 else total - current
        invariant from <= total ==> Without(ws, from + skipBits, current + skipBits, value)
      {
        k := k + 1;
        var found := NextBit(words[k], 0, value);
        NextInWord(ws, k, 0, value);
        if found.Some? {
          JoinWithout(ws, from + skipBits, current + skipBits, current + found.value + skipBits, value);
          NextOfRow(ws, skipBits, nbits, NPOS, from, value, current + found.value);
          return current + found.value;
        }
        JoinWithout(ws, from + skipBits, current + skipBits, current + 64 + skipBits, value);
        current, remaining := current + 64, remaining - Min(remaining, 64);
      }
      if from <= total {
        NextOfRow(ws, skipBits, nbits, NPOS, from, value, current);
      } else {
        NothingFrom(ws, skipBits, nbits, from, value);
      }
    }

    /** Out-of-range bits read as false (the assertion is compiled out in release builds). */
    method GetBitval(bit: nat) returns (b: bool)
      requires Valid() && bit <= NPOS
      ensures b == (Pos(bit) < nbits && Whole()[Pos(bit)])
      ensures bit + skipBits <= NPOS ==> b == (bit < |Bits()| && Bits()[bit])
    {
      hide U64;
      var pos := Pos(bit);
      if pos >= nbits { return false; }
      TotalWordsBounds(nbits);
      b := Bit(words[pos / 64], pos % 64);
      assert At(words[..], pos) == b;
    }

    /**
      Writes value to nbits bits from start on. The source checks the end against the last word
      only, so a range may run over the logical end within that word; beyond the last word it
      throws after having written everything before it.
     */
    method SetResetBits(start: nat, count: nat, value: bool) returns (o: Outcome)
      requires Valid() && start <= NPOS
      requires Pos(start) < nbits ==> 0 < count
      modifies words
      ensures Valid()
      ensures o == Done <==> Pos(start) < nbits && Pos(start) + count <= 64 * words.Length
      ensures Pos(start) >= nbits ==> words[..] == old(words[..])
      ensures Pos(start) < nbits ==>
        Written(old(words[..]), words[..], Pos(start), Pos(start) + count, value)
      ensures start < |Bits()| && start + count <= |Bits()| ==>
        && o == Done
        && Bits() == Overwrite(old(Bits()), start, count, value)
        && (old(ZeroTail()) ==> ZeroTail())
    {
      hide At, Bit, Content, Overwrite, ClearFrom, Written, U64;
      ghost var ws := words[..];
      TotalWordsBounds(nbits);
      var pos := Pos(start);
      if pos >= nbits { return OutOfRange; }
      o := WriteFrom(pos, count, value);
      if start < nbits - skipBits && pos + count <= nbits {
        WrittenContent(ws, words[..], skipBits, nbits, start, count, value);
      }
    }

    /** Word by word from position pos on, to the last word at most. */
    method WriteFrom(pos: nat, count: nat, value: bool) returns (o: Outcome)
      requires Valid() && pos < nbits && 0 < count
      modifies words
      ensures o == Done <==> pos + count <= 64 * words.Length
      ensures Written(old(words[..]), words[..], pos, pos + count, value)
    {
      hide At, Bit, Bitwords.SetResetBits, Content, Written;
      ghost var ws := words[..];
      TotalWordsBounds(nbits);
      var k, offset := pos / 64, pos % 64;
      var n := Min(64 - offset, count);
      words[k] := Bitwords.SetResetBits(words[k], offset, n, value);
      NothingWritten(ws, pos, value);
      WriteWord(ws, ws, words[..], pos, pos, pos + n, value);
      var remaining: nat := count - n;
      k := k + 1;
      while remaining > 0 && k != words.Length
        invariant k <= words.Length && remaining <= count
        invariant remaining > 0 ==> pos + count - remaining == 64 * k
        invariant remaining == 0 ==> pos + count <= 64 * k
        invariant Written(ws, words[..], pos, pos + count - remaining, value)
      {
        n := Min(remaining, 64);
        ghost var ws1 := words[..];
        words[k] := Bitwords.SetResetBits(words[k], 0, n, value);
        WriteWord(ws, ws1, words[..], pos, 64 * k, 64 * k + n, value);
        remaining, k := remaining - n, k + 1;
      }
      if remaining > 0 { WrittenToEnd(ws, words[..], pos, pos + count, value); }
      o := if remaining > 0 then OutOfRange else Done;
    }

    /** set_bit and reset_bit: one bit, nothing when it is out of range. */
    method SetResetBit(bit: nat, value: bool)
      requires Valid() && bit <= NPOS
      modifies words
      ensures Valid()
      ensures Bits() == if bit < |old(Bits())| then old(Bits())[bit := value] else old(Bits())
      ensures Whole() == if Pos(bit) < nbits then old(Whole())[Pos(bit) := value] else old(Whole())
      ensures Row() == if bit < |old(Bits())| then old(Row())[bit := value] else old(Row())
      ensures old(ZeroTail()) ==> ZeroTail()
    {
      hide At, Bit, Bitwords.SetResetBits, U64;
      ghost var ws := words[..];
      var pos := Pos(bit);
      if pos >= nbits { return; }
      TotalWordsBounds(nbits);
      words[pos / 64] := Bitwords.SetResetBits(words[pos / 64], pos % 64, 1, value);
      WriteWord(ws, ws, words[..], pos, pos, pos + 1, value);
      OneWritten(ws, words[..], skipBits, nbits, pos, value);
    }

    /** is_bits_set and is_bits_reset; a range that runs over the end is cut there. */
    method IsBitsSetReset(start: nat, count: nat, value: bool) returns (b: bool)
      requires Valid() && start <= NPOS
      requires Pos(start) < nbits ==> 0 < count
      ensures Pos(start) >= nbits ==> b == (count == 0)
      ensures Pos(start) < nbits ==> b == AllAre(Whole(), Pos(start), Pos(start) + count, value)
      ensures start < |Bits()| ==> b == AllAre(Bits(), start, start + count, value)
    {
      hide At, Bit, Content, U64, AllAre;
      var pos, total := Pos(start), nbits - skipBits;
      if pos >= nbits { return count == 0; }
      SameRange(words[..], skipBits, nbits, start, start + count, value);
      CutRange(Whole(), pos, pos + count, value);
      b := CheckFrom(pos, Min(count, U64(total - start)), value);
    }

    /** Word by word from position pos on. */
    method CheckFrom(pos: nat, count: nat, value: bool) returns (b: bool)
      requires Valid() && 0 < count <= nbits - pos
      ensures b == AllAre(Whole(), pos, pos + count, value)
    {
      hide At, Bit, Bitwords.IsBitsSetReset, Content;
      ghost var ws := words[..];
      TotalWordsBounds(nbits);
      var remaining: nat := count;
      ghost var end := pos + remaining;
      var k, offset := pos / 64, pos % 64;
      var n := Min(64 - offset, remaining);
      AtWordAll(ws, k);
      if !Bitwords.IsBitsSetReset(words[k], offset, n, value) {
        ghost var j :| offset <= j < offset + n && Bit(words[k], j) != value;
        Disagrees(ws, nbits, pos, pos + count, 64 * k + j, value);
        return false;
      }
      remaining, k := remaining - n, k + 1;
      while remaining > 0 && k != words.Length
        invariant k <= words.Length && remaining < end
        invariant remaining > 0 ==> end - remaining == 64 * k
        invariant Without(ws, pos, end - remaining, !value)
      {
        n := Min(remaining, 64);
        AtWordAll(ws, k);
        if !Bitwords.IsBitsSetReset(words[k], 0, n, value) {
          ghost var j :| 0 <= j < n && Bit(words[k], j) != value;
          Disagrees(ws, nbits, pos, pos + count, 64 * k + j, value);
          return false;
        }
        remaining, k := remaining - n, k + 1;
      }
      b := remaining == 0;
    }

    /** The number of set bits in start..end inclusive, cut at the last bit. */
    method GetSetCount(start: nat, end: nat) returns (count: nat)
      requires Valid() && start <= end <= NPOS
      ensures Pos(start) >= nbits ==> count == 0
      ensures start < |Bits()| ==> count == CountTrue(Bits()[start..Min(end + 1, |Bits()|)])
      ensures start + skipBits > NPOS ==>
        count == CountTrue(Whole()[Pos(start)..if |Bits()| == 0 then Pos(start) + end - start + 1 else nbits])
    {
      hide At, Bit, Content, CountTrue, U64;
      var pos, total := Pos(start), nbits - skipBits;
      if pos >= nbits { return 0; }
      var num := U64(Min(U64(total - 1), end) - start + 1);
      if start < total { assert Bits()[start..start + num] == Whole()[pos..pos + num]; }
      count := CountFrom(pos, num);
    }

    /** Word by word from position pos on. */
    method CountFrom(pos: nat, num: nat) returns (count: nat)
      requires Valid() && 0 < num <= nbits - pos
      ensures count == CountTrue(Whole()[pos..pos + num])
    {
      hide At, Bit, Content, Count, Shr, And, ConsecutiveMask, RowCount, CountTrue, TotalWords;
      ghost var ws := words[..];
      TotalWordsBounds(nbits);
      var k, offset := pos / 64, pos % 64;
      var shifted := Shr(words[k], offset);
      ShrAllBits(words[k], offset);
      if offset + num <= 64 {
        AndMask(shifted, num);
        count := PopCount(And(shifted, ConsecutiveMask(num)));
        PopCountRange(words[k], And(shifted, ConsecutiveMask(num)), offset, num);
        CountWord(ws, k, offset, offset + num);
      } else {
        count := PopCount(shifted);
        PopCountRange(words[k], shifted, offset, 64 - offset);
        CountWord(ws, k, offset, 64);
        var remaining := num - (64 - offset);
        while remaining >= 64
          invariant 0 <= remaining && pos + num - remaining == 64 * k + 64
          invariant count == RowCount(ws, pos, pos + num - remaining)
        {
          k := k + 1;
          count := count + PopCount(words[k]);
          CountWord(ws, k, 0, 64);
          RowCountSplit(ws, pos, 64 * k, 64 * k + 64);
          remaining := remaining - 64;
        }
        if remaining > 0 {
          k := k + 1;
          ShrAllBits(words[k], 0);
          AndMask(words[k], remaining);
          count := count + PopCount(And(words[k], ConsecutiveMask(remaining)));
          PopCountRange(words[k], And(words[k], ConsecutiveMask(remaining)), 0, remaining);
          CountWord(ws, k, 0, remaining);
          RowCountSplit(ws, pos, 64 * k, 64 * k + remaining);
        }
      }
      RowCountIsCountTrue(ws, pos, pos + num);
      assert Content(ws, pos, pos + num) == Whole()[pos..pos + num];
    }

    /** Drops the first n bits: marks them as skipped and compacts once enough are. */
    method ShrinkHead(n: nat) returns (o: Outcome)
      requires Valid()
      modifies this
      ensures Valid() && (words == old(words) || fresh(words))
      ensures o == OutOfRange <==> n > |old(Bits())|
      ensures o == OutOfRange ==> Bits() == old(Bits()) && unchanged(this)
      ensures o == Done ==> Bits() == old(Bits())[n..] && Row() == old(Row())[n..]
      ensures ZeroTail() <==> old(ZeroTail())
      ensures nbits <= old(nbits) && nbits - skipBits == old(nbits - skipBits) - if o == Done then n else 0
      ensures o == Done ==>
        skipBits == if old(skipBits) + n < compactionThreshold then old(skipBits) + n else (old(skipBits) + n) % 64
    {
      hide At, Bit, CleanCut, ClearFrom, Resized, Content, TotalWords;
      if n > nbits - skipBits { return OutOfRange; }
      TotalWordsBounds(nbits);
      SkipMore(words[..], skipBits, n, nbits);
      SkipMore(words[..], skipBits, n, 64 * words.Length);
      skipBits := skipBits + n;
      if skipBits >= compactionThreshold { Compact(); }
      o := Done;
    }

    /** Drops the words that are skipped entirely. */
    method Compact()
      requires Valid()
      modifies this
      ensures Valid() && fresh(words)
      ensures Bits() == old(Bits()) && Row() == old(Row()) && (ZeroTail() <==> old(ZeroTail()))
      ensures skipBits == old(skipBits) % 64 && nbits - skipBits == old(nbits - skipBits)
    {
      hide At, Bit, CleanCut, ClearFrom, Content;
      TotalWordsBounds(nbits);
      CompactionKeepsTail(words[..], skipBits, nbits);
      ResizeImpl(nbits - skipBits, false);
      assert Bits() == old(Bits());
      assert Row() == old(Row());
    }

    /** Reallocates to n bits, dropping the words that are skipped entirely. */
    method ResizeImpl(n: nat, value: bool)
      requires Valid() && n + skipBits % 64 <= MAX_BITS
      modifies this
      ensures Valid() && fresh(words)
      ensures skipBits == old(skipBits) % 64 && nbits == n + skipBits
      ensures Bits() == Resized(old(words[..]), old(skipBits), n, value)
      ensures ZeroTail() <==> CleanCut(old(words[..]), old(skipBits), n, value)
      ensures |Row()| == 64 * TotalWords(old(skipBits) + n) - old(skipBits) && Bits() == Row()[..n]
      ensures !value ==> RowKept(old(Row()), Row())
      ensures !value && |old(Bits())| <= n && old(ZeroTail()) ==>
        ZeroTail() && Bits() == old(Bits()) + Repeat(false, n - |old(Bits())|)
    {
      hide At, Bit, CleanCut, ClearFrom, Content, Resized, FillWord, RowKept, Reallocated;
      TotalWordsBounds(nbits);
      ghost var ws := words[..];
      var shrinkWords, newSkip := skipBits / 64, skipBits % 64;
      var newCap := TotalWords(n + newSkip);
      var buf := Reallocate(words, shrinkWords, newCap, value);
      ReallocatedRows(ws, buf[..], skipBits, nbits, n, value);
      words, nbits, skipBits := buf, n + newSkip, newSkip;
    }

    /**
      Searches start..end (to the last bit without an end) for min..max contiguous reset bits.
      end + 1 is computed in 64 bits.
     */
    method GetNextContiguousResetBits(start: nat, end: Option<nat>, min: nat, max: nat) returns (b: BitBlock)
      requires Valid() && start <= NPOS && (end.Some? ==> end.value <= NPOS)
      ensures IsBlockFound(words[..], skipBits, start, FinalBit(end, |Bits()|), min, max, b)
    {
      hide At, Bit, IsFilteredMatch, Searching, IsBlockFound, Content, Absorb, U64;
      ghost var ws := words[..];
      TotalWordsBounds(nbits);
      var total := nbits - skipBits;
      var final := FinalBit(end, total);
      var pos := Pos(start);
      if final <= start { NothingThere(ws, skipBits, start, final, min, max); }
      if pos >= nbits { return NO_BLOCK; }
      var k: nat, offset: nat, current: nat := pos / 64, pos % 64, start;
      b := BitBlock(start, 0);
      SearchStarts(ws, skipBits, start, final, min, max);
      while b.nbits < max && current < final
        invariant final <= start ==> current == start && b.nbits == 0
        invariant start < final ==>
          && current + skipBits == 64 * k + offset && offset < 64
          && Searching(ws, skipBits, start, final, min, max, k, current, b)
        decreases final - current
      {
        var filter := BitFilter(if b.nbits >= min then 1 else Min(min - b.nbits, 64), min, 1);
        var r := GetNextResetBitsFiltered(words[k], offset, filter);
        SearchStep(ws, skipBits, start, final, min, max, k, current, b, r);
        var (block, stop) := Absorb(b, current, offset, min, r);
        b := block;
        if stop { return Trim(b, final, min, max); }
        current, offset, k := current + (64 - offset), 0, k + 1;
      }
      if start < final { SearchExhausted(ws, skipBits, start, final, min, max, k, current, b); }
      b := Trim(b, final, min, max);
    }

    /** get_next_contiguous_n_reset_bits: the first block of n reset bits from start on. */
    method GetNextContiguousNResetBits(start: nat, n: nat) returns (b: BitBlock)
      requires Valid() && 0 < n && start <= NPOS
      ensures b.start == NPOS <==> forall t :: start <= t ==> !ResetBlock(Bits(), t, n)
      ensures b.start != NPOS ==> start <= b.start && b.nbits == n && ResetBlock(Bits(), b.start, n)
      ensures b.start != NPOS ==> forall t :: start <= t < b.start ==> !ResetBlock(Bits(), t, n)
    {
      b := GetNextContiguousResetBits(start, None, n, n);
      SearchOneLength(words[..], skipBits, nbits, start, nbits - skipBits, n, b);
    }

    /** get_word_value: up to 64 bits from start on, zero beyond the last bit. */
    method GetWordValue(start: nat) returns (v: Bitword)
      requires Valid() && start <= NPOS
      ensures forall i :: 0 <= i < 64 ==> Bit(v, i) == (Pos(start) + i < nbits && Whole()[Pos(start) + i])
      ensures start + skipBits <= NPOS ==>
        forall i :: 0 <= i < 64 ==> Bit(v, i) == (start + i < |Bits()| && Bits()[start + i])
    {
      hide At, Bit, Content, Window, U64;
      TotalWordsBounds(nbits);
      var pos := Pos(start);
      if pos >= nbits { ZeroBits(); return ZERO; }
      var remaining := U64(nbits - skipBits - start);
      v := Window(words[..], pos / 64, pos % 64, Min(64, remaining));
      WindowBits(words[..], pos / 64, pos % 64, Min(64, remaining));
    }

    /** operator==: compares word by word, whatever the two offsets are. */
    method Equals(other: Bitset) returns (eq: bool)
      requires Valid() && other.Valid()
      ensures eq <==> Bits() == other.Bits()
    {
      hide At, Bit, Content, Window, Agree, TotalWords;
      if nbits - skipBits != other.nbits - other.skipBits { return false; }
      var total := nbits - skipBits;
      TotalWordsBounds(nbits);
      TotalWordsBounds(other.nbits);
      var ws1, ws2 := words[..], other.words[..];
      ghost var p1, p2 := skipBits, other.skipBits;
      AgreeIsEqualContent(ws1, p1, ws2, p2, total);
      NothingToCompare(ws1, p1, ws2, p2);
      var k1, k2, o1, o2 := skipBits / 64, other.skipBits / 64, skipBits % 64, other.skipBits % 64;
      var remaining := total;
      if o1 == o2 && o1 > 0 && remaining > 0 {
        // partial first word; from here on both sides are at word boundaries
        var n := Min(64 - o1, remaining);
        CompareWindows(ws1, p1, k1, o1, ws2, p2, k2, o2, 0, n, total);
        if Window(ws1, k1, o1, n) != Window(ws2, k2, o2, n) { return false; }
        k1, k2, o1, o2, remaining := k1 + 1, k2 + 1, 0, 0, remaining - n;
      }
      while remaining >= 64
        invariant 0 <= remaining <= total && Agree(ws1, p1, ws2, p2, total - remaining)
        invariant remaining > 0 ==> p1 + total - remaining == 64 * k1 + o1 && p2 + total - remaining == 64 * k2 + o2
      {
        CompareWindows(ws1, p1, k1, o1, ws2, p2, k2, o2, total - remaining, 64, total);
        if Window(ws1, k1, o1, 64) != Window(ws2, k2, o2, 64) { return false; }
        k1, k2, remaining := k1 + 1, k2 + 1, remaining - 64;
      }
      if remaining > 0 {
        CompareWindows(ws1, p1, k1, o1, ws2, p2, k2, o2, total - remaining, remaining, total);
        if Window(ws1, k1, o1, remaining) != Window(ws2, k2, o2, remaining) { return false; }
      }
      eq := true;
    }

    /**
      copy_unshifted: the same bits at offset zero. Of an empty set with no partial first word the
      source reads through a null pointer.
     */
    method CopyUnshifted(other: Bitset)
      requires other.Valid() && other != this
      requires |other.Bits()| > 0 || other.skipBits % 64 > 0
      modifies this
      ensures Valid() && fresh(words) && skipBits == 0
      ensures Bits() == other.Bits()
      ensures other.ZeroTail() ==> ZeroTail()
    {
      hide At, Bit, Content, Window, IsWindow, Unshifted, ClearFrom, TotalWords;
      var ws := other.words[..];
      var total := other.nbits - other.skipBits;
      TotalWordsBounds(other.nbits);
      TotalWordsBounds(total);
      var k, offset := other.skipBits / 64, other.skipBits % 64;
      if offset == 0 {
        var buf := new Bitword[TotalWords(total)](i requires 0 <= i < TotalWords(total) =>
          if k + i < |ws| then ws[k + i] else ZERO);
        assert Reallocated(ws, buf[..], k, TotalWords(total), false);
        words, nbits, skipBits := buf, total, 0;
        StraightCopy(ws, buf[..], other.skipBits, other.nbits);
      } else {
        var out, remaining := [], total;
        UnshiftedNothing(ws, other.skipBits, total);
        while remaining >= 64
          invariant 0 <= remaining <= total && 64 * |out| == total - remaining
          invariant Unshifted(ws, other.skipBits, total, out)
        {
          WindowBits(ws, k + |out|, offset, 64);
          UnshiftedPush(ws, other.skipBits, total, out, Window(ws, k + |out|, offset, 64));
          out, remaining := out + [Window(ws, k + |out|, offset, 64)], remaining - 64;
        }
        if remaining > 0 {
          WindowBits(ws, k + |out|, offset, remaining);
          UnshiftedPush(ws, other.skipBits, total, out, Window(ws, k + |out|, offset, remaining));
          out := out + [Window(ws, k + |out|, offset, remaining)];
        }
        UnshiftedContent(ws, other.skipBits, total, out);
        var buf := new Bitword[|out|](i requires 0 <= i < |out| => out[i]);
        assert buf[..] == out;
        words, nbits, skipBits := buf, total, 0;
      }
    }

    /** serialize, word by word: the unshifted words behind a header without skipped bits. */
    method Serialize() returns (s: Serialized)
      requires Valid()
      ensures s.nbits == |Bits()| && s.skipBits == 0 && |s.words| == TotalWords(s.nbits)
      ensures Content(s.words, 0, s.nbits) == Bits() && ClearFrom(s.words, s.nbits)
    {
      hide At, Bit, Content;
      ghost var ws := words[..];
      var total := nbits - skipBits;
      var out := [];
      while |out| < TotalWords(total)
        invariant |out| <= TotalWords(total) && Unshifted(ws, skipBits, total, out)
        decreases TotalWords(total) - |out|
      {
        var v := GetWordValue(64 * |out|);
        assert IsWindow(ws, skipBits + 64 * |out|, Min(64, total - 64 * |out|), v);
        out := out + [v];
      }
      UnshiftedContent(ws, skipBits, total, out);
      s := Serialized(total, 0, out);
    }

    /** The constructor from a serialized buffer. */
    constructor Load(s: Serialized, threshold: nat)
      requires s.skipBits <= s.nbits <= MAX_BITS && |s.words| >= TotalWords(s.nbits)
      ensures Valid() && fresh(words) && compactionThreshold == threshold
      ensures nbits == s.nbits && skipBits == s.skipBits
      ensures Bits() == Content(s.words, s.skipBits, s.nbits)
      ensures |s.words| == TotalWords(s.nbits) ==> (ZeroTail() <==> ClearFrom(s.words, s.nbits))
    {
      compactionThreshold := threshold;
      nbits, skipBits := s.nbits, s.skipBits;
      var ws := new Bitword[TotalWords(s.nbits)](i requires 0 <= i < TotalWords(s.nbits) => s.words[i]);
      words := ws;
      new;
      hide Bit, Content;
      TotalWordsBounds(nbits);
      assert forall p :: 0 <= p < nbits ==> At(words[..], p) == At(s.words, p);
      assert Bits() == Content(s.words, s.skipBits, s.nbits);
      assert |s.words| == TotalWords(s.nbits) ==> words[..] == s.words;
    }
  }

  /** Saving and loading gives an equal set, whatever part of the head was skipped. */
  method SaveAndLoad(b: Bitset) returns (c: Bitset)
    requires b.Valid()
    ensures fresh(c) && c.Valid() && c.Bits() == b.Bits() && c.ZeroTail() && c.skipBits == 0
  {
    var s := b.Serialize();
    c := new Bitset.Load(s, b.compactionThreshold);
  }
}
