/**
  Operations on one word (include/sisl/fds/bitword.hpp), written with the masks
  and shifts of the source; every contract speaks about the single bits only.
 */
module Bitwords {
  import opened Wrappers
  import opened BitVectors

  /** Bit i of a word. */
  predicate Bit(w: Bitword, i: nat) { BitAt(w, i) }

  /** No bit of positions lo..hi-1 is set. */
  predicate Clear(w: Bitword, lo: nat, hi: nat) {
    forall i :: lo <= i < hi ==> !Bit(w, i)
  }

  function Min(a: nat, b: nat): nat { if a < b then a else b }

  // ----- masks

  lemma MaskedShift(w: Bitword, start: nat, n: nat)
    requires start + n <= 64
    ensures forall i :: 0 <= i < 64 ==>
      Bit(Shr(And(w, Shl(ConsecutiveMask(n), start)), start), i) == (i < n && Bit(w, start + i))
  {
    var mask := Shl(ConsecutiveMask(n), start);
    forall i | 0 <= i < 64
      ensures Bit(Shr(And(w, mask), start), i) == (i < n && Bit(w, start + i))
    {
      BitShr(And(w, mask), start, i);
      BitAnd(w, mask, start + i);
      if start + i < 64 {
        BitShl(ConsecutiveMask(n), start, start + i);
        BitMask(n, i);
      } else {
        NoBitAbove(w, start + i);
      }
    }
  }

  lemma NoBitAbove(w: Bitword, i: nat)
    requires 64 <= i
    ensures !Bit(w, i)
  {
    BitShr(w, 64, i - 64);
    ShrAll(w);
    BitOne(i - 64);
  }

  lemma ShiftedMask(start: nat, n: nat)
    ensures forall i :: 0 <= i < 64 ==>
      Bit(Shl(ConsecutiveMask(n), start), i) == (start <= i < start + n)
  {
    forall i | 0 <= i < 64
      ensures Bit(Shl(ConsecutiveMask(n), start), i) == (start <= i < start + n)
    {
      BitShl(ConsecutiveMask(n), start, i);
      if start <= i { BitMask(n, i - start); }
    }
  }

  lemma OrWith(w: Bitword, mask: Bitword)
    ensures forall i :: 0 <= i < 64 ==> Bit(Or(w, mask), i) == (Bit(w, i) || Bit(mask, i))
  {
    forall i | 0 <= i < 64
      ensures Bit(Or(w, mask), i) == (Bit(w, i) || Bit(mask, i))
    {
      BitOr(w, mask, i);
    }
  }

  lemma AndNot(w: Bitword, mask: Bitword)
    ensures forall i :: 0 <= i < 64 ==> Bit(And(w, Not(mask)), i) == (Bit(w, i) && !Bit(mask, i))
  {
    forall i | 0 <= i < 64
      ensures Bit(And(w, Not(mask)), i) == (Bit(w, i) && !Bit(mask, i))
    {
      BitAnd(w, Not(mask), i);
      BitNot(mask, i);
    }
  }

  lemma AndMask(w: Bitword, n: nat)
    ensures forall i :: 0 <= i < 64 ==> Bit(And(w, ConsecutiveMask(n)), i) == (i < n && Bit(w, i))
  {
    forall i | 0 <= i < 64 ensures Bit(And(w, ConsecutiveMask(n)), i) == (i < n && Bit(w, i)) {
      BitAnd(w, ConsecutiveMask(n), i);
      BitMask(n, i);
    }
  }

  lemma NotAll(w: Bitword)
    ensures forall i :: 0 <= i < 64 ==> Bit(Not(w), i) == !Bit(w, i)
  {
    forall i | 0 <= i < 64 ensures Bit(Not(w), i) == !Bit(w, i) { BitNot(w, i); }
  }

  lemma ShrAllBits(w: Bitword, n: nat)
    ensures forall i :: 0 <= i < 64 ==> Bit(Shr(w, n), i) == (n + i < 64 && Bit(w, n + i))
  {
    forall i | 0 <= i < 64
      ensures Bit(Shr(w, n), i) == (n + i < 64 && Bit(w, n + i))
    {
      BitShr(w, n, i);
      if 64 <= n + i { NoBitAbove(w, n + i); }
    }
  }

  lemma ZeroBits()
    ensures forall i :: 0 <= i < 64 ==> !Bit(ZERO, i)
  {
    forall i | 0 <= i < 64 ensures !Bit(ZERO, i) { BitOne(i); }
  }

  lemma SameWord(a: Bitword, b: Bitword)
    requires forall i :: 0 <= i < 64 ==> Bit(a, i) == Bit(b, i)
    ensures a == b
  {
    forall i | 0 <= i < 64 ensures BitAt(a, i) == BitAt(b, i) { assert Bit(a, i) == Bit(b, i); }
    WordsEqual(a, b);
  }

  /** A word is zero exactly when all its bits are clear. */
  lemma ZeroIffClear(w: Bitword)
    ensures w == ZERO <==> Clear(w, 0, 64)
  {
    ZeroBits();
    if Clear(w, 0, 64) { SameWord(w, ZERO); }
  }

  // ----- the operations of the source

  function Extract(w: Bitword, start: nat, nbits: nat): (r: Bitword)
    requires start < 64 && 0 < nbits
    ensures forall i :: 0 <= i < 64 ==>
      Bit(r, i) == (i < Min(64 - start, nbits) && Bit(w, start + i))
  {
    var wanted := Min(64 - start, nbits);
    MaskedShift(w, start, wanted);
    Shr(And(w, Shl(ConsecutiveMask(wanted), start)), start)
  }

  function SetResetBits(w: Bitword, start: nat, nbits: nat, value: bool): (r: Bitword)
    requires start < 64 && 0 < nbits
    ensures forall i :: 0 <= i < 64 ==>
      Bit(r, i) == if start <= i < start + nbits then value else Bit(w, i)
  {
    var wanted := Min(64 - start, nbits);
    var mask := Shl(ConsecutiveMask(wanted), start);
    ShiftedMask(start, wanted);
    OrWith(w, mask);
    AndNot(w, mask);
    if value then Or(w, mask) else And(w, Not(mask))
  }

  /** Are bits start .. start+nbits-1 all set, or all reset? Positions past the end of the word count as reset. */
  predicate IsBitsSetReset(w: Bitword, start: nat, nbits: nat, value: bool)
    requires start < 64 && 0 < nbits <= 64
    ensures IsBitsSetReset(w, start, nbits, value) <==>
      forall i :: start <= i < start + nbits ==> Bit(w, i) == value
  {
    var actual := Extract(w, start, nbits);
    var expected := if value then ConsecutiveMask(nbits) else ZERO;
    SetResetTest(w, start, nbits, value, actual, expected);
    actual == expected
  }

  lemma SetResetTest(w: Bitword, start: nat, nbits: nat, value: bool, actual: Bitword, expected: Bitword)
    requires start < 64 && 0 < nbits <= 64
    requires actual == Extract(w, start, nbits)
    requires expected == if value then ConsecutiveMask(nbits) else ZERO
    ensures actual == expected <==> forall i :: start <= i < start + nbits ==> Bit(w, i) == value
  {
    forall i | 0 <= i < 64 ensures Bit(expected, i) == (value && i < nbits) {
      BitMask(nbits, i);
      BitOne(i);
    }
    if actual == expected {
      forall i | start <= i < start + nbits ensures Bit(w, i) == value {
        assert i < 64 ==> Bit(actual, i - start) == Bit(w, i);
        if 64 <= i { NoBitAbove(w, i); assert Bit(actual, i - start) == value; }
      }
    }
    if forall i :: start <= i < start + nbits ==> Bit(w, i) == value {
      forall i | 0 <= i < 64 ensures Bit(actual, i) == Bit(expected, i) {
        if i < nbits { assert Bit(w, start + i) == value; }
        if 64 <= start + i { NoBitAbove(w, start + i); }
      }
      SameWord(actual, expected);
    }
  }

  /** std::countr_zero: the position of the lowest set bit, 64 for the zero word. */
  function TrailingZeros(w: Bitword): (n: nat)
    ensures n <= 64 && Clear(w, 0, n)
    ensures n < 64 ==> Bit(w, n)
  {
    LowestFrom(w, 0)
  }

  function LowestFrom(w: Bitword, i: nat): (n: nat)
    requires i <= 64
    ensures i <= n <= 64 && Clear(w, i, n)
    ensures n < 64 ==> Bit(w, n)
    decreases 64 - i
  {
    if i == 64 || Bit(w, i) then i else LowestFrom(w, i + 1)
  }

  /** logBase2: the position of the highest set bit. */
  function LogBase2(w: Bitword): (n: nat)
    requires w != ZERO
    ensures n < 64 && Bit(w, n) && Clear(w, n + 1, 64)
  {
    ZeroIffClear(w);
    HighestBelow(w, 64)
  }

  function HighestBelow(w: Bitword, i: nat): (n: nat)
    requires i <= 64 && !Clear(w, 0, i)
    ensures n < i && Bit(w, n) && Clear(w, n + 1, i)
    decreases i
  {
    if Bit(w, i - 1) then i - 1 else HighestBelow(w, i - 1)
  }

  function GetNextSetBit(w: Bitword, start: nat): (r: Option<nat>)
    requires start < 64
    ensures r.None? <==> Clear(w, start, 64)
    ensures r.Some? ==> start <= r.value < 64 && Bit(w, r.value) && Clear(w, start, r.value)
  {
    var e := Extract(w, start, 64);
    ZeroIffClear(e);
    ExtractedBits(w, start, e);
    if e != ZERO then Some(TrailingZeros(e) + start) else None
  }

  /** Positions of the extracted word, read back in the original one. */
  lemma ExtractedBits(w: Bitword, start: nat, e: Bitword)
    requires start < 64 && e == Extract(w, start, 64)
    ensures forall i :: start <= i < 64 ==> Bit(w, i) == Bit(e, i - start)
    ensures Clear(e, 64 - start, 64)
  {}

  function GetNextResetBit(w: Bitword, start: nat): (r: Option<nat>)
    requires start < 64
    ensures r.None? <==> forall i :: start <= i < 64 ==> Bit(w, i)
    ensures r.Some? ==> start <= r.value < 64 && !Bit(w, r.value)
    ensures r.Some? ==> forall i :: start <= i < r.value ==> Bit(w, i)
  {
    var x := Extract(w, start, 64);
    var e := Not(x);
    NotAll(x);
    ExtractedBits(w, start, x);
    ZeroIffClear(e);
    if e == ZERO then None
    else
      var bit := TrailingZeros(e) + start;
      if bit < 64 then assert !Bit(w, bit); Some(bit) else None
  }

  /** The lowest bit with the given value from start on. */
  function NextBit(w: Bitword, start: nat, value: bool): (r: Option<nat>)
    requires start < 64
    ensures r.None? <==> forall i :: start <= i < 64 ==> Bit(w, i) != value
    ensures r.Some? ==> start <= r.value < 64 && Bit(w, r.value) == value
    ensures r.Some? ==> forall i :: start <= i < r.value ==> Bit(w, i) != value
  {
    if value then GetNextSetBit(w, start) else GetNextResetBit(w, start)
  }

  /** start may be 64 here: CompactBitSet asks for the whole word that way. */
  function GetPrevSetBit(w: Bitword, start: nat): (r: Option<nat>)
    requires start <= 64
    ensures r.None? <==> Clear(w, 0, Min(start + 1, 64))
    ensures r.Some? ==> r.value <= start && r.value < 64 && Bit(w, r.value)
    ensures r.Some? ==> Clear(w, r.value + 1, Min(start + 1, 64))
  {
    var e := Extract(w, 0, start + 1);
    ZeroIffClear(e);
    assert forall i :: 0 <= i < Min(start + 1, 64) ==> Bit(w, i) == Bit(e, i) by {
      assert forall i :: 0 <= i < 64 ==> Bit(e, i) == (i < Min(64, start + 1) && Bit(w, 0 + i));
    }
    if e != ZERO then Some(LogBase2(e)) else None
  }

  // ----- counting

  /** The number of set bits in positions lo..hi-1. */
  function Count(w: Bitword, lo: nat, hi: nat): nat
    decreases hi
  {
    if hi <= lo then 0 else Count(w, lo, hi - 1) + if Bit(w, hi - 1) then 1 else 0
  }

  /** std::popcount. */
  function PopCount(w: Bitword): nat { Count(w, 0, 64) }

  lemma {:induction false} CountClear(w: Bitword, lo: nat, hi: nat)
    requires Clear(w, lo, hi)
    ensures Count(w, lo, hi) == 0
    decreases hi
  {
    if lo < hi { CountClear(w, lo, hi - 1); }
  }

  lemma {:induction false} CountSplit(w: Bitword, lo: nat, mid: nat, hi: nat)
    requires lo <= mid <= hi
    ensures Count(w, lo, hi) == Count(w, lo, mid) + Count(w, mid, hi)
    decreases hi
  {
    if mid < hi { CountSplit(w, lo, mid, hi - 1); }
  }

  lemma {:induction false} CountShifted(w: Bitword, r: Bitword, start: nat, n: nat)
    requires start + n <= 64
    requires forall i :: 0 <= i < n ==> Bit(r, i) == Bit(w, start + i)
    ensures Count(r, 0, n) == Count(w, start, start + n)
    decreases n
  {
    if n > 0 {
      CountShifted(w, r, start, n - 1);
      assert Bit(r, n - 1) == Bit(w, start + (n - 1));
    }
  }

  /** Counting a shifted and masked word counts a range of the original one. */
  lemma PopCountRange(w: Bitword, r: Bitword, start: nat, n: nat)
    requires start + n <= 64
    requires forall i :: 0 <= i < 64 ==> Bit(r, i) == (i < n && Bit(w, start + i))
    ensures PopCount(r) == Count(w, start, start + n)
  {
    CountShifted(w, r, start, n);
    CountClear(r, n, 64);
    CountSplit(r, 0, n, 64);
  }

  // ----- runs of reset bits

  datatype MatchType = NoMatch | FullMatch | LsbMatch | MidMatch | MsbMatch

  datatype BitFilter = BitFilter(lsbReqd: nat, midReqd: nat, msbReqd: nat)

  datatype BitMatch = BitMatch(kind: MatchType, start: nat, count: nat)

  /** n reset bits from position t on. */
  predicate Run(w: Bitword, t: nat, n: nat) { Clear(w, t, t + n) }

  /** No block of n reset bits starts in lo..hi-1 and lies within the word. */
  predicate NoRun(w: Bitword, lo: nat, hi: nat, n: nat) {
    forall t :: lo <= t < hi && t + n <= 64 ==> !Run(w, t, n)
  }

  /** A block of reset bits that cannot be extended to the left without crossing lo. */
  predicate RunAt(w: Bitword, lo: nat, s: nat, count: nat) {
    && lo <= s && 0 < count && s + count <= 64
    && Run(w, s, count)
    && (s == lo || Bit(w, s - 1))
  }

  /** n reset bits at the least significant end, the first thing the search looks for. */
  predicate LsbRun(w: Bitword, offset: nat, n: nat) {
    offset == 0 && n <= 64 && Run(w, 0, if n == 0 then 1 else n)
  }

  /** What a search of positions offset..63 under a filter has to return. */
  predicate IsFilteredMatch(w: Bitword, offset: nat, f: BitFilter, r: BitMatch) {
    var mid := if f.midReqd == 0 then 1 else f.midReqd;
    match r.kind
    case FullMatch => offset == 0 == r.start && r.count == 64 && f.lsbReqd <= 64 && Run(w, 0, 64)
    case LsbMatch =>
      && offset == 0 == r.start && f.lsbReqd <= r.count < 64
      && RunAt(w, 0, 0, r.count) && Bit(w, r.count)
    case MidMatch =>
      && RunAt(w, offset, r.start, r.count) && mid <= r.count
      && r.start + r.count < 64 && Bit(w, r.start + r.count)
      && NoRun(w, offset, r.start, mid) && !LsbRun(w, offset, f.lsbReqd)
    case MsbMatch =>
      && RunAt(w, offset, r.start, r.count) && r.start + r.count == 64
      && (mid <= r.count || f.msbReqd <= r.count)
      && NoRun(w, offset, r.start, mid) && !LsbRun(w, offset, f.lsbReqd)
    case NoMatch =>
      && NoRun(w, offset, 64, mid) && !LsbRun(w, offset, f.lsbReqd)
      && (0 < f.msbReqd <= 64 - offset ==> !Run(w, 64 - f.msbReqd, f.msbReqd))
  }

  /** A block cannot start among set bits s..p-1, nor reach across a set bit p less than n above s. */
  lemma NoRunGrows(w: Bitword, lo: nat, s: nat, p: nat, n: nat)
    requires NoRun(w, lo, s, n) && s <= p <= 64 && 0 < n
    requires (p < s + n && (p < 64 ==> Bit(w, p))) || forall i :: s <= i < p ==> Bit(w, i)
    ensures NoRun(w, lo, p, n)
  {
    forall t | lo <= t < p && t + n <= 64 ensures !Run(w, t, n) {
      if s <= t {
        if p < s + n && p < 64 && Bit(w, p) { assert Bit(w, p) && t <= p < t + n; } else { assert Bit(w, t); }
      }
    }
  }

  // ----- scanning a word from the low end: e is what remains above position pos

  predicate Tail(w: Bitword, e: Bitword, pos: nat) {
    forall i :: 0 <= i < 64 ==> Bit(e, i) == (pos + i < 64 && Bit(w, pos + i))
  }

  lemma TailAt(w: Bitword, e: Bitword, pos: nat, i: nat)
    requires Tail(w, e, pos) && pos <= i < 64
    ensures Bit(w, i) == Bit(e, i - pos)
  {}

  lemma TailShift(w: Bitword, e: Bitword, pos: nat, n: nat)
    requires Tail(w, e, pos)
    ensures Tail(w, Shr(e, n), pos + n)
  {
    ShrAllBits(e, n);
    forall i | 0 <= i < 64
      ensures Bit(Shr(e, n), i) == (pos + n + i < 64 && Bit(w, pos + n + i))
    {
      if n + i < 64 { assert Bit(e, n + i) == (pos + (n + i) < 64 && Bit(w, pos + (n + i))); }
    }
  }

  /** The ones at the low end of what remains. */
  lemma TailOnes(w: Bitword, e: Bitword, pos: nat)
    requires Tail(w, e, pos) && pos < 64
    ensures var n := TrailingZeros(Not(e));
      && (forall i :: pos <= i < pos + n && i < 64 ==> Bit(w, i))
      && (pos + n < 64 ==> !Bit(w, pos + n))
  {
    var n := TrailingZeros(Not(e));
    NotAll(e);
    forall i | pos <= i < pos + n && i < 64 ensures Bit(w, i) { TailAt(w, e, pos, i); }
    if pos + n < 64 { TailAt(w, e, pos, pos + n); }
  }

  /** The length of the block of zeros at the low end of what remains. */
  function LowZeros(e: Bitword, nbits: nat): nat {
    if e != ZERO then TrailingZeros(e) else nbits
  }

  lemma TailZeros(w: Bitword, e: Bitword, pos: nat)
    requires Tail(w, e, pos) && pos < 64
    ensures var n := LowZeros(e, 64 - pos);
      && n <= 64 - pos && Run(w, pos, n)
      && (n < 64 - pos <==> e != ZERO)
      && (n < 64 - pos ==> Bit(w, pos + n))
      && (!Bit(w, pos) ==> 0 < n)
  {
    ZeroIffClear(e);
    var n := LowZeros(e, 64 - pos);
    forall i | pos <= i < pos + n && i < 64 ensures !Bit(w, i) { TailAt(w, e, pos, i); }
    if e != ZERO { assert Bit(e, n); }
    TailAt(w, e, pos, pos);
  }

  /** Positions offset..start-1 hold nothing the filter asks for; e is the rest. */
  predicate Scanned(w: Bitword, offset: nat, f: BitFilter, e: Bitword, start: nat) {
    && offset <= start < 64 && Tail(w, e, start)
    && (start == offset || (Bit(w, start) && !LsbRun(w, offset, f.lsbReqd)))
    && NoRun(w, offset, start, MidNeed(f))
  }

  function MidNeed(f: BitFilter): nat { if f.midReqd == 0 then 1 else f.midReqd }

  lemma ScanStarts(w: Bitword, offset: nat, f: BitFilter)
    requires offset < 64
    ensures Scanned(w, offset, f, Extract(w, offset, 64), offset)
  {}

  /** Only ones are left. */
  lemma ScanFails(w: Bitword, offset: nat, f: BitFilter, e: Bitword, start: nat)
    requires Scanned(w, offset, f, e, start)
    requires TrailingZeros(Not(e)) >= 64 - start
    ensures IsFilteredMatch(w, offset, f, BitMatch(NoMatch, start + TrailingZeros(Not(e)), 0))
  {
    TailOnes(w, e, start);
    NoRunGrows(w, offset, start, 64, MidNeed(f));
    assert Bit(w, 63) && Bit(w, start);
  }

  /** The scan stands on a maximal block of count zeros at position pos. */
  predicate OnRun(w: Bitword, offset: nat, f: BitFilter, start: nat, e: Bitword, pos: nat, count: nat) {
    && start <= pos && Tail(w, e, pos) && RunAt(w, offset, pos, count)
    && (e != ZERO <==> pos + count < 64) && (pos + count < 64 ==> Bit(w, pos + count))
    && NoRun(w, offset, pos, MidNeed(f))
    && (offset < pos ==> !LsbRun(w, offset, f.lsbReqd))
  }

  lemma ScanFindsRun(w: Bitword, offset: nat, f: BitFilter, e: Bitword, start: nat)
    requires Scanned(w, offset, f, e, start)
    requires TrailingZeros(Not(e)) < 64 - start
    ensures var n := TrailingZeros(Not(e));
      var count := LowZeros(Shr(e, n), 64 - (start + n));
      && OnRun(w, offset, f, start, Shr(e, n), start + n, count)
      && 0 < count <= 64 - (start + n) && (Shr(e, n) != ZERO ==> count < 64 - (start + n))
  {
    var n := TrailingZeros(Not(e));
    TailOnes(w, e, start);
    NoRunGrows(w, offset, start, start + n, MidNeed(f));
    TailShift(w, e, start, n);
    TailZeros(w, Shr(e, n), start + n);
    assert n > 0 ==> Bit(w, start + n - 1) && Bit(w, start);
  }

  lemma ScanMatches(w: Bitword, offset: nat, f: BitFilter, start: nat, e: Bitword, pos: nat, count: nat)
    requires OnRun(w, offset, f, start, e, pos, count)
    ensures offset == 0 == pos && count >= f.lsbReqd ==>
      IsFilteredMatch(w, offset, f, BitMatch(if e == ZERO then FullMatch else LsbMatch, pos, count))
    ensures !(offset == 0 == pos && count >= f.lsbReqd) && count >= f.midReqd && e != ZERO ==>
      IsFilteredMatch(w, offset, f, BitMatch(MidMatch, pos, count))
    ensures !(offset == 0 == pos && count >= f.lsbReqd) && e == ZERO ==>
      IsFilteredMatch(w, offset, f,
        BitMatch(if count >= f.midReqd || count >= f.msbReqd then MsbMatch else NoMatch, pos, count))
  {
    if !(offset == 0 == pos && count >= f.lsbReqd) { LsbTooShort(w, offset, f, pos, count); }
    if e == ZERO && count < f.midReqd && count < f.msbReqd {
      NoRunGrows(w, offset, pos, 64, MidNeed(f));
    }
  }

  lemma LsbTooShort(w: Bitword, offset: nat, f: BitFilter, pos: nat, count: nat)
    requires RunAt(w, offset, pos, count) && (pos + count < 64 ==> Bit(w, pos + count))
    requires offset < pos ==> !LsbRun(w, offset, f.lsbReqd)
    requires !(offset == 0 == pos && count >= f.lsbReqd)
    ensures !LsbRun(w, offset, f.lsbReqd)
  {}

  lemma ScanAdvances(w: Bitword, offset: nat, f: BitFilter, start: nat, e: Bitword, pos: nat, count: nat)
    requires OnRun(w, offset, f, start, e, pos, count) && e != ZERO
    requires count < f.midReqd && !(offset == 0 == pos && count >= f.lsbReqd)
    ensures Scanned(w, offset, f, Shr(e, count), pos + count)
  {
    LsbTooShort(w, offset, f, pos, count);
    NoRunGrows(w, offset, pos, pos + count, MidNeed(f));
    TailShift(w, e, pos, count);
  }

  method GetNextResetBitsFiltered(w: Bitword, offset: nat, filter: BitFilter) returns (r: BitMatch)
    requires offset < 64
    ensures IsFilteredMatch(w, offset, filter, r)
  {
    hide *;
    var start, lsbSearch := offset, offset == 0;
    var e := Extract(w, offset, 64);
    var nbits := 64 - offset;
    ScanStarts(w, offset, filter);
    while true
      invariant offset <= start && 0 < nbits == 64 - start
      decreases nbits
      invariant Scanned(w, offset, filter, e, start)
      invariant lsbSearch == (offset == 0 == start)
    {
      var first0 := TrailingZeros(Not(e));
      if first0 >= nbits {
        ScanFails(w, offset, filter, e, start);
        return BitMatch(NoMatch, start + first0, 0);
      }
      ScanFindsRun(w, offset, filter, e, start);
      ghost var was := start;
      e, nbits, start := Shr(e, first0), nbits - first0, start + first0;
      var count := LowZeros(e, nbits);
      ScanMatches(w, offset, filter, was, e, start, count);
      if lsbSearch && first0 == 0 && count >= filter.lsbReqd {
        return BitMatch(if e == ZERO then FullMatch else LsbMatch, start, count);
      }
      if e == ZERO {
        return BitMatch(if count >= filter.midReqd || count >= filter.msbReqd then MsbMatch else NoMatch, start, count);
      } else if count >= filter.midReqd {
        return BitMatch(MidMatch, start, count);
      }
      ScanAdvances(w, offset, filter, was, e, start, count);
      e, lsbSearch, nbits, start := Shr(e, count), false, nbits - count, start + count;
    }
  }

  // ----- the longest block of reset bits

  /** The longest block of reset bits in start..63 that starts below pos has max bits, the first such at best. */
  predicate IsLongest(w: Bitword, start: nat, pos: nat, best: Option<nat>, max: nat) {
    && NoRun(w, start, pos, max + 1)
    && (best.None? <==> max == 0)
    && (best.Some? ==> RunAt(w, start, best.value, max) && NoRun(w, start, best.value, max))
  }

  predicate LongestScan(w: Bitword, start: nat, e: Bitword, pos: nat, best: Option<nat>, max: nat) {
    && start <= pos <= 64 && Tail(w, e, pos) && IsLongest(w, start, pos, best, max)
    && (pos == start || pos == 64 || Bit(w, pos))
  }

  /** A block of n ones, possibly empty, is removed from the low end. */
  lemma LongestSkipsOnes(w: Bitword, start: nat, e: Bitword, pos: nat, best: Option<nat>, max: nat, n: nat)
    requires LongestScan(w, start, e, pos, best, max) && pos < 64
    requires n == TrailingZeros(Not(e))
    ensures start <= pos && (n >= 64 - pos ==> IsLongest(w, start, 64, best, max))
    ensures Tail(w, Shr(e, n), pos + n)
    ensures n < 64 ==> n <= 64 - pos
    ensures pos + n < 64 ==> IsLongest(w, start, pos + n, best, max) && !Bit(w, pos + n)
    ensures pos + n < 64 ==> pos + n == start || Bit(w, pos + n - 1)
  {
    hide Bit, Not, Shr, TrailingZeros;
    TailOnes(w, e, pos);
    TailShift(w, e, pos, n);
    NoRunGrows(w, start, pos, Min(64, pos + n), max + 1);
    assert 0 < n && pos + n < 64 ==> Bit(w, pos + n - 1);
    NotAll(e);
    if 0 < pos { assert Bit(e, 64 - pos) == false && Bit(Not(e), 64 - pos); }
  }

  /** A block of count zeros at p is compared with the longest one so far. */
  lemma LongestCompares(w: Bitword, start: nat, e: Bitword, p: nat, best: Option<nat>, max: nat)
    requires IsLongest(w, start, p, best, max) && start <= p < 64 && Tail(w, e, p)
    requires !Bit(w, p) && (p == start || Bit(w, p - 1))
    ensures var count := LowZeros(e, 64 - p);
      && 0 < count <= 64 - p
      && (count < 64 - p <==> e != ZERO)
      && LongestScan(w, start, Shr(e, count), p + count,
           if count > max then Some(p) else best, if count > max then count else max)
  {
    hide Bit, Shr;
    var count := LowZeros(e, 64 - p);
    TailZeros(w, e, p);
    TailShift(w, e, p, count);
    if count > max {
      NoRunShorter(w, start, p, max + 1, count);
      NoRunGrows(w, start, p, p + count, count + 1);
    } else {
      NoRunGrows(w, start, p, p + count, max + 1);
    }
  }

  lemma NoRunShorter(w: Bitword, lo: nat, hi: nat, n: nat, m: nat)
    requires NoRun(w, lo, hi, n) && n <= m
    ensures NoRun(w, lo, hi, m) && NoRun(w, lo, hi, m + 1)
  {
    forall t | lo <= t < hi && t + m <= 64 ensures !Run(w, t, m) { assert !Run(w, t, n); }
    var m' := m + 1;
    forall t | lo <= t < hi && t + m' <= 64 ensures !Run(w, t, m') { assert !Run(w, t, n); }
  }

  lemma LongestStarts(w: Bitword, start: nat)
    requires start < 64
    ensures LongestScan(w, start, Extract(w, start, 64), start, None, 0)
  {}

  /** A zero word above pos is one block that reaches the top. */
  lemma LongestAllZero(w: Bitword, start: nat, e: Bitword, pos: nat, best: Option<nat>, max: nat)
    requires LongestScan(w, start, e, pos, best, max) && e == ZERO && pos < 64
    ensures var n := 64 - pos;
      IsLongest(w, start, 64, if n > max then Some(pos) else best, if n > max then n else max)
  {
    TailZeros(w, e, pos);
    ZeroIffClear(e);
    TailAt(w, e, pos, pos);
    LongestCompares(w, start, e, pos, best, max);
  }

  lemma LongestAtTop(w: Bitword, start: nat, e: Bitword, best: Option<nat>, max: nat)
    requires IsLongest(w, start, 64, best, max) && start < 64 && Tail(w, e, 64)
    ensures LowZeros(e, 0) == 0 && LongestScan(w, start, Shr(e, 0), 64, best, max)
  {
    ZeroIffClear(e);
  }

  /** One turn of the loop: n ones and then the zeros above them. */
  lemma LongestTurn(w: Bitword, start: nat, e: Bitword, pos: nat, best: Option<nat>, max: nat, n: nat)
    requires LongestScan(w, start, e, pos, best, max) && pos < 64
    requires n == TrailingZeros(Not(e)) < 64
    ensures pos + n <= 64
    ensures var e', count := Shr(e, n), LowZeros(Shr(e, n), 64 - (pos + n));
      && (n == 0 ==> 0 < count) && pos + n + count <= 64
      && LongestScan(w, start, Shr(e', count), pos + n + count,
           if count > max then Some(pos + n) else best, if count > max then count else max)
  {
    hide *;
    var e' := Shr(e, n);
    LongestSkipsOnes(w, start, e, pos, best, max, n);
    if pos + n < 64 {
      LongestCompares(w, start, e', pos + n, best, max);
    } else {
      LongestAtTop(w, start, e', best, max);
    }
  }

  lemma LongestEnds(w: Bitword, start: nat, e: Bitword, best: Option<nat>, max: nat)
    requires LongestScan(w, start, e, 64, best, max)
    ensures IsLongest(w, start, 64, best, max)
  {}

  /** Returns the first longest block of reset bits of start..63; None when every bit is set. */
  method GetMaxContiguousResetBits(w: Bitword, start: nat) returns (best: Option<nat>, max: nat)
    requires start < 64
    ensures IsLongest(w, start, 64, best, max)
  {
    hide *;
    best, max := None, 0;
    var offset, e := start, Extract(w, start, 64);
    LongestStarts(w, start);
    while offset < 64
      invariant offset <= 64 && LongestScan(w, start, e, offset, best, max)
    {
      if e == ZERO {
        LongestAllZero(w, start, e, offset, best, max);
        var n := 64 - offset;
        if n > max { best, max := Some(offset), n; }
        return;
      }
      var first0 := TrailingZeros(Not(e));
      if first0 >= 64 {
        LongestSkipsOnes(w, start, e, offset, best, max, first0);
        return;
      }
      LongestTurn(w, start, e, offset, best, max, first0);
      e, offset := Shr(e, first0), offset + first0;
      var n := LowZeros(e, 64 - offset);
      if n > max { best, max := Some(offset), n; }
      e, offset := Shr(e, n), offset + n;
    }
    LongestEnds(w, start, e, best, max);
  }
}
