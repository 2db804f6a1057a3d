/**
  Blocks of contiguous reset bits in a row of words: the reasoning behind
  BitsetImpl::get_next_contiguous_n_reset_bits (include/sisl/fds/bitset.hpp).
  Positions are physical ones, counted from the first word.
 */
module ResetRuns {
  import opened Wrappers
  import opened BitVectors
  import opened Bitwords
  import opened WordArrays

  /** n reset bits from position t on. */
  ghost predicate RowRun(ws: seq<Bitword>, t: nat, n: nat) {
    forall p :: t <= p < t + n ==> !At(ws, p)
  }

  /** No block of n reset bits starts in lo..hi-1. */
  ghost predicate NoRowRun(ws: seq<Bitword>, lo: nat, hi: nat, n: nat) {
    forall t :: lo <= t < hi ==> !RowRun(ws, t, n)
  }

  /** No block of n reset bits lies within lo..hi-1. */
  ghost predicate NoBlock(ws: seq<Bitword>, lo: nat, hi: nat, n: nat) {
    forall t :: lo <= t && t + n <= hi ==> !RowRun(ws, t, n)
  }

  /**
    The chain the search is holding: n reset bits that end at position cur, maximal to the left
    within lo.., and no block of `min` reset bits starts before them.
   */
  ghost predicate Chain(ws: seq<Bitword>, lo: nat, cur: nat, min: nat, s: nat, n: nat) {
    && lo <= s && s + n == cur
    && RowRun(ws, s, n) && NoRowRun(ws, lo, s, min)
    && (s == lo || At(ws, s - 1))
  }

  /** The filter used when the chain has n bits. */
  function FilterFor(min: nat, n: nat): BitFilter {
    BitFilter(if n >= min then 1 else Min(min - n, 64), min, 1)
  }

  /** Word k matched from offset on, in a search that stands at position cur. */
  ghost predicate Matched(ws: seq<Bitword>, k: nat, lo: nat, cur: nat, min: nat, n: nat, r: BitMatch) {
    && 0 < min && k < |ws| && lo <= cur && 64 * k <= cur < 64 * k + 64
    && (cur == 64 * k || (cur == lo && n == 0))
    && IsFilteredMatch(ws[k], cur - 64 * k, FilterFor(min, n), r)
  }

  /** A minimum of zero bits searches like a minimum of one. */
  lemma MatchedIntro(ws: seq<Bitword>, k: nat, lo: nat, cur: nat, min: nat, n: nat, r: BitMatch)
    requires k < |ws| && lo <= cur && 64 * k <= cur < 64 * k + 64
    requires cur == 64 * k || (cur == lo && n == 0)
    requires IsFilteredMatch(ws[k], cur - 64 * k, FilterFor(min, n), r)
    ensures Matched(ws, k, lo, cur, if min == 0 then 1 else min, n, r)
  {}

  // ----- from words to the row

  lemma RunInRow(ws: seq<Bitword>, k: nat, t: nat, n: nat)
    requires k < |ws| && t + n <= 64
    ensures Run(ws[k], t, n) <==> RowRun(ws, 64 * k + t, n)
  {
    hide Bit, At;
    AtWordAll(ws, k);
    if RowRun(ws, 64 * k + t, n) {
      forall i | t <= i < t + n ensures !Bit(ws[k], i) { assert !At(ws, 64 * k + i); }
    }
  }

  lemma BitInRow(ws: seq<Bitword>, k: nat, j: nat)
    requires k < |ws| && j < 64
    ensures At(ws, 64 * k + j) == Bit(ws[k], j)
  {
    AtWord(ws, k, j);
  }

  /** Without enough zeros at the low end, the chain cannot become a block. */
  lemma ChainDies(ws: seq<Bitword>, k: nat, lo: nat, cur: nat, min: nat, s: nat, n: nat)
    requires Chain(ws, lo, cur, min, s, n) && n < min
    requires k < |ws| && 64 * k <= cur < 64 * k + 64 && (0 < n ==> cur == 64 * k)
    requires !LsbRun(ws[k], cur - 64 * k, FilterFor(min, n).lsbReqd)
    ensures NoRowRun(ws, lo, cur, min)
  {
    hide Bit, At;
    RunInRow(ws, k, 0, Min(min - n, 64));
    forall t | lo <= t < cur ensures !RowRun(ws, t, min) {
      if s <= t && RowRun(ws, t, min) { assert false; }
    }
  }

  lemma FullChain(ws: seq<Bitword>, k: nat, lo: nat, min: nat, s: nat, n: nat)
    requires Chain(ws, lo, 64 * k, min, s, n) && k < |ws| && Run(ws[k], 0, 64)
    ensures Chain(ws, lo, 64 * k + 64, min, s, n + 64)
  {
    hide Bit, At;
    RunInRow(ws, k, 0, 64);
  }

  /** Every block found in word k past its low end is preceded by a set bit or by lo. */
  lemma FoundRun(ws: seq<Bitword>, k: nat, lo: nat, cur: nat, min: nat, n: nat, r: BitMatch)
    requires Matched(ws, k, lo, cur, min, n, r) && (r.kind == MsbMatch || r.kind == MidMatch)
    ensures cur <= 64 * k + r.start && RowRun(ws, 64 * k + r.start, r.count)
    ensures r.count > 0 && 64 * k + r.start + r.count <= 64 * k + 64
    ensures 64 * k + r.start == lo || At(ws, 64 * k + r.start - 1)
    ensures r.kind == MidMatch ==>
      && At(ws, 64 * k + r.start + r.count) && min <= r.count
      && r.start + r.count < 64 && (64 * k + r.start + r.count) % 64 != 0
  {
    hide Bit, At;
    RunInRow(ws, k, r.start, r.count);
    if r.start > cur - 64 * k { BitInRow(ws, k, r.start - 1); }
    if r.kind == MidMatch { BitInRow(ws, k, r.start + r.count); }
  }

  /** No block of `min` bits starts in word k before the one found, or at all when none was. */
  lemma NoneBefore(ws: seq<Bitword>, k: nat, lo: nat, cur: nat, min: nat, n: nat, r: BitMatch)
    requires Matched(ws, k, lo, cur, min, n, r) && r.kind in {MsbMatch, MidMatch, NoMatch}
    ensures NoRowRun(ws, cur, if r.kind == NoMatch then 64 * k + 64 else 64 * k + r.start, min)
    ensures r.kind == NoMatch ==> At(ws, 64 * k + 63)
  {
    hide Bit, At;
    var stop := if r.kind == NoMatch then 64 else r.start;
    if r.kind == NoMatch { BitInRow(ws, k, 63); }
    else if r.start > cur - 64 * k { BitInRow(ws, k, r.start - 1); }
    forall t | cur <= t < 64 * k + stop ensures !RowRun(ws, t, min) {
      if t + min <= 64 * k + 64 {
        RunInRow(ws, k, t - 64 * k, min);
      }
    }
  }

  /** One word later: the chain goes on through a word of zeros, or starts again in or after it. */
  lemma ChainAdvances(ws: seq<Bitword>, k: nat, lo: nat, cur: nat, min: nat, s: nat, n: nat, r: BitMatch)
    requires Chain(ws, lo, cur, min, s, n) && Matched(ws, k, lo, cur, min, n, r)
    ensures r.kind == FullMatch ==> r.count == 64 && cur == 64 * k && Chain(ws, lo, cur + 64, min, s, n + 64)
    ensures n < min && r.kind == MsbMatch ==> Chain(ws, lo, 64 * k + 64, min, 64 * k + r.start, r.count)
    ensures n < min && r.kind == NoMatch ==> Chain(ws, lo, 64 * k + 64, min, 64 * k + 64, 0)
    ensures n < min && r.kind == MidMatch ==> NoRowRun(ws, lo, 64 * k + r.start, min)
  {
    hide Bit, At, Run, RunAt, NoRun;
    if r.kind == FullMatch {
      FullChain(ws, k, lo, min, s, n);
    } else if n < min && r.kind != LsbMatch {
      ChainDies(ws, k, lo, cur, min, s, n);
      NoneBefore(ws, k, lo, cur, min, n, r);
      if r.kind != NoMatch { FoundRun(ws, k, lo, cur, min, n, r); }
    }
  }

  /** Zeros at the low end complete the chain to a block of at least `min` bits. */
  lemma ChainCompletes(ws: seq<Bitword>, k: nat, lo: nat, cur: nat, min: nat, s: nat, n: nat, r: BitMatch)
    requires Chain(ws, lo, cur, min, s, n) && Matched(ws, k, lo, cur, min, n, r) && r.kind == LsbMatch
    ensures cur == 64 * k && n + r.count >= min && RowRun(ws, s, n + r.count) && RowRun(ws, s, min)
    ensures 0 < r.count < 64 && At(ws, 64 * k + r.count) && (64 * k + r.count) % 64 != 0
  {
    hide Bit, At;
    RunInRow(ws, k, 0, r.count);
    BitInRow(ws, k, r.count);
  }

  lemma ChainStarts(ws: seq<Bitword>, lo: nat, min: nat)
    ensures Chain(ws, lo, lo, min, lo, 0)
  {}

  // ----- when the search misses a block

  /**
    The one situation in which a block exists and is not returned. Let c be the start of the word
    that holds position `final`. The first block of `min` reset bits starts at s and ends exactly
    at c with fewer than `max` bits; the first block of `min` bits of the last word is longer than
    that, ends inside the word, and does not leave `min` bits before `final`.
   */
  ghost predicate TrapAt(ws: seq<Bitword>, lo: nat, final: nat, min: nat, max: nat, s: nat, s2: nat, n2: nat) {
    var c := 64 * (final / 64);
    && lo <= s && (s == lo || At(ws, s - 1)) && NoRowRun(ws, lo, s, min)
    && s + min <= c < s + max && RowRun(ws, s, c - s)
    && c < final && At(ws, c)
    && c < s2 && s2 + n2 < c + 64 && NoRowRun(ws, c, s2, min)
    && RowRun(ws, s2, n2) && At(ws, s2 + n2) && min <= n2 && c - s < n2
    && final < s2 + min
  }

  ghost predicate Trapped(ws: seq<Bitword>, lo: nat, final: nat, min: nat, max: nat) {
    exists s: nat, s2: nat, n2: nat :: TrapAt(ws, lo, final, min, max, s, s2, n2)
  }

  lemma PickTrap(ws: seq<Bitword>, lo: nat, final: nat, min: nat, max: nat) returns (s: nat, s2: nat, n2: nat)
    requires Trapped(ws, lo, final, min, max)
    ensures TrapAt(ws, lo, final, min, max, s, s2, n2)
    ensures lo <= 64 * (final / 64)
  {
    s, s2, n2 :| TrapAt(ws, lo, final, min, max, s, s2, n2);
  }

  /** A prefix of a block is a block. */
  lemma Shorter(ws: seq<Bitword>, t: nat, n: nat, m: nat)
    requires RowRun(ws, t, n) && m <= n
    ensures RowRun(ws, t, m)
  {}

  /** The chain of a trapped search: short of s it is too short, and from s on it is the block at s. */
  lemma TrapChain(ws: seq<Bitword>, lo: nat, cur: nat, final: nat, min: nat, max: nat, s: nat, n: nat,
                  ts: nat, ts2: nat, tn2: nat)
    requires TrapAt(ws, lo, final, min, max, ts, ts2, tn2) && Chain(ws, lo, cur, min, s, n)
    ensures s == ts || (cur < ts && n < min)
  {
    hide At, Bit;
    Shorter(ws, ts, 64 * (final / 64) - ts, min);
    if s < ts {
      assert At(ws, ts - 1);
      if n >= min { Shorter(ws, s, n, min); }
    }
  }

  lemma TrapNotYet(ws: seq<Bitword>, lo: nat, cur: nat, final: nat, min: nat, max: nat, s: nat, n: nat,
                   ts: nat, ts2: nat, tn2: nat)
    requires TrapAt(ws, lo, final, min, max, ts, ts2, tn2) && Chain(ws, lo, cur, min, s, n)
    requires cur <= 64 * (final / 64)
    ensures n < max && cur < final
  {
    hide At, Bit;
    TrapChain(ws, lo, cur, final, min, max, s, n, ts, ts2, tn2);
  }

  /** Before the last word the search goes on. */
  lemma TrapGoesOn(ws: seq<Bitword>, k: nat, lo: nat, cur: nat, final: nat, min: nat, max: nat, s: nat, n: nat,
                   r: BitMatch, ts: nat, ts2: nat, tn2: nat)
    requires TrapAt(ws, lo, final, min, max, ts, ts2, tn2) && Chain(ws, lo, cur, min, s, n)
    requires Matched(ws, k, lo, cur, min, n, r) && cur < 64 * (final / 64)
    ensures 64 * k + 64 <= 64 * (final / 64)
    ensures r.kind == FullMatch || (n < min && (r.kind == MsbMatch || r.kind == NoMatch))
  {
    hide At, Bit, Run, NoRun, RunAt;
    var c := 64 * (final / 64);
    TrapChain(ws, lo, cur, final, min, max, s, n, ts, ts2, tn2);
    if s == ts {
      TrapThroughZeros(ws, k, lo, cur, min, n, r, c);
    } else {
      Shorter(ws, ts, c - ts, min);
      if r.kind == LsbMatch {
        ChainCompletes(ws, k, lo, cur, min, s, n, r);
        assert false;
      } else if r.kind == MidMatch {
        ChainAdvances(ws, k, lo, cur, min, s, n, r);
        FoundRun(ws, k, lo, cur, min, n, r);
        Shorter(ws, 64 * k + r.start, r.count, min);
        assert false;
      }
    }
  }

  lemma TrapThroughZeros(ws: seq<Bitword>, k: nat, lo: nat, cur: nat, min: nat, n: nat, r: BitMatch, c: nat)
    requires Matched(ws, k, lo, cur, min, n, r) && 64 * k + 64 <= c && RowRun(ws, cur, c - cur)
    ensures r.kind == FullMatch || (n < min && r.kind == MsbMatch)
  {
    hide At, Bit;
    Shorter(ws, cur, c - cur, 64 * k + 64 - cur);
    RunInRow(ws, k, cur - 64 * k, 64 * k + 64 - cur);
    assert Run(ws[k], cur - 64 * k, 64 * k + 64 - cur);
  }

  /** In the last word the search takes the later block and loses the earlier one. */
  lemma TrapCloses(ws: seq<Bitword>, k: nat, lo: nat, cur: nat, final: nat, min: nat, max: nat, s: nat, n: nat,
                   r: BitMatch, ts: nat, ts2: nat, tn2: nat)
    requires TrapAt(ws, lo, final, min, max, ts, ts2, tn2) && Chain(ws, lo, cur, min, s, n)
    requires Matched(ws, k, lo, cur, min, n, r) && cur == 64 * (final / 64)
    ensures n >= min && r.kind == MidMatch && r.count > n && final < 64 * k + r.start + min
  {
    hide At, Bit, NoRun, RunAt;
    TrapChain(ws, lo, cur, final, min, max, s, n, ts, ts2, tn2);
    BitInRow(ws, k, 0);
    Shorter(ws, ts2, tn2, min);
    LowBitSet(ws[k], min, n, r);
    NoneBefore(ws, k, lo, cur, min, n, r);
    if r.kind != NoMatch {
      FoundRun(ws, k, lo, cur, min, n, r);
      if r.count >= min { Shorter(ws, 64 * k + r.start, r.count, min); }
    }
  }

  lemma LowBitSet(w: Bitword, min: nat, n: nat, r: BitMatch)
    requires IsFilteredMatch(w, 0, FilterFor(min, n), r) && Bit(w, 0)
    ensures r.kind in {MsbMatch, MidMatch, NoMatch}
  {
    hide Bit;
  }

  /** Conversely, losing a block this way is the trap. */
  lemma TrapFound(ws: seq<Bitword>, k: nat, lo: nat, cur: nat, final: nat, min: nat, max: nat, s: nat, n: nat,
                  r: BitMatch)
    requires Chain(ws, lo, cur, min, s, n) && Matched(ws, k, lo, cur, min, n, r)
    requires min <= n < max && cur < final && r.kind == MidMatch && r.count > n
    requires final < 64 * k + r.start + min
    ensures Trapped(ws, lo, final, min, max)
  {
    hide At, Bit, RunAt;
    NoneBefore(ws, k, lo, cur, min, n, r);
    FoundRun(ws, k, lo, cur, min, n, r);
    assert final / 64 == k;
    assert !Run(ws[k], 0, 1);
    BitInRow(ws, k, 0);
    assert At(ws, 64 * k);
    assert TrapAt(ws, lo, final, min, max, s, 64 * k + r.start, r.count);
  }

  /** Blocks of one length are never lost. */
  lemma NoTrapForOneLength(ws: seq<Bitword>, lo: nat, final: nat, n: nat)
    ensures !Trapped(ws, lo, final, n, n)
  {}

  /** Nor are blocks before a word boundary, or before a tail of zeros: a search without an end bit. */
  lemma NoTrapAtTheEnd(ws: seq<Bitword>, lo: nat, final: nat, min: nat, max: nat)
    requires final % 64 == 0 || ClearFrom(ws, final)
    ensures !Trapped(ws, lo, final, min, max)
  {
    hide At;
    if Trapped(ws, lo, final, min, max) {
      var s, s2, n2 := PickTrap(ws, lo, final, min, max);
      assert false;
    }
  }

  // ----- the search

  datatype BitBlock = BitBlock(start: nat, nbits: nat)

  const NO_BLOCK := BitBlock(NPOS, 0)

  /** n reset bits from position t on. */
  predicate ResetBlock(bits: seq<bool>, t: nat, n: nat) {
    t + n <= |bits| && forall i :: t <= i < t + n ==> !bits[i]
  }

  /** The block the scan ends with, cut at final and at max bits; too short a block is none. */
  function Trim(b: BitBlock, final: nat, min: nat, max: nat): BitBlock {
    if b.nbits == 0 then NO_BLOCK
    else
      var c := if b.start + b.nbits <= final then b
               else if b.start >= final then NO_BLOCK
               else b.(nbits := final - b.start);
      var d := if c.nbits > max then c.(nbits := max) else c;
      if d.nbits < min then NO_BLOCK else d
  }

  /** The answer a search for min..max reset bits in lo..final-1 may give. */
  ghost predicate IsBlockFound(ws: seq<Bitword>, skip: nat, lo: nat, final: nat, min: nat, max: nat, b: BitBlock) {
    && (b.start != NPOS ==>
          && lo <= b.start && b.start + b.nbits <= final && 0 < b.nbits && min <= b.nbits <= max
          && RowRun(ws, b.start + skip, b.nbits))
    && (0 < min <= max ==>
          (b.start == NPOS <==>
             NoBlock(ws, lo + skip, final + skip, min) || Trapped(ws, lo + skip, final + skip, min, max)))
    && (0 < min == max && b.start != NPOS ==> NoRowRun(ws, lo + skip, b.start + skip, min))
    && (b.start == NPOS ==> b.nbits == 0)
    && (b.start != NPOS ==> Maximal(ws, skip, lo, final, max, b))
    && (0 < min <= max && b.start != NPOS ==> StartsAt(ws, lo + skip, final + skip, min, max, b.start + skip))
  }

  /** The block goes as far as it can within lo..final-1 and max bits. */
  ghost predicate Maximal(ws: seq<Bitword>, skip: nat, lo: nat, final: nat, max: nat, b: BitBlock) {
    && (b.start <= lo || At(ws, b.start + skip - 1))
    && (b.nbits >= max || b.start + b.nbits >= final || At(ws, b.start + skip + b.nbits))
  }

  /** The first block of min reset bits from lo on starts at s. */
  ghost predicate FirstRun(ws: seq<Bitword>, lo: nat, min: nat, s: nat) {
    lo <= s && RowRun(ws, s, min) && NoRowRun(ws, lo, s, min)
  }

  /** The first block, at s, ends with its word c, short of max bits; the first block of the next word is longer and
      ends inside that word. The search then takes the later one. */
  ghost predicate Overtakes(ws: seq<Bitword>, lo: nat, final: nat, min: nat, max: nat, s: nat, s2: nat, n2: nat) {
    var c := 64 * (s2 / 64);
    && FirstRun(ws, lo, min, s) && s + min <= c < s + max && c < final && RowRun(ws, s, c - s) && At(ws, c)
    && s2 + n2 < c + 64 && NoRowRun(ws, c, s2, min) && RowRun(ws, s2, n2) && At(ws, s2 + n2)
    && min <= n2 && c - s < n2
  }

  ghost predicate NotOvertaken(ws: seq<Bitword>, lo: nat, final: nat, min: nat, max: nat, s: nat) {
    forall s2: nat, n2: nat :: !Overtakes(ws, lo, final, min, max, s, s2, n2)
  }

  /** Where the block a search for min..max bits takes starts. */
  ghost predicate StartsAt(ws: seq<Bitword>, lo: nat, final: nat, min: nat, max: nat, t: nat) {
    || (FirstRun(ws, lo, min, t) && NotOvertaken(ws, lo, final, min, max, t))
    || (exists s: nat, n: nat :: Overtakes(ws, lo, final, min, max, s, t, n))
  }

  /** Where a block ends is where it ends. */
  lemma SameEnd(ws: seq<Bitword>, s: nat, n: nat, m: nat)
    requires RowRun(ws, s, n) && At(ws, s + n) && RowRun(ws, s, m) && At(ws, s + m)
    ensures n == m
  {
    hide At;
  }

  lemma EndsInside(ws: seq<Bitword>, lo: nat, final: nat, min: nat, max: nat, s: nat, n: nat)
    requires RowRun(ws, s, n) && At(ws, s + n) && (s + n) % 64 != 0
    ensures NotOvertaken(ws, lo, final, min, max, s)
  {
    hide At, RowRun, NoRowRun;
    forall s2: nat, n2: nat | Overtakes(ws, lo, final, min, max, s, s2, n2) ensures false {
      SameEnd(ws, s, n, 64 * (s2 / 64) - s);
    }
  }

  lemma GoesOn(ws: seq<Bitword>, lo: nat, final: nat, min: nat, max: nat, s: nat, n: nat)
    requires RowRun(ws, s, n) && (n >= max || s + n >= final)
    ensures NotOvertaken(ws, lo, final, min, max, s)
  {
    hide At, NoRowRun;
    forall s2: nat, n2: nat ensures !Overtakes(ws, lo, final, min, max, s, s2, n2) {}
  }

  /** Word k behind the chain has no longer block that ends inside it. */
  lemma NoLonger(ws: seq<Bitword>, k: nat, lo: nat, final: nat, min: nat, max: nat, s: nat, n: nat, r: BitMatch)
    requires Chain(ws, lo, 64 * k, min, s, n) && Matched(ws, k, lo, 64 * k, min, n, r) && min <= n
    requires r.kind == MsbMatch || r.kind == NoMatch || (r.kind == MidMatch && r.count <= n)
    ensures NotOvertaken(ws, lo, final, min, max, s) && At(ws, 64 * k)
  {
    hide Bit, At, Run, NoRun, RunAt;
    LowBitIsSet(ws[k], min, n, r);
    BitInRow(ws, k, 0);
    NoneBefore(ws, k, lo, 64 * k, min, n, r);
    if r.kind != NoMatch { FoundRun(ws, k, lo, 64 * k, min, n, r); }
    forall s2: nat, n2: nat | Overtakes(ws, lo, final, min, max, s, s2, n2) ensures false {
      SameEnd(ws, s, n, 64 * (s2 / 64) - s);
      assert s2 / 64 == k;
      NotInWord(ws, k, min, n, r, s2, n2);
    }
  }

  lemma LowBitIsSet(w: Bitword, min: nat, n: nat, r: BitMatch)
    requires IsFilteredMatch(w, 0, FilterFor(min, n), r) && r.kind in {MsbMatch, MidMatch, NoMatch} && min <= n
    ensures Bit(w, 0)
  {
    hide Bit;
    assert !Run(w, 0, 1);
  }

  lemma NotInWord(ws: seq<Bitword>, k: nat, min: nat, n: nat, r: BitMatch, s2: nat, n2: nat)
    requires 64 * k <= s2 && s2 + n2 < 64 * k + 64 && NoRowRun(ws, 64 * k, s2, min)
    requires RowRun(ws, s2, n2) && At(ws, s2 + n2) && min <= n2
    requires NoRowRun(ws, 64 * k, if r.kind == NoMatch then 64 * k + 64 else 64 * k + r.start, min)
    requires r.kind in {MsbMatch, MidMatch, NoMatch}
    requires r.kind != NoMatch ==> RowRun(ws, 64 * k + r.start, r.count)
    requires r.kind == MsbMatch ==> r.start + r.count == 64
    requires r.kind == MidMatch ==> min <= r.count && At(ws, 64 * k + r.start + r.count)
    ensures r.kind == MidMatch && n2 == r.count
  {
    hide At;
    Shorter(ws, s2, n2, min);
    if r.kind == MidMatch {
      Shorter(ws, 64 * k + r.start, r.count, min);
      SameEnd(ws, s2, n2, r.count);
    }
  }

  /** The trap is real: bit 63 is a block of one bit in 63..64, and the search for 1 or 2 bits misses it. */
  lemma TrapExample()
    ensures var ws := [ZERO, Bitword(9)];
      && RowRun(ws, 63, 1) && Trapped(ws, 63, 65, 1, 2)
      && forall b :: IsBlockFound(ws, 0, 63, 65, 1, 2, b) ==> b.start == NPOS
  {
    var ws := [ZERO, Bitword(9)];
    assert Half(Bitword(9)) == Bitword(4) && Half(Bitword(4)) == Bitword(2) && Half(Bitword(2)) == ONE;
    assert Odd(Bitword(9)) && !Odd(Bitword(4)) && !Odd(Bitword(2)) && Odd(ONE);
    var w := ws[1];
    assert Bit(w, 0);
    assert !BitAt(Half(w), 0);
    assert !Bit(w, 1);
    assert !BitAt(Bitword(2), 0) && BitAt(Bitword(4), 1) == BitAt(Bitword(2), 0);
    assert !Bit(w, 2);
    assert BitAt(Bitword(4), 2) == BitAt(Bitword(2), 1) == BitAt(ONE, 0);
    assert Bit(w, 3);
    ZeroBits();
    assert !At(ws, 63) && At(ws, 64) && !At(ws, 65) && !At(ws, 66) && At(ws, 67);
    assert !RowRun(ws, 64, 1);
    assert TrapAt(ws, 63, 65, 1, 2, 63, 65, 2);
  }

  /** Where the scan may stop without having passed over a block. */
  lemma TrimChain(ws: seq<Bitword>, skip: nat, lo: nat, final: nat, min: nat, max: nat, b: BitBlock)
    requires lo <= b.start && final <= NPOS && RowRun(ws, b.start + skip, b.nbits)
    requires 0 < min ==> NoRowRun(ws, lo + skip, b.start + skip, min)
    requires 0 < b.nbits ==> 0 < max
    requires 0 < min <= max ==> min <= b.nbits || final <= b.start + b.nbits
    requires 0 < min ==> !Trapped(ws, lo + skip, final + skip, min, max)
    requires 0 < b.nbits ==> Maximal(ws, skip, lo, final, max, b)
    requires 0 < min <= max && min <= b.nbits ==>
      NotOvertaken(ws, lo + skip, final + skip, min, max, b.start + skip)
    ensures IsBlockFound(ws, skip, lo, final, min, max, Trim(b, final, min, max))
  {
    hide At, Trapped, NotOvertaken, Overtakes;
    var r := Trim(b, final, min, max);
    if r.start != NPOS { Shorter(ws, b.start + skip, b.nbits, r.nbits); }
    if 0 < min <= max {
      if r.start == NPOS {
        forall t | lo + skip <= t && t + min <= final + skip ensures !RowRun(ws, t, min) {}
      } else {
        Shorter(ws, b.start + skip, b.nbits, min);
      }
    }
  }

  /** When a later block replaces one that fits, the answer is right unless the later one does not fit. */
  lemma TrimReplaced(ws: seq<Bitword>, skip: nat, lo: nat, final: nat, min: nat, max: nat, s: nat, b: BitBlock)
    requires lo <= b.start && final <= NPOS && RowRun(ws, b.start + skip, b.nbits)
    requires 0 < max && 0 < b.nbits && min <= b.nbits
    requires 0 < min ==> min < max && lo + skip <= s && s + min <= final + skip && RowRun(ws, s, min)
    requires 0 < min ==> (final < b.start + min <==> Trapped(ws, lo + skip, final + skip, min, max))
    requires Maximal(ws, skip, lo, final, max, b)
    requires 0 < min ==> Overtakes(ws, lo + skip, final + skip, min, max, s, b.start + skip, b.nbits)
    ensures IsBlockFound(ws, skip, lo, final, min, max, Trim(b, final, min, max))
  {
    hide At, Trapped, Overtakes, NotOvertaken;
    var r := Trim(b, final, min, max);
    if r.start != NPOS { Shorter(ws, b.start + skip, b.nbits, r.nbits); }
  }

  /** A block found in the middle of word k takes the place of the chain of n bits at s. */
  lemma ReplaceBlock(ws: seq<Bitword>, skip: nat, lo: nat, final: nat, min: nat, max: nat, k: nat, cur: nat,
                     s: nat, n: nat, r: BitMatch, b: BitBlock)
    requires final <= NPOS && n < max && cur < final + skip
    requires var m := if min == 0 then 1 else min;
      && Chain(ws, lo + skip, cur, m, s, n) && Matched(ws, k, lo + skip, cur, m, n, r)
      && (n < m ==> NoRowRun(ws, lo + skip, 64 * k + r.start, m))
    requires r.kind == MidMatch && n < r.count
    requires b == BitBlock(64 * k + r.start - skip, r.count) && lo <= b.start
    requires RowRun(ws, b.start + skip, b.nbits)
    requires 0 < min && Trapped(ws, lo + skip, final + skip, min, max) ==>
      min <= n && final + skip < 64 * k + r.start + min
    ensures IsBlockFound(ws, skip, lo, final, min, max, Trim(b, final, min, max))
  {
    hide At, Trapped, Overtakes, NotOvertaken, IsFilteredMatch;
    FoundRun(ws, k, lo + skip, cur, if min == 0 then 1 else min, n, r);
    if n < min {
      EndsInside(ws, lo + skip, final + skip, min, max, b.start + skip, b.nbits);
      TrimChain(ws, skip, lo, final, min, max, b);
    } else if 0 < min {
      Shorter(ws, s, n, min);
      ChainOvertaken(ws, k, lo + skip, final + skip, min, max, s, n, r);
      if final < b.start + min {
        TrapFound(ws, k, lo + skip, cur, final + skip, min, max, s, n, r);
      }
      TrimReplaced(ws, skip, lo, final, min, max, s, b);
    } else {
      TrimReplaced(ws, skip, lo, final, min, max, s, b);
    }
  }

  lemma ChainOvertaken(ws: seq<Bitword>, k: nat, lo: nat, final: nat, min: nat, max: nat, s: nat, n: nat, r: BitMatch)
    requires Chain(ws, lo, 64 * k, min, s, n) && Matched(ws, k, lo, 64 * k, min, n, r)
    requires r.kind == MidMatch && min <= n < r.count && n < max && 64 * k < final
    ensures Overtakes(ws, lo, final, min, max, s, 64 * k + r.start, r.count)
  {
    hide Bit, At, Run, NoRun, RunAt;
    LowBitIsSet(ws[k], min, n, r);
    BitInRow(ws, k, 0);
    NoneBefore(ws, k, lo, 64 * k, min, n, r);
    FoundRun(ws, k, lo, 64 * k, min, n, r);
    Shorter(ws, s, n, min);
  }

  /** How one word's match changes the block held at position current; true when the scan stops there. */
  function Absorb(b: BitBlock, current: nat, offset: nat, min: nat, r: BitMatch): (BitBlock, bool)
    requires offset < 64 && (r.kind == MidMatch || r.kind == MsbMatch ==> offset <= r.start)
  {
    match r.kind
    case FullMatch => (b.(nbits := b.nbits + r.count), false)
    case LsbMatch => (b.(nbits := b.nbits + r.count), b.nbits + r.count >= min)
    case MidMatch => (if r.count > b.nbits then BitBlock(current + r.start - offset, r.count) else b, true)
    case MsbMatch => if b.nbits >= min then (b, true) else (BitBlock(current + r.start - offset, r.count), false)
    case NoMatch => if b.nbits >= min then (b, true) else (BitBlock(current + 64 - offset, 0), false)
  }

  /** The scan has not passed the word in which a trapped search goes wrong. */
  ghost predicate NotPast(ws: seq<Bitword>, lo: nat, cur: nat, final: nat, min: nat, max: nat) {
    Trapped(ws, lo, final, min, max) ==> cur <= 64 * (final / 64)
  }

  /** A search in progress: position `current`, holding block b. */
  ghost predicate Searching(ws: seq<Bitword>, skip: nat, lo: nat, final: nat, min: nat, max: nat, k: nat,
                            current: nat, b: BitBlock)
  {
    var m := if min == 0 then 1 else min;
    && lo <= current && 64 * k <= current + skip < 64 * k + 64 && final <= NPOS
    && (current + skip == 64 * k || (current == lo && b.nbits == 0))
    && (0 < b.nbits ==> 0 < max)
    && Chain(ws, lo + skip, current + skip, m, b.start + skip, b.nbits)
    && (0 < min ==> NotPast(ws, lo + skip, current + skip, final + skip, min, max))
  }

  lemma SearchStarts(ws: seq<Bitword>, skip: nat, lo: nat, final: nat, min: nat, max: nat)
    requires final <= NPOS
    ensures Searching(ws, skip, lo, final, min, max, (lo + skip) / 64, lo, BitBlock(lo, 0))
  {
    hide At, TrapAt, Trapped;
    var m := if min == 0 then 1 else min;
    ChainStarts(ws, lo + skip, m);
    if 0 < min && Trapped(ws, lo + skip, final + skip, min, max) {
      var ts, ts2, tn2 := PickTrap(ws, lo + skip, final + skip, min, max);
    }
  }

  lemma SearchExhausted(ws: seq<Bitword>, skip: nat, lo: nat, final: nat, min: nat, max: nat, k: nat,
                        current: nat, b: BitBlock)
    requires Searching(ws, skip, lo, final, min, max, k, current, b)
    requires b.nbits >= max || current >= final
    ensures IsBlockFound(ws, skip, lo, final, min, max, Trim(b, final, min, max))
  {
    hide At, TrapAt, Trapped, IsBlockFound, Trim, NotOvertaken;
    GoesOn(ws, lo + skip, final + skip, min, max, b.start + skip, b.nbits);
    if 0 < min && Trapped(ws, lo + skip, final + skip, min, max) {
      var ts, ts2, tn2 := PickTrap(ws, lo + skip, final + skip, min, max);
      TrapNotYet(ws, lo + skip, current + skip, final + skip, min, max, b.start + skip, b.nbits, ts, ts2, tn2);
    }
    TrimChain(ws, skip, lo, final, min, max, b);
  }

  /** What a trap means for the word at hand. */
  lemma SearchInTrap(ws: seq<Bitword>, skip: nat, lo: nat, final: nat, min: nat, max: nat, k: nat,
                     current: nat, b: BitBlock, r: BitMatch)
    requires Searching(ws, skip, lo, final, min, max, k, current, b) && 0 < min
    requires Matched(ws, k, lo + skip, current + skip, min, b.nbits, r)
    requires Trapped(ws, lo + skip, final + skip, min, max)
    ensures (r.kind == FullMatch || (b.nbits < min && (r.kind == MsbMatch || r.kind == NoMatch)))
      ==> 64 * k + 64 <= 64 * ((final + skip) / 64)
    ensures r.kind != LsbMatch
    ensures r.kind == MidMatch ==> min <= b.nbits < r.count && final + skip < 64 * k + r.start + min
    ensures r.kind == MsbMatch || r.kind == NoMatch ==> b.nbits < min
  {
    hide At, TrapAt, Trapped, IsFilteredMatch;
    var f, cur := final + skip, current + skip;
    var ts, ts2, tn2 := PickTrap(ws, lo + skip, f, min, max);
    if cur < 64 * (f / 64) {
      TrapGoesOn(ws, k, lo + skip, cur, f, min, max, b.start + skip, b.nbits, r, ts, ts2, tn2);
    } else {
      TrapCloses(ws, k, lo + skip, cur, f, min, max, b.start + skip, b.nbits, r, ts, ts2, tn2);
    }
  }

  /** One word of the search. */
  lemma SearchStep(ws: seq<Bitword>, skip: nat, lo: nat, final: nat, min: nat, max: nat, k: nat,
                   current: nat, b: BitBlock, r: BitMatch)
    requires Searching(ws, skip, lo, final, min, max, k, current, b)
    requires k < |ws| && b.nbits < max && current < final
    requires IsFilteredMatch(ws[k], current + skip - 64 * k, FilterFor(min, b.nbits), r)
    ensures r.kind == MidMatch || r.kind == MsbMatch ==> current + skip - 64 * k <= r.start
    ensures var offset := current + skip - 64 * k;
      var step := Absorb(b, current, offset, min, r);
      if step.1 then IsBlockFound(ws, skip, lo, final, min, max, Trim(step.0, final, min, max))
      else Searching(ws, skip, lo, final, min, max, k + 1, current + (64 - offset), step.0)
  {
    hide At, TrapAt, Trapped, IsFilteredMatch, IsBlockFound, Trim, NoRowRun, RowRun, NotOvertaken;
    var m := if min == 0 then 1 else min;
    var s, n, cur := b.start + skip, b.nbits, current + skip;
    MatchedIntro(ws, k, lo + skip, cur, min, n, r);
    ChainAdvances(ws, k, lo + skip, cur, m, s, n, r);
    if 0 < min && Trapped(ws, lo + skip, final + skip, min, max) {
      SearchInTrap(ws, skip, lo, final, min, max, k, current, b, r);
    }
    if r.kind == LsbMatch {
      ChainCompletes(ws, k, lo + skip, cur, m, s, n, r);
      EndsInside(ws, lo + skip, final + skip, min, max, s, n + r.count);
      TrimChain(ws, skip, lo, final, min, max, b.(nbits := n + r.count));
    } else if r.kind == MidMatch {
      FoundRun(ws, k, lo + skip, cur, m, n, r);
      if r.count > n {
        ReplaceBlock(ws, skip, lo, final, min, max, k, cur, s, n, r, BitBlock(64 * k + r.start - skip, r.count));
      } else {
        NoLonger(ws, k, lo + skip, final + skip, m, max, s, n, r);
        TrimChain(ws, skip, lo, final, min, max, b);
      }
    } else if r.kind == MsbMatch || r.kind == NoMatch {
      if r.kind == MsbMatch { FoundRun(ws, k, lo + skip, cur, m, n, r); }
      if n >= m { NoLonger(ws, k, lo + skip, final + skip, m, max, s, n, r); }
      if n >= min { TrimChain(ws, skip, lo, final, min, max, b); }
    }
  }

  /** The first position past the search: end + 1 wraps around in 64 bits. */
  function FinalBit(end: Option<nat>, total: nat): (final: nat)
    requires total <= NPOS && (end.Some? ==> end.value <= NPOS)
    ensures end.None? ==> final == total
    ensures end.Some? && end.value < NPOS ==>
      final <= total && (final == total <= end.value + 1 || final == end.value + 1)
    ensures end == Some(NPOS) ==> final == 0
  {
    if end.Some? then Min((end.value + 1) % (NPOS + 1), total) else total
  }

  lemma NothingThere(ws: seq<Bitword>, skip: nat, lo: nat, final: nat, min: nat, max: nat)
    requires final <= lo
    ensures IsBlockFound(ws, skip, lo, final, min, max, NO_BLOCK)
  {
    hide At, Trapped, RowRun;
  }

  // ----- there is one answer

  lemma FirstRunIsUnique(ws: seq<Bitword>, lo: nat, min: nat, s: nat, t: nat)
    requires FirstRun(ws, lo, min, s) && FirstRun(ws, lo, min, t)
    ensures s == t
  {
    hide RowRun;
  }

  lemma StartIsUnique(ws: seq<Bitword>, lo: nat, final: nat, min: nat, max: nat, t: nat, t': nat)
    requires StartsAt(ws, lo, final, min, max, t) && StartsAt(ws, lo, final, min, max, t')
    ensures t == t'
  {
    hide At, Overtakes, FirstRun, NotOvertaken;
    if FirstRun(ws, lo, min, t) && NotOvertaken(ws, lo, final, min, max, t) {
      FirstOrNone(ws, lo, final, min, max, t, t');
    } else if FirstRun(ws, lo, min, t') && NotOvertaken(ws, lo, final, min, max, t') {
      FirstOrNone(ws, lo, final, min, max, t', t);
    } else {
      var s: nat, n: nat :| Overtakes(ws, lo, final, min, max, s, t, n);
      var s': nat, n': nat :| Overtakes(ws, lo, final, min, max, s', t', n');
      OvertakerIsUnique(ws, lo, final, min, max, s, t, n, s', t', n');
    }
  }

  lemma FirstOrNone(ws: seq<Bitword>, lo: nat, final: nat, min: nat, max: nat, t: nat, t': nat)
    requires FirstRun(ws, lo, min, t) && NotOvertaken(ws, lo, final, min, max, t)
    requires StartsAt(ws, lo, final, min, max, t')
    ensures t == t'
  {
    hide At, RowRun, NoRowRun;
    if FirstRun(ws, lo, min, t') {
      FirstRunIsUnique(ws, lo, min, t, t');
    } else {
      var s: nat, n: nat :| Overtakes(ws, lo, final, min, max, s, t', n);
      FirstRunIsUnique(ws, lo, min, t, s);
      assert false;
    }
  }

  lemma OvertakerIsUnique(ws: seq<Bitword>, lo: nat, final: nat, min: nat, max: nat, s: nat, t: nat, n: nat,
                          s': nat, t': nat, n': nat)
    requires Overtakes(ws, lo, final, min, max, s, t, n) && Overtakes(ws, lo, final, min, max, s', t', n')
    ensures t == t'
  {
    hide At, RowRun;
    FirstRunIsUnique(ws, lo, min, s, s');
    SameEnd(ws, s, 64 * (t / 64) - s, 64 * (t' / 64) - s);
    Shorter(ws, t, n, min);
    Shorter(ws, t', n', min);
  }

  /** The row, the range and the lengths determine what a search returns. */
  lemma BlockIsUnique(ws: seq<Bitword>, skip: nat, lo: nat, final: nat, min: nat, max: nat, b: BitBlock, b': BitBlock)
    requires 0 < min <= max && IsBlockFound(ws, skip, lo, final, min, max, b)
    requires IsBlockFound(ws, skip, lo, final, min, max, b')
    ensures b == b'
  {
    hide At, Trapped, NoBlock, StartsAt;
    if b.start != NPOS {
      StartIsUnique(ws, lo + skip, final + skip, min, max, b.start + skip, b'.start + skip);
    }
  }

  // ----- the answer in terms of the logical bits

  lemma BlockInBits(ws: seq<Bitword>, skip: nat, nbits: nat, t: nat, n: nat)
    requires skip + t + n <= nbits
    ensures RowRun(ws, t + skip, n) <==> ResetBlock(Content(ws, skip, nbits), t, n)
  {
    hide At, Content;
    var bits := Content(ws, skip, nbits);
    if ResetBlock(bits, t, n) {
      forall p | t + skip <= p < t + skip + n ensures !At(ws, p) { assert !bits[p - skip]; }
    }
  }

  lemma NoBlockInBits(ws: seq<Bitword>, skip: nat, nbits: nat, lo: nat, final: nat, n: nat)
    requires skip + final <= nbits
    ensures NoBlock(ws, lo + skip, final + skip, n) <==>
      forall t :: lo <= t && t + n <= final ==> !ResetBlock(Content(ws, skip, nbits), t, n)
  {
    hide RowRun, Content, ResetBlock;
    var bits := Content(ws, skip, nbits);
    if NoBlock(ws, lo + skip, final + skip, n) {
      forall t | lo <= t && t + n <= final ensures !ResetBlock(bits, t, n) { BlockInBits(ws, skip, nbits, t, n); }
    }
    if forall t :: lo <= t && t + n <= final ==> !ResetBlock(bits, t, n) {
      forall t | lo + skip <= t && t + n <= final + skip ensures !RowRun(ws, t, n) {
        BlockInBits(ws, skip, nbits, t - skip, n);
      }
    }
  }

  /**
    A search that reaches the end of a bitset with a clear tail is complete, for every min and max:
    it fails exactly when there is no block of min reset bits, and what it returns is such a block.
   */
  lemma SearchToTheEnd(ws: seq<Bitword>, skip: nat, nbits: nat, lo: nat, min: nat, max: nat, b: BitBlock)
    requires skip <= nbits && 0 < min <= max && ClearFrom(ws, nbits)
    requires IsBlockFound(ws, skip, lo, nbits - skip, min, max, b)
    ensures b.start == NPOS <==> forall t :: lo <= t ==> !ResetBlock(Content(ws, skip, nbits), t, min)
    ensures b.start != NPOS ==> min <= b.nbits <= max && ResetBlock(Content(ws, skip, nbits), b.start, b.nbits)
  {
    hide RowRun, Content, Trapped, At;
    NoTrapAtTheEnd(ws, lo + skip, nbits, min, max);
    NoBlockInBits(ws, skip, nbits, lo, nbits - skip, min);
    if b.start != NPOS { BlockInBits(ws, skip, nbits, b.start, b.nbits); }
  }

  /** A search for exactly n bits returns the first block, and fails exactly when there is none. */
  lemma SearchOneLength(ws: seq<Bitword>, skip: nat, nbits: nat, lo: nat, final: nat, n: nat, b: BitBlock)
    requires skip + final <= nbits && 0 < n && IsBlockFound(ws, skip, lo, final, n, n, b)
    ensures b.start == NPOS <==> forall t :: lo <= t && t + n <= final ==> !ResetBlock(Content(ws, skip, nbits), t, n)
    ensures b.start != NPOS ==> b.nbits == n && ResetBlock(Content(ws, skip, nbits), b.start, n)
    ensures b.start != NPOS ==> forall t :: lo <= t < b.start ==> !ResetBlock(Content(ws, skip, nbits), t, n)
  {
    hide RowRun, Content, Trapped, At, ResetBlock;
    NoTrapForOneLength(ws, lo + skip, final + skip, n);
    NoBlockInBits(ws, skip, nbits, lo, final, n);
    if b.start != NPOS {
      BlockInBits(ws, skip, nbits, b.start, n);
      forall t | lo <= t < b.start ensures !ResetBlock(Content(ws, skip, nbits), t, n) {
        if t + n <= nbits - skip { BlockInBits(ws, skip, nbits, t, n); }
      }
    }
  }
}
