/**
  A sequence of words read as one long row of bits, the memory layout shared by
  BitsetImpl (include/sisl/fds/bitset.hpp) and CompactBitSet.
 */
module WordArrays {
  import opened BitVectors
  import opened Bitwords

  /** Bitset::npos, the largest 64-bit number; it stands for "not found". */
  const NPOS: nat := 0xFFFF_FFFF_FFFF_FFFF

  /** No buffer has more bits than this. */
  const MAX_BITS: nat := 0xFFFF_FFFF_FFFF_FFBF

  /** A number as an unsigned 64-bit one. */
  function U64(x: int): (r: nat)
    ensures r <= NPOS
    ensures 0 <= x <= NPOS ==> r == x
    ensures 0 <= x + NPOS < NPOS ==> r == x + NPOS + 1
    ensures NPOS < x <= 2 * NPOS + 1 ==> r == x - NPOS - 1
  {
    x % 0x1_0000_0000_0000_0000
  }

  /** Bit p of the row: bit p % 64 of word p / 64; nothing is set beyond the last word. */
  predicate At(ws: seq<Bitword>, p: nat) {
    p / 64 < |ws| && Bit(ws[p / 64], p % 64)
  }

  /** total_words: how many words hold nbits bits. */
  function TotalWords(nbits: nat): nat {
    nbits / 64 + if nbits % 64 > 0 then 1 else 0
  }

  lemma TotalWordsBounds(nbits: nat)
    ensures 64 * TotalWords(nbits) - 64 < nbits <= 64 * TotalWords(nbits)
    ensures forall p :: 0 <= p < nbits ==> p / 64 < TotalWords(nbits)
  {}

  lemma Position(k: nat, j: nat)
    requires j < 64
    ensures (64 * k + j) / 64 == k && (64 * k + j) % 64 == j
  {}

  lemma AtWord(ws: seq<Bitword>, k: nat, j: nat)
    requires k < |ws| && j < 64
    ensures At(ws, 64 * k + j) == Bit(ws[k], j)
  {
    Position(k, j);
  }

  /** Word k of the row, bit by bit. */
  lemma AtWordAll(ws: seq<Bitword>, k: nat)
    requires k < |ws|
    ensures forall p :: 64 * k <= p < 64 * k + 64 ==> At(ws, p) == Bit(ws[k], p - 64 * k)
  {
    forall p | 64 * k <= p < 64 * k + 64 ensures At(ws, p) == Bit(ws[k], p - 64 * k) {
      AtWord(ws, k, p - 64 * k);
    }
  }

  /** The row from bit lo (inclusive) to hi (exclusive). */
  function Content(ws: seq<Bitword>, lo: nat, hi: nat): (bits: seq<bool>)
    ensures |bits| == if lo <= hi then hi - lo else 0
    ensures forall i :: 0 <= i < |bits| ==> bits[i] == At(ws, lo + i)
  {
    if hi <= lo then [] else seq(hi - lo, i requires 0 <= i => At(ws, lo + i))
  }

  /** No bit is set from position lo on. */
  ghost predicate ClearFrom(ws: seq<Bitword>, lo: nat) {
    forall p :: lo <= p ==> !At(ws, p)
  }

  // ----- updating one word

  lemma UpdateWord(ws: seq<Bitword>, ws': seq<Bitword>, k: nat, w: Bitword)
    requires k < |ws| && ws' == ws[k := w]
    ensures forall p :: 0 <= p && p / 64 != k ==> At(ws', p) == At(ws, p)
    ensures forall p :: 64 * k <= p < 64 * k + 64 ==> At(ws', p) == Bit(w, p - 64 * k)
  {
    AtWordAll(ws', k);
  }

  /** Row ws' is row ws with value written to positions lo..hi-1. */
  predicate Written(ws: seq<Bitword>, ws': seq<Bitword>, lo: nat, hi: nat, value: bool) {
    && |ws'| == |ws|
    && forall p :: 0 <= p < 64 * |ws| ==> At(ws', p) == if lo <= p < hi then value else At(ws, p)
  }

  lemma NothingWritten(ws: seq<Bitword>, lo: nat, value: bool)
    ensures Written(ws, ws, lo, lo, value)
  {}

  lemma WrittenToEnd(ws: seq<Bitword>, ws': seq<Bitword>, lo: nat, hi: nat, value: bool)
    requires |ws| == |ws'| && Written(ws, ws', lo, 64 * |ws|, value) && 64 * |ws| <= hi
    ensures Written(ws, ws', lo, hi, value)
  {}

  /** Writing the word that holds positions mid..hi-1 extends what has been written up to mid. */
  lemma WriteWord(ws: seq<Bitword>, ws1: seq<Bitword>, ws2: seq<Bitword>, lo: nat, mid: nat, hi: nat, value: bool)
    requires Written(ws, ws1, lo, mid, value) && lo <= mid < hi <= 64 * |ws|
    requires (hi - 1) / 64 == mid / 64
    requires ws2 == ws1[mid / 64 := SetResetBits(ws1[mid / 64], mid % 64, hi - mid, value)]
    ensures Written(ws, ws2, lo, hi, value)
  {
    var k := mid / 64;
    var w := SetResetBits(ws1[k], mid % 64, hi - mid, value);
    UpdateWord(ws1, ws2, k, w);
    AtWordAll(ws1, k);
    forall p | 0 <= p < 64 * |ws|
      ensures At(ws2, p) == if lo <= p < hi then value else At(ws, p)
    {
      if p / 64 == k {
        assert At(ws2, p) == Bit(w, p - 64 * k);
        assert At(ws1, p) == Bit(ws1[k], p - 64 * k);
      }
    }
  }

  /** bits with value written to n positions from lo on. */
  function Overwrite(bits: seq<bool>, lo: nat, n: nat, value: bool): (r: seq<bool>)
    ensures |r| == |bits|
    ensures forall i :: 0 <= i < |bits| ==> r[i] == if lo <= i < lo + n then value else bits[i]
  {
    seq(|bits|, i requires 0 <= i < |bits| => if lo <= i < lo + n then value else bits[i])
  }

  /** A write inside the logical range is an overwrite of the content and leaves the tail alone. */
  lemma WrittenContent(ws: seq<Bitword>, ws': seq<Bitword>, skip: nat, nbits: nat, start: nat, n: nat, value: bool)
    requires Written(ws, ws', skip + start, skip + start + n, value)
    requires skip + start + n <= nbits <= 64 * |ws|
    ensures Content(ws', skip, nbits) == Overwrite(Content(ws, skip, nbits), start, n, value)
    ensures ClearFrom(ws, nbits) ==> ClearFrom(ws', nbits)
  {
    hide Bit, Content;
    var bits, bits' := Content(ws, skip, nbits), Content(ws', skip, nbits);
    forall i | 0 <= i < |bits'| ensures bits'[i] == Overwrite(bits, start, n, value)[i] {
      assert bits'[i] == At(ws', skip + i) && bits[i] == At(ws, skip + i);
    }
    if ClearFrom(ws, nbits) {
      forall p | nbits <= p ensures !At(ws', p) { assert !At(ws, p); }
    }
  }

  /** A row dropped by whole words and cut or filled up to cap words. */
  predicate Reallocated(ws: seq<Bitword>, ws': seq<Bitword>, drop: nat, cap: nat, fill: bool) {
    && |ws'| == cap && drop <= |ws|
    && (forall k :: 0 <= k < cap && drop + k < |ws| ==> ws'[k] == ws[drop + k])
    && (forall k :: 0 <= k < cap && |ws| <= drop + k ==> ws'[k] == FillWord(fill))
  }

  function FillWord(value: bool): Bitword { if value then Not(ZERO) else ZERO }

  lemma FillWordBits(value: bool)
    ensures forall i :: 0 <= i < 64 ==> Bit(FillWord(value), i) == value
  {
    ZeroBits();
    NotAll(ZERO);
  }

  lemma ReallocatedAt(ws: seq<Bitword>, ws': seq<Bitword>, drop: nat, cap: nat, fill: bool)
    requires Reallocated(ws, ws', drop, cap, fill)
    ensures forall p :: 0 <= p < 64 * cap ==>
      At(ws', p) == if p + 64 * drop < 64 * |ws| then At(ws, p + 64 * drop) else fill
  {
    FillWordBits(fill);
    forall p | 0 <= p < 64 * cap
      ensures At(ws', p) == if p + 64 * drop < 64 * |ws| then At(ws, p + 64 * drop) else fill
    {
      Position(p / 64 + drop, p % 64);
    }
  }

  /** What a resize to n bits makes of a row whose content starts at skip. */
  ghost function Resized(ws: seq<Bitword>, skip: nat, n: nat, fill: bool): (bits: seq<bool>)
    ensures |bits| == n
    ensures forall i :: 0 <= i < n ==> bits[i] == if skip + i < 64 * |ws| then At(ws, skip + i) else fill
  {
    seq(n, i requires 0 <= i => if skip + i < 64 * |ws| then At(ws, skip + i) else fill)
  }

  lemma ReallocatedContent(ws: seq<Bitword>, ws': seq<Bitword>, skip: nat, n: nat, fill: bool)
    requires skip <= 64 * |ws|
    requires Reallocated(ws, ws', skip / 64, TotalWords(n + skip % 64), fill)
    ensures Content(ws', skip % 64, n + skip % 64) == Resized(ws, skip, n, fill)
  {
    hide Bit, Content, Resized, At;
    var drop, rest := skip / 64, skip % 64;
    ReallocatedAt(ws, ws', drop, |ws'|, fill);
    TotalWordsBounds(n + rest);
    forall i | 0 <= i < n ensures Content(ws', rest, n + rest)[i] == Resized(ws, skip, n, fill)[i] {
      assert At(ws', rest + i) == if rest + i + 64 * drop < 64 * |ws| then At(ws, rest + i + 64 * drop) else fill;
    }
  }

  /** The positions between the new logical end and the end of the last word are clear. */
  predicate CleanCut(ws: seq<Bitword>, skip: nat, n: nat, fill: bool) {
    forall q :: skip + n <= q < 64 * (skip / 64 + TotalWords(n + skip % 64)) ==>
      !At(ws, q) && (64 * |ws| <= q ==> !fill)
  }

  lemma ReallocatedTail(ws: seq<Bitword>, ws': seq<Bitword>, skip: nat, n: nat, fill: bool)
    requires skip <= 64 * |ws|
    requires Reallocated(ws, ws', skip / 64, TotalWords(n + skip % 64), fill)
    ensures ClearFrom(ws', n + skip % 64) <==> CleanCut(ws, skip, n, fill)
  {
    hide Bit;
    var drop, rest := skip / 64, skip % 64;
    ReallocatedAt(ws, ws', drop, |ws'|, fill);
    if CleanCut(ws, skip, n, fill) {
      forall p | n + rest <= p ensures !At(ws', p) {
        if p < 64 * |ws'| { assert !At(ws, p + 64 * drop); }
      }
    }
    if !CleanCut(ws, skip, n, fill) {
      var q :| skip + n <= q < 64 * (skip / 64 + TotalWords(n + skip % 64)) && (At(ws, q) || (64 * |ws| <= q && fill));
      assert At(ws', q - 64 * drop);
    }
  }

  // ----- windows: up to 64 bits of the row, taken from any position

  /** v holds n bits of the row from position p on, and zeros above them. */
  predicate IsWindow(ws: seq<Bitword>, p: nat, n: nat, v: Bitword) {
    forall i :: 0 <= i < 64 ==> Bit(v, i) == (i < n && At(ws, p + i))
  }

  lemma LowPart(ws: seq<Bitword>, k: nat, offset: nat, n: nat)
    requires k < |ws| && offset + n <= 64
    ensures IsWindow(ws, 64 * k + offset, n, And(Shr(ws[k], offset), ConsecutiveMask(n)))
  {
    hide At;
    var sh := Shr(ws[k], offset);
    ShrAllBits(ws[k], offset);
    AndMask(sh, n);
    forall i | 0 <= i < 64
      ensures Bit(And(sh, ConsecutiveMask(n)), i) == (i < n && At(ws, 64 * k + offset + i))
    {
      if i < n { AtWord(ws, k, offset + i); }
    }
  }

  lemma ShiftedUp(w: Bitword, n: nat, low: nat)
    requires low <= 64
    ensures forall i :: 0 <= i < 64 ==>
      Bit(Shl(And(w, ConsecutiveMask(n)), low), i) == (low <= i < low + n && Bit(w, i - low))
  {
    AndMask(w, n);
    forall i | 0 <= i < 64
      ensures Bit(Shl(And(w, ConsecutiveMask(n)), low), i) == (low <= i < low + n && Bit(w, i - low))
    {
      BitShl(And(w, ConsecutiveMask(n)), low, i);
      if low <= i { assert Bit(And(w, ConsecutiveMask(n)), i - low) == (i - low < n && Bit(w, i - low)); }
    }
  }

  lemma BothParts(ws: seq<Bitword>, k: nat, offset: nat, n: nat)
    requires k + 1 < |ws| && 0 < offset < 64 && 64 - offset < n <= 64
    ensures IsWindow(ws, 64 * k + offset, n,
      Or(And(Shr(ws[k], offset), ConsecutiveMask(64 - offset)),
         Shl(And(ws[k + 1], ConsecutiveMask(n - (64 - offset))), 64 - offset)))
  {
    hide At, Or, And, Shr, Shl, ConsecutiveMask;
    var low := 64 - offset;
    var a := And(Shr(ws[k], offset), ConsecutiveMask(low));
    var b := Shl(And(ws[k + 1], ConsecutiveMask(n - low)), low);
    LowPart(ws, k, offset, low);
    ShiftedUp(ws[k + 1], n - low, low);
    OrWith(a, b);
    forall i | 0 <= i < 64 ensures Bit(Or(a, b), i) == (i < n && At(ws, 64 * k + offset + i)) {
      if low <= i {
        AtWord(ws, k + 1, i - low);
        assert 64 * k + offset + i == 64 * (k + 1) + (i - low);
      }
    }
  }

  /** n bits from bit `offset` of word k on, composed of one or two words. */
  function Window(ws: seq<Bitword>, k: nat, offset: nat, n: nat): Bitword
    requires offset < 64 && 0 < n <= 64 && 64 * k + offset + n <= 64 * |ws|
  {
    if offset > 0 then
      var low := 64 - offset;
      if n <= low then And(Shr(ws[k], offset), ConsecutiveMask(n))
      else Or(And(Shr(ws[k], offset), ConsecutiveMask(low)), Shl(And(ws[k + 1], ConsecutiveMask(n - low)), low))
    else
      if n < 64 then And(ws[k], ConsecutiveMask(n)) else ws[k]
  }

  lemma WindowBits(ws: seq<Bitword>, k: nat, offset: nat, n: nat)
    requires offset < 64 && 0 < n <= 64 && 64 * k + offset + n <= 64 * |ws|
    ensures IsWindow(ws, 64 * k + offset, n, Window(ws, k, offset, n))
  {
    hide IsWindow, And, Or, Shr, Shl, ConsecutiveMask;
    if offset == 0 {
      WholeOrMasked(ws, k, n);
    } else if n <= 64 - offset {
      LowPart(ws, k, offset, n);
    } else {
      BothParts(ws, k, offset, n);
    }
  }

  lemma WholeOrMasked(ws: seq<Bitword>, k: nat, n: nat)
    requires k < |ws| && n <= 64
    ensures IsWindow(ws, 64 * k, 64, ws[k])
    ensures IsWindow(ws, 64 * k, n, And(ws[k], ConsecutiveMask(n)))
  {
    hide At;
    AndMask(ws[k], n);
    forall i | 0 <= i < 64 ensures At(ws, 64 * k + i) == Bit(ws[k], i) { AtWord(ws, k, i); }
  }

  /** Two windows are the same word exactly when the rows agree there. */
  lemma WindowsAgree(ws1: seq<Bitword>, p1: nat, v1: Bitword, ws2: seq<Bitword>, p2: nat, v2: Bitword, n: nat)
    requires n <= 64 && IsWindow(ws1, p1, n, v1) && IsWindow(ws2, p2, n, v2)
    ensures v1 == v2 <==> Agree(ws1, p1, ws2, p2, n)
  {
    hide At, Bit;
    if Agree(ws1, p1, ws2, p2, n) {
      forall i | 0 <= i < 64 ensures Bit(v1, i) == Bit(v2, i) {
        if i < n { assert At(ws1, p1 + i) == At(ws2, p2 + i) by { AgreeAt(ws1, p1, ws2, p2, n, i); } }
      }
      SameWord(v1, v2);
    }
    if v1 == v2 {
      assert Agree(ws1, p1, ws2, p2, n) by {
        assert forall i :: 0 <= i < n ==> Same(ws1, p1, ws2, p2, i) by {
          forall i | 0 <= i < n ensures Same(ws1, p1, ws2, p2, i) { assert Bit(v1, i) == Bit(v2, i); }
        }
      }
    }
  }

  predicate Same(ws1: seq<Bitword>, p1: nat, ws2: seq<Bitword>, p2: nat, i: nat) {
    At(ws1, p1 + i) == At(ws2, p2 + i)
  }

  /** The rows agree on n bits from p1 and p2 on. */
  predicate Agree(ws1: seq<Bitword>, p1: nat, ws2: seq<Bitword>, p2: nat, n: nat) {
    forall i :: 0 <= i < n ==> Same(ws1, p1, ws2, p2, i)
  }

  lemma AgreeAt(ws1: seq<Bitword>, p1: nat, ws2: seq<Bitword>, p2: nat, n: nat, i: nat)
    requires Agree(ws1, p1, ws2, p2, n) && i < n
    ensures At(ws1, p1 + i) == At(ws2, p2 + i)
  {
    assert Same(ws1, p1, ws2, p2, i);
  }

  lemma AgreeJoins(ws1: seq<Bitword>, p1: nat, ws2: seq<Bitword>, p2: nat, n: nat, m: nat)
    ensures Agree(ws1, p1, ws2, p2, n + m) <==>
      Agree(ws1, p1, ws2, p2, n) && Agree(ws1, p1 + n, ws2, p2 + n, m)
  {
    hide At;
    if Agree(ws1, p1, ws2, p2, n + m) {
      var q1, q2 := p1 + n, p2 + n;
      forall i | 0 <= i < m ensures Same(ws1, q1, ws2, q2, i) { assert Same(ws1, p1, ws2, p2, n + i); }
    }
    if Agree(ws1, p1, ws2, p2, n) && Agree(ws1, p1 + n, ws2, p2 + n, m) {
      forall i | 0 <= i < n + m ensures Same(ws1, p1, ws2, p2, i) {
        if n <= i { assert Same(ws1, p1 + n, ws2, p2 + n, i - n); }
      }
    }
  }

  lemma AgreeIsEqualContent(ws1: seq<Bitword>, p1: nat, ws2: seq<Bitword>, p2: nat, n: nat)
    ensures Agree(ws1, p1, ws2, p2, n) <==> Content(ws1, p1, p1 + n) == Content(ws2, p2, p2 + n)
  {
    hide At, Content;
    var c1, c2 := Content(ws1, p1, p1 + n), Content(ws2, p2, p2 + n);
    if c1 == c2 {
      forall i | 0 <= i < n ensures Same(ws1, p1, ws2, p2, i) { assert c1[i] == c2[i]; }
    }
    if Agree(ws1, p1, ws2, p2, n) {
      forall i | 0 <= i < n ensures c1[i] == c2[i] { assert Same(ws1, p1, ws2, p2, i); }
      assert c1 == c2;
    }
  }

  /** Comparing one more pair of windows extends the agreement or refutes it. */
  lemma CompareWindows(ws1: seq<Bitword>, p1: nat, k1: nat, o1: nat, ws2: seq<Bitword>, p2: nat, k2: nat, o2: nat,
                       d: nat, n: nat, total: nat)
    requires 0 < n <= 64 && d + n <= total && Agree(ws1, p1, ws2, p2, d) && o1 < 64 && o2 < 64
    requires p1 + d == 64 * k1 + o1 && p2 + d == 64 * k2 + o2
    requires p1 + total <= 64 * |ws1| && p2 + total <= 64 * |ws2|
    ensures if Window(ws1, k1, o1, n) == Window(ws2, k2, o2, n) then Agree(ws1, p1, ws2, p2, d + n)
            else !Agree(ws1, p1, ws2, p2, total)
  {
    hide *;
    WindowBits(ws1, k1, o1, n);
    WindowBits(ws2, k2, o2, n);
    WindowsAgree(ws1, p1 + d, Window(ws1, k1, o1, n), ws2, p2 + d, Window(ws2, k2, o2, n), n);
    AgreeJoins(ws1, p1, ws2, p2, d, n);
    AgreeJoins(ws1, p1, ws2, p2, d + n, total - (d + n));
  }

  lemma NothingToCompare(ws1: seq<Bitword>, p1: nat, ws2: seq<Bitword>, p2: nat)
    ensures Agree(ws1, p1, ws2, p2, 0)
  {}

  // ----- copying a row to offset zero

  /** The first n words of out hold the row from position p on; the last one is cut at `total` bits. */
  predicate Unshifted(ws: seq<Bitword>, p: nat, total: nat, out: seq<Bitword>) {
    forall k :: 0 <= k < |out| && 64 * k < total ==> IsWindow(ws, p + 64 * k, Min(64, total - 64 * k), out[k])
  }

  lemma UnshiftedPush(ws: seq<Bitword>, p: nat, total: nat, out: seq<Bitword>, v: Bitword)
    requires Unshifted(ws, p, total, out) && 64 * |out| < total
    requires IsWindow(ws, p + 64 * |out|, Min(64, total - 64 * |out|), v)
    ensures Unshifted(ws, p, total, out + [v])
  {
    hide IsWindow;
  }

  lemma UnshiftedNothing(ws: seq<Bitword>, p: nat, total: nat)
    ensures Unshifted(ws, p, total, [])
  {}

  lemma UnshiftedContent(ws: seq<Bitword>, p: nat, total: nat, out: seq<Bitword>)
    requires Unshifted(ws, p, total, out) && |out| == TotalWords(total)
    ensures Content(out, 0, total) == Content(ws, p, p + total)
    ensures ClearFrom(out, total)
  {
    hide Bit, Content;
    TotalWordsBounds(total);
    forall q | 0 <= q ensures At(out, q) == (q < total && At(ws, p + q)) {
      if q / 64 < |out| {
        var k := q / 64;
        assert IsWindow(ws, p + 64 * k, Min(64, total - 64 * k), out[k]);
        assert Bit(out[k], q % 64) == (q % 64 < Min(64, total - 64 * k) && At(ws, p + 64 * k + q % 64));
      }
    }
    assert Content(out, 0, total) == Content(ws, p, p + total);
  }

  // ----- what a resize does to the content

  function Repeat(value: bool, n: nat): (bits: seq<bool>)
    ensures |bits| == n && forall i :: 0 <= i < n ==> bits[i] == value
  {
    seq(n, _ => value)
  }

  /** row' goes on as row does, with zeros behind it. */
  predicate RowKept(row: seq<bool>, row': seq<bool>) {
    forall i :: 0 <= i < |row'| ==> row'[i] == (i < |row| && row[i])
  }

  /** A reallocation filled with zeros keeps the row up to the new last word. */
  lemma ReallocatedRow(ws: seq<Bitword>, ws': seq<Bitword>, skip: nat, cap: nat)
    requires skip <= 64 * |ws| && Reallocated(ws, ws', skip / 64, cap, false)
    ensures RowKept(Content(ws, skip, 64 * |ws|), Content(ws', skip % 64, 64 * |ws'|))
  {
    hide Bit, Content;
    ReallocatedAt(ws, ws', skip / 64, cap, false);
    var row, row' := Content(ws, skip, 64 * |ws|), Content(ws', skip % 64, 64 * |ws'|);
    forall i | 0 <= i < |row'| ensures row'[i] == (i < |row| && row[i]) {
      assert row'[i] == At(ws', skip % 64 + i);
    }
  }

  /** How far position p lies behind the skipped head. */
  function Behind(skip: nat, p: nat): nat { if p <= skip then 0 else p - skip }

  /** A write, wherever it starts and ends, overwrites the bits that are there. */
  lemma WrittenRow(ws: seq<Bitword>, ws': seq<Bitword>, skip: nat, end: nat, lo: nat, hi: nat, value: bool)
    requires skip <= end <= 64 * |ws| && lo <= hi && Written(ws, ws', lo, hi, value)
    ensures Content(ws', skip, end) ==
      Overwrite(Content(ws, skip, end), Behind(skip, lo), Behind(skip, hi) - Behind(skip, lo), value)
  {
    hide At, Overwrite, Content;
  }

  /** With a clear tail the row is the content and zeros. */
  lemma ClearRow(ws: seq<Bitword>, skip: nat, nbits: nat)
    requires skip <= nbits <= 64 * |ws| && ClearFrom(ws, nbits)
    ensures var bits, row := Content(ws, skip, nbits), Content(ws, skip, 64 * |ws|);
      |bits| <= |row| && forall i :: 0 <= i < |row| ==> row[i] == (i < |bits| && bits[i])
  {
    hide At, Content;
  }

  /** With a clear tail, growing with zeros appends exactly zeros and keeps the tail clear. */
  lemma GrowsByZeros(ws: seq<Bitword>, skip: nat, nbits: nat, n: nat)
    requires skip <= nbits <= skip + n && |ws| == TotalWords(nbits) && ClearFrom(ws, nbits)
    ensures Resized(ws, skip, n, false) == Content(ws, skip, nbits) + Repeat(false, n - (nbits - skip))
    ensures CleanCut(ws, skip, n, false)
  {
    hide Bit, At, Content, Resized, Repeat;
    TotalWordsBounds(nbits);
    var c, r := Content(ws, skip, nbits), Resized(ws, skip, n, false);
    assert forall i :: |c| <= i < n ==> !r[i] by {
      forall i | |c| <= i < n ensures !r[i] { assert !At(ws, skip + i); }
    }
    assert r == c + Repeat(false, n - |c|);
  }

  /** With a clear tail, growing with ones appends exactly ones if and only if the row ends at a word boundary. */
  lemma GrowsByOnesIff(ws: seq<Bitword>, skip: nat, nbits: nat, n: nat)
    requires skip <= nbits < skip + n && |ws| == TotalWords(nbits) && ClearFrom(ws, nbits)
    ensures Resized(ws, skip, n, true) == Content(ws, skip, nbits) + Repeat(true, n - (nbits - skip))
      <==> nbits % 64 == 0
  {
    hide Bit, At, Content, Resized, Repeat;
    TotalWordsBounds(nbits);
    var c, r := Content(ws, skip, nbits), Resized(ws, skip, n, true);
    if nbits % 64 == 0 {
      assert r == c + Repeat(true, n - |c|);
    } else {
      assert !At(ws, skip + |c|);
      assert !r[|c|] && (c + Repeat(true, n - |c|))[|c|];
    }
  }

  /** Cutting keeps a prefix; the tail stays clear if and only if nothing set was cut within the last word. */
  lemma CutsIff(ws: seq<Bitword>, skip: nat, nbits: nat, n: nat, fill: bool)
    requires skip + n <= nbits && |ws| == TotalWords(nbits) && ClearFrom(ws, nbits)
    ensures Resized(ws, skip, n, fill) == Content(ws, skip, nbits)[..n]
    ensures CleanCut(ws, skip, n, fill) <==>
      forall i :: n <= i < nbits - skip && skip + i < 64 * TotalWords(skip + n) ==> !Content(ws, skip, nbits)[i]
  {
    CutKeepsPrefix(ws, skip, nbits, n, fill);
    CutIsCleanIff(ws, skip, nbits, n, fill);
  }

  lemma CutKeepsPrefix(ws: seq<Bitword>, skip: nat, nbits: nat, n: nat, fill: bool)
    requires skip + n <= nbits && |ws| == TotalWords(nbits)
    ensures Resized(ws, skip, n, fill) == Content(ws, skip, nbits)[..n]
  {
    hide Bit, At, Content, Resized;
    TotalWordsBounds(nbits);
  }

  /** Dropping whole words first makes no difference to where the last word ends. */
  lemma SameLastWord(skip: nat, n: nat)
    ensures 64 * (skip / 64 + TotalWords(n + skip % 64)) == 64 * TotalWords(skip + n)
  {}

  lemma CutIsCleanIff(ws: seq<Bitword>, skip: nat, nbits: nat, n: nat, fill: bool)
    requires skip + n <= nbits && |ws| == TotalWords(nbits) && ClearFrom(ws, nbits)
    ensures CleanCut(ws, skip, n, fill) <==>
      forall i :: n <= i < nbits - skip && skip + i < 64 * TotalWords(skip + n) ==> !Content(ws, skip, nbits)[i]
  {
    hide Bit, At, Content;
    TotalWordsBounds(nbits);
    SameLastWord(skip, n);
    assert TotalWords(skip + n) <= |ws|;
    hide TotalWords;
    var c := Content(ws, skip, nbits);
    if CleanCut(ws, skip, n, fill) {
      forall i | n <= i < nbits - skip && skip + i < 64 * TotalWords(skip + n) ensures !c[i] {
        assert !At(ws, skip + i);
      }
    } else {
      var q :| skip + n <= q < 64 * TotalWords(skip + n) && (At(ws, q) || (64 * |ws| <= q && fill));
      assert c[q - skip];
    }
  }

  /** Two set bits cut to one and grown back to two are both set: the cut bit was not discarded. */
  lemma CutBitReappears()
    ensures var ws := [Bitword(3)];
      && Content(ws, 0, 2) == [true, true]
      && Reallocated(ws, ws, 0, TotalWords(1), false)
      && Resized(ws, 0, 2, false) == [true, true]
  {
    var w := Bitword(3);
    assert Half(w) == ONE && Odd(w) && Odd(ONE);
    assert BitAt(w, 1) == BitAt(ONE, 0);
    assert Bit(w, 0) && Bit(w, 1);
    assert At([w], 0) && At([w], 1);
  }

  // ----- searching for one bit

  /** ret is the lowest position >= start whose bit has the given value, `none` when there is none. */
  predicate IsNext(bits: seq<bool>, start: nat, value: bool, none: nat, ret: nat) {
    if ret == none then forall i :: start <= i < |bits| ==> bits[i] != value
    else start <= ret < |bits| && bits[ret] == value && forall i :: start <= i < ret ==> bits[i] != value
  }

  /** Every bit of positions lo..hi-1 differs from value. */
  predicate Without(ws: seq<Bitword>, lo: nat, hi: nat, value: bool) {
    forall p :: lo <= p < hi ==> At(ws, p) != value
  }

  /** A word search, read as a search of the row. */
  lemma NextInWord(ws: seq<Bitword>, k: nat, offset: nat, value: bool)
    requires k < |ws| && offset < 64
    ensures var r := NextBit(ws[k], offset, value);
      && (r.None? ==> Without(ws, 64 * k + offset, 64 * k + 64, value))
      && (r.Some? ==> At(ws, 64 * k + r.value) == value && Without(ws, 64 * k + offset, 64 * k + r.value, value))
  {
    AtWordAll(ws, k);
  }

  /** Nothing in front of the place from which a search goes on. */
  lemma NextGoesOn(ws: seq<Bitword>, skip: nat, nbits: nat, none: nat, start: nat, from: nat, value: bool, ret: nat)
    requires start <= from && Without(ws, start + skip, from + skip, value)
    requires IsNext(Content(ws, skip, nbits), from, value, none, ret)
    ensures IsNext(Content(ws, skip, nbits), start, value, none, ret)
  {
    var bits := Content(ws, skip, nbits);
    forall i | start <= i < from && i < |bits| ensures bits[i] != value {
      assert bits[i] == At(ws, skip + i);
    }
  }

  /**
    What a search gives that starts at position pos of the skipped head. It looks at the rest of that word. A match in
    the head ends it without a result, except the last bit of the head, whose position reads as "not found"; then, and
    without a match, it goes on with the next word unless that word starts in the head as well.
   */
  ghost predicate IsNextFromHead(ws: seq<Bitword>, skip: nat, nbits: nat, pos: nat, value: bool, ret: nat)
    requires pos < skip
  {
    var edge := 64 * (pos / 64) + 64;
    && (forall q :: pos <= q < edge && q != skip - 1 && FirstMatch(ws, pos, q, value) ==>
          ret == if skip <= q < nbits then q - skip else NPOS)
    && (Without(ws, pos, edge, value) || (skip <= edge && FirstMatch(ws, pos, skip - 1, value)) ==>
          if edge < skip then ret == NPOS else IsNext(Content(ws, skip, nbits), edge - skip, value, NPOS, ret))
  }

  predicate FirstMatch(ws: seq<Bitword>, pos: nat, q: nat, value: bool) {
    At(ws, q) == value && Without(ws, pos, q, value)
  }

  lemma NextOfRow(ws: seq<Bitword>, skip: nat, nbits: nat, none: nat, start: nat, value: bool, ret: nat)
    requires start <= ret && skip <= nbits <= none
    requires Without(ws, start + skip, ret + skip, value)
    requires ret + skip < nbits ==> At(ws, ret + skip) == value
    ensures IsNext(Content(ws, skip, nbits), start, value, none, if ret + skip < nbits then ret else none)
  {
    var bits := Content(ws, skip, nbits);
    forall i | start <= i < ret && i < |bits| ensures bits[i] != value {
      assert bits[i] == At(ws, skip + i);
    }
  }
}
