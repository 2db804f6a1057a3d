/**
  The entries of a MultiEntryHashNode as values (include/sisl/cache/range_hashmap.hpp): sorted, disjoint
  ranges of offsets below 256, each with one value per offset.

  A range that is inserted or erased keeps what lies left of it and what lies right of it, cutting the
  entries at both ends. When no entry covers the right end of the range, the next entry to the right
  goes as well, although it does not overlap: `Neighbour` names it, and the lemmas say exactly when and
  how this differs from updating a map from offsets to values.
 */
module RangeEntries {

  import opened Wrappers

  const NODE_SIZE: nat := 256

  /** The value of an entry is what the value extractor slices: one element per offset. */
  datatype Entry<V> = Entry(lo: nat, hi: nat, val: seq<V>)

  predicate Fits<V>(e: Entry<V>) { e.lo <= e.hi < NODE_SIZE && |e.val| == e.hi - e.lo + 1 }

  predicate Covers<V>(e: Entry<V>, off: nat) { e.lo <= off <= e.hi }

  function ValAt<V>(e: Entry<V>, off: nat): V
    requires Fits(e) && Covers(e, off)
  {
    e.val[off - e.lo]
  }

  predicate Sorted<V>(values: seq<Entry<V>>) {
    && (forall i :: 0 <= i < |values| ==> Fits(values[i]))
    && (forall i, j :: 0 <= i < j < |values| ==> values[i].hi < values[j].lo)
  }

  /** What the entries store at an offset. */
  function Lookup<V>(values: seq<Entry<V>>, off: nat): Option<V>
    requires Sorted(values)
  {
    if values == [] then None
    else if Covers(values[0], off) then Some(ValAt(values[0], off))
    else Lookup(values[1..], off)
  }

  function ExtractLeft<V>(e: Entry<V>, upto: nat): (r: Entry<V>)
    requires Fits(e) && e.lo <= upto <= e.hi
    ensures Fits(r) && r.lo == e.lo && r.hi == upto
    ensures forall off: nat :: Covers(r, off) ==> ValAt(r, off) == ValAt(e, off)
  {
    Entry(e.lo, upto, e.val[..upto - e.lo + 1])
  }

  function ExtractRight<V>(e: Entry<V>, from: nat): (r: Entry<V>)
    requires Fits(e) && e.lo <= from <= e.hi
    ensures Fits(r) && r.lo == from && r.hi == e.hi
    ensures forall off: nat :: Covers(r, off) ==> ValAt(r, off) == ValAt(e, off)
  {
    Entry(from, e.hi, e.val[from - e.lo..])
  }

  /** The entries left of lo, the last one cut if it reaches further. */
  function LeftPart<V>(values: seq<Entry<V>>, lo: nat): seq<Entry<V>>
    requires Sorted(values)
  {
    if values == [] then []
    else if values[0].hi < lo then [values[0]] + LeftPart(values[1..], lo)
    else if values[0].lo < lo then [ExtractLeft(values[0], lo - 1)]
    else []
  }

  /** The entries kept right of hi, the first one cut if it covers hi. */
  function RightPart<V>(values: seq<Entry<V>>, hi: nat): seq<Entry<V>>
    requires Sorted(values)
  {
    if values == [] then []
    else if values[0].hi < hi then RightPart(values[1..], hi)
    else if values[0].lo <= hi < values[0].hi then [ExtractRight(values[0], hi + 1)] + values[1..]
    else values[1..]
  }

  function Inserted<V>(values: seq<Entry<V>>, lo: nat, hi: nat, val: seq<V>): seq<Entry<V>>
    requires Sorted(values)
  {
    LeftPart(values, lo) + [Entry(lo, hi, val)] + RightPart(values, hi)
  }

  function Erased<V>(values: seq<Entry<V>>, lo: nat, hi: nat): seq<Entry<V>>
    requires Sorted(values)
  {
    LeftPart(values, lo) + RightPart(values, hi)
  }

  /** The first entry that lies wholly to the right of hi. */
  function Neighbour<V>(values: seq<Entry<V>>, hi: nat): Option<Entry<V>> {
    if values == [] then None
    else if hi < values[0].lo then Some(values[0])
    else Neighbour(values[1..], hi)
  }

  /** off is in the entry that goes although it does not overlap a range ending at hi. */
  predicate Dropped<V>(values: seq<Entry<V>>, hi: nat, off: nat)
    requires Sorted(values)
  {
    Lookup(values, hi).None? && Neighbour(values, hi).Some? && Covers(Neighbour(values, hi).value, off)
  }

  /** The caller's side of the condition: the right end is stored or nothing lies to the right of it. */
  predicate Safe<V>(values: seq<Entry<V>>, hi: nat)
    requires Sorted(values)
  {
    Lookup(values, hi).Some? || Neighbour(values, hi).None?
  }

  // ----- lookups

  lemma {:induction false} LookupBelow<V>(values: seq<Entry<V>>, off: nat)
    requires Sorted(values) && (forall i :: 0 <= i < |values| ==> off < values[i].lo)
    ensures Lookup(values, off).None?
  {
    if values != [] { LookupBelow(values[1..], off); }
  }

  lemma {:induction false} LookupAbove<V>(values: seq<Entry<V>>, off: nat)
    requires Sorted(values) && (forall i :: 0 <= i < |values| ==> values[i].hi < off)
    ensures Lookup(values, off).None?
  {
    if values != [] { LookupAbove(values[1..], off); }
  }

  /** A lookup finds the one entry that covers the offset. */
  lemma {:induction false} LookupAt<V>(values: seq<Entry<V>>, off: nat, k: nat)
    requires Sorted(values) && k < |values| && Covers(values[k], off)
    ensures Lookup(values, off) == Some(ValAt(values[k], off))
  {
    if k > 0 {
      assert values[0].hi < values[k].lo;
      LookupAt(values[1..], off, k - 1);
    }
  }

  lemma {:induction false} LookupFinds<V>(values: seq<Entry<V>>, off: nat) returns (k: nat)
    requires Sorted(values) && Lookup(values, off).Some?
    ensures k < |values| && Covers(values[k], off)
  {
    if Covers(values[0], off) {
      k := 0;
    } else {
      k := LookupFinds(values[1..], off);
      k := k + 1;
    }
  }

  lemma {:induction false} LookupJoin<V>(p: seq<Entry<V>>, q: seq<Entry<V>>, off: nat)
    requires Sorted(p + q) && Sorted(p) && Sorted(q)
    ensures Lookup(p + q, off) == if Lookup(p, off).Some? then Lookup(p, off) else Lookup(q, off)
  {
    if p == [] {
      assert p + q == q;
    } else {
      assert (p + q)[1..] == p[1..] + q;
      LookupJoin(p[1..], q, off);
    }
  }

  lemma FirstAndRest<V>(values: seq<Entry<V>>)
    requires Sorted(values) && values != []
    ensures Fits(values[0]) && Sorted(values[1..])
    ensures forall i :: 0 <= i < |values[1..]| ==> values[0].hi < values[1..][i].lo
  {}

  lemma Prepended<V>(e: Entry<V>, rest: seq<Entry<V>>)
    requires Fits(e) && Sorted(rest) && forall i :: 0 <= i < |rest| ==> e.hi < rest[i].lo
    ensures Sorted([e] + rest)
  {}

  lemma Joined<V>(p: seq<Entry<V>>, q: seq<Entry<V>>, at: nat)
    requires Sorted(p) && Sorted(q)
    requires forall i :: 0 <= i < |p| ==> p[i].hi < at
    requires forall i :: 0 <= i < |q| ==> at <= q[i].lo
    ensures Sorted(p + q)
  {}

  // ----- the two sides of a range

  lemma {:induction false} LeftSorted<V>(values: seq<Entry<V>>, lo: nat)
    requires Sorted(values)
    ensures Sorted(LeftPart(values, lo))
    ensures forall i :: 0 <= i < |LeftPart(values, lo)| ==> LeftPart(values, lo)[i].hi < lo
    ensures forall i :: 0 <= i < |LeftPart(values, lo)| ==> values != [] && values[0].lo <= LeftPart(values, lo)[i].lo
  {
    if values == [] {
    } else if values[0].hi < lo {
      FirstAndRest(values);
      LeftSorted(values[1..], lo);
      hide Sorted;
      var rest := LeftPart(values[1..], lo);
      assert forall i :: 0 <= i < |rest| ==> values[0].hi < rest[i].lo;
      Prepended(values[0], rest);
    } else if values[0].lo < lo {
      Prepended(ExtractLeft(values[0], lo - 1), []);
    }
  }

  lemma {:induction false} LeftMeaning<V>(values: seq<Entry<V>>, lo: nat, off: nat)
    requires Sorted(values)
    ensures Sorted(LeftPart(values, lo))
    ensures Lookup(LeftPart(values, lo), off) == if off < lo then Lookup(values, off) else None
  {
    LeftSorted(values, lo);
    if values != [] {
      if values[0].hi < lo {
        LeftMeaning(values[1..], lo, off);
        hide Sorted;
        assert LeftPart(values, lo)[1..] == LeftPart(values[1..], lo);
      } else {
        LookupBeyond(values, off);
        hide Sorted;
        assert LeftPart(values, lo) != [] ==> LeftPart(values, lo)[1..] == [];
      }
    }
  }

  /** Offsets up to the end of the first entry are found there or nowhere. */
  lemma LookupBeyond<V>(values: seq<Entry<V>>, off: nat)
    requires Sorted(values) && values != []
    ensures off <= values[0].hi && !Covers(values[0], off) ==> Lookup(values, off).None?
  {
    if off <= values[0].hi && !Covers(values[0], off) { LookupBelow(values, off); }
  }

  lemma {:induction false} RightSorted<V>(values: seq<Entry<V>>, hi: nat)
    requires Sorted(values)
    ensures Sorted(RightPart(values, hi))
    ensures forall i :: 0 <= i < |RightPart(values, hi)| ==> hi < RightPart(values, hi)[i].lo
  {
    hide Sorted;
    if values != [] {
      FirstAndRest(values);
      if values[0].hi < hi {
        RightSorted(values[1..], hi);
      } else if values[0].lo <= hi < values[0].hi {
        Prepended(ExtractRight(values[0], hi + 1), values[1..]);
      }
    }
  }

  lemma {:induction false} RightMeaning<V>(values: seq<Entry<V>>, hi: nat, off: nat)
    requires Sorted(values)
    ensures Sorted(RightPart(values, hi))
    ensures Lookup(RightPart(values, hi), off) ==
      if hi < off && !Dropped(values, hi, off) then Lookup(values, off) else None
  {
    RightSorted(values, hi);
    if values == [] {
    } else if values[0].hi < hi {
      RightMeaning(values[1..], hi, off);
    } else {
      RightCut(values, hi, off);
    }
  }

  lemma HeadFits<V>(values: seq<Entry<V>>, off: nat)
    requires Sorted(values) && values != []
    ensures Fits(values[0]) && Sorted(values[1..])
    ensures off <= values[0].hi ==> Lookup(values[1..], off).None?
    ensures off < values[0].lo ==> Lookup(values, off).None?
  {
    if off <= values[0].hi { LookupBelow(values[1..], off); }
  }

  lemma RightCut<V>(values: seq<Entry<V>>, hi: nat, off: nat)
    requires Sorted(values) && values != [] && hi <= values[0].hi && Sorted(RightPart(values, hi))
    ensures Lookup(RightPart(values, hi), off) ==
      if hi < off && !Dropped(values, hi, off) then Lookup(values, off) else None
  {
    hide Sorted;
    HeadFits(values, off);
    HeadFits(values, hi);
    var e, rest := values[0], values[1..];
    if e.lo <= hi < e.hi {
      assert RightPart(values, hi)[1..] == rest;
      assert Lookup(RightPart(values, hi), off) ==
        if hi < off <= e.hi then Some(ValAt(e, off)) else Lookup(rest, off);
    } else {
      assert RightPart(values, hi) == rest;
    }
  }

  // ----- insert and erase as map updates

  /** What updating a map from offsets to values would give. */
  function Updated<V>(values: seq<Entry<V>>, lo: nat, hi: nat, val: seq<V>, off: nat): Option<V>
    requires Sorted(values) && lo <= hi && |val| == hi - lo + 1
  {
    if lo <= off <= hi then Some(val[off - lo]) else Lookup(values, off)
  }

  function Removed<V>(values: seq<Entry<V>>, lo: nat, hi: nat, off: nat): Option<V>
    requires Sorted(values)
  {
    if lo <= off <= hi then None else Lookup(values, off)
  }

  lemma InsertMeaning<V>(values: seq<Entry<V>>, lo: nat, hi: nat, val: seq<V>, off: nat)
    requires Sorted(values) && lo <= hi < NODE_SIZE && |val| == hi - lo + 1
    ensures Sorted(Inserted(values, lo, hi, val))
    ensures Lookup(Inserted(values, lo, hi, val), off) ==
      if Dropped(values, hi, off) then None else Updated(values, lo, hi, val, off)
  {
    hide LeftPart, RightPart, Dropped, Lookup, Sorted;
    var p, e, q := LeftPart(values, lo), Entry(lo, hi, val), RightPart(values, hi);
    LeftSorted(values, lo);
    LeftMeaning(values, lo, off);
    RightSorted(values, hi);
    RightMeaning(values, hi, off);
    DroppedIsRight(values, hi, off);
    OneEntry(e, off);
    Joined(p, [e], lo);
    Joined(p + [e], q, hi + 1);
    LookupJoin(p, [e], off);
    LookupJoin(p + [e], q, off);
  }

  lemma OneEntry<V>(e: Entry<V>, off: nat)
    requires Fits(e)
    ensures Sorted([e]) && Lookup([e], off) == if Covers(e, off) then Some(ValAt(e, off)) else None
  {}

  lemma EraseMeaning<V>(values: seq<Entry<V>>, lo: nat, hi: nat, off: nat)
    requires Sorted(values) && lo <= hi < NODE_SIZE
    ensures Sorted(Erased(values, lo, hi))
    ensures Lookup(Erased(values, lo, hi), off) ==
      if Dropped(values, hi, off) then None else Removed(values, lo, hi, off)
  {
    var p, q := LeftPart(values, lo), RightPart(values, hi);
    LeftSorted(values, lo);
    LeftMeaning(values, lo, off);
    RightSorted(values, hi);
    RightMeaning(values, hi, off);
    DroppedIsRight(values, hi, off);
    hide LeftPart, RightPart, Dropped;
    Joined(p, q, lo);
    LookupJoin(p, q, off);
  }

  lemma {:induction false} NeighbourIsRight<V>(values: seq<Entry<V>>, hi: nat)
    requires Neighbour(values, hi).Some?
    ensures hi < Neighbour(values, hi).value.lo && Neighbour(values, hi).value in values
  {
    if !(hi < values[0].lo) { NeighbourIsRight(values[1..], hi); }
  }

  lemma DroppedIsRight<V>(values: seq<Entry<V>>, hi: nat, off: nat)
    requires Sorted(values)
    ensures Dropped(values, hi, off) ==> hi < off && Lookup(values, off).Some?
  {
    if Dropped(values, hi, off) {
      NeighbourIsRight(values, hi);
      var k :| 0 <= k < |values| && values[k] == Neighbour(values, hi).value;
      LookupAt(values, off, k);
    }
  }

  /** Some offset is lost exactly when the condition fails. */
  lemma DroppedIff<V>(values: seq<Entry<V>>, hi: nat)
    requires Sorted(values)
    ensures Safe(values, hi) <==> forall off :: !Dropped(values, hi, off)
  {
    if !Safe(values, hi) {
      NeighbourIsRight(values, hi);
      var e := Neighbour(values, hi).value;
      assert Fits(e);
      assert Dropped(values, hi, e.lo);
    }
  }

  /** Insert is the map update if and only if the right end is stored or nothing lies right of it. */
  lemma InsertIsUpdateIff<V>(values: seq<Entry<V>>, lo: nat, hi: nat, val: seq<V>)
    requires Sorted(values) && lo <= hi < NODE_SIZE && |val| == hi - lo + 1
    ensures Sorted(Inserted(values, lo, hi, val))
    ensures Safe(values, hi) <==>
      forall off :: Lookup(Inserted(values, lo, hi, val), off) == Updated(values, lo, hi, val, off)
  {
    InsertMeaning(values, lo, hi, val, 0);
    DroppedIff(values, hi);
    forall off ensures
      Dropped(values, hi, off) <==> Lookup(Inserted(values, lo, hi, val), off) != Updated(values, lo, hi, val, off)
    {
      InsertMeaning(values, lo, hi, val, off);
      DroppedIsRight(values, hi, off);
    }
  }

  lemma EraseIsRemovalIff<V>(values: seq<Entry<V>>, lo: nat, hi: nat)
    requires Sorted(values) && lo <= hi < NODE_SIZE
    ensures Sorted(Erased(values, lo, hi))
    ensures Safe(values, hi) <==> forall off :: Lookup(Erased(values, lo, hi), off) == Removed(values, lo, hi, off)
  {
    EraseMeaning(values, lo, hi, 0);
    DroppedIff(values, hi);
    forall off
      ensures Dropped(values, hi, off) <==> Lookup(Erased(values, lo, hi), off) != Removed(values, lo, hi, off)
    {
      EraseMeaning(values, lo, hi, off);
      DroppedIsRight(values, hi, off);
    }
  }

  /** Erasing offset 0 of a node that stores offset 10 only loses offset 10. */
  lemma NeighbourLost<V>(v: V)
    ensures var values := [Entry(10, 10, [v])];
      Sorted(values) && Lookup(values, 10) == Some(v) && !Safe(values, 0) && Erased(values, 0, 0) == []
  {
    var values := [Entry(10, 10, [v])];
    assert values[1..] == [];
    assert Lookup(values[1..], 0).None?;
  }

  // ----- the sides by index

  lemma {:induction false} LeftByIndex<V>(values: seq<Entry<V>>, lo: nat, k: nat)
    requires Sorted(values) && k <= |values|
    requires forall i :: 0 <= i < k ==> values[i].hi < lo
    requires k < |values| ==> lo <= values[k].hi
    ensures LeftPart(values, lo) ==
      values[..k] + if k < |values| && values[k].lo < lo then [ExtractLeft(values[k], lo - 1)] else []
  {
    if k > 0 {
      assert values[..k] == [values[0]] + values[1..][..k - 1];
      LeftByIndex(values[1..], lo, k - 1);
    }
  }

  lemma {:induction false} RightByIndex<V>(values: seq<Entry<V>>, hi: nat, k: nat)
    requires Sorted(values) && k <= |values|
    requires forall i :: 0 <= i < k ==> values[i].hi < hi
    requires k < |values| ==> hi <= values[k].hi
    ensures RightPart(values, hi) ==
      if k == |values| then []
      else if values[k].lo <= hi < values[k].hi then [ExtractRight(values[k], hi + 1)] + values[k + 1..]
      else values[k + 1..]
  {
    if k > 0 {
      assert k < |values| ==> values[1..][k..] == values[k + 1..];
      RightByIndex(values[1..], hi, k - 1);
    }
  }

  // ----- the pieces get returns

  /** The part of an entry inside a range (extract_matched_kv). */
  function Matched<V>(e: Entry<V>, lo: nat, hi: nat): (r: Entry<V>)
    requires Fits(e) && lo <= e.hi && e.lo <= hi && lo <= hi
    ensures Fits(r) && forall off: nat :: Covers(r, off) <==> Covers(e, off) && lo <= off <= hi
    ensures forall off: nat :: Covers(r, off) ==> ValAt(r, off) == ValAt(e, off)
  {
    var first := if e.lo < lo then lo else e.lo;
    var last := if e.hi < hi then e.hi else hi;
    Entry(first, last, e.val[first - e.lo..last - e.lo + 1])
  }

  /** The intersections of the entries with a range, in order. */
  function Pieces<V>(values: seq<Entry<V>>, lo: nat, hi: nat): seq<Entry<V>>
    requires Sorted(values) && lo <= hi
  {
    if values == [] then []
    else if values[0].hi < lo then Pieces(values[1..], lo, hi)
    else if hi < values[0].lo then []
    else [Matched(values[0], lo, hi)] + Pieces(values[1..], lo, hi)
  }

  lemma {:induction false} PiecesSorted<V>(values: seq<Entry<V>>, lo: nat, hi: nat)
    requires Sorted(values) && lo <= hi
    ensures Sorted(Pieces(values, lo, hi))
    ensures forall i :: 0 <= i < |Pieces(values, lo, hi)| ==>
      && lo <= Pieces(values, lo, hi)[i].lo && Pieces(values, lo, hi)[i].hi <= hi
      && values != [] && values[0].lo <= Pieces(values, lo, hi)[i].lo
  {
    if values != [] && !(hi < values[0].lo && lo <= values[0].hi) {
      FirstAndRest(values);
      PiecesSorted(values[1..], lo, hi);
      hide Sorted;
      if lo <= values[0].hi {
        var m, rest := Matched(values[0], lo, hi), Pieces(values[1..], lo, hi);
        assert Covers(m, m.lo) && Covers(m, m.hi);
        assert forall i :: 0 <= i < |rest| ==> m.hi < rest[i].lo;
        Prepended(m, rest);
      }
    }
  }

  /** Looking an offset up in the pieces is looking it up in the entries, within the range. */
  lemma {:induction false} PiecesMeaning<V>(values: seq<Entry<V>>, lo: nat, hi: nat, off: nat)
    requires Sorted(values) && lo <= hi
    ensures Sorted(Pieces(values, lo, hi))
    ensures Lookup(Pieces(values, lo, hi), off) == if lo <= off <= hi then Lookup(values, off) else None
  {
    PiecesSorted(values, lo, hi);
    if values == [] {
    } else if values[0].hi < lo {
      PiecesMeaning(values[1..], lo, hi, off);
    } else if hi < values[0].lo {
      if off <= hi { LookupBelow(values, off); }
    } else {
      PiecesMeaning(values[1..], lo, hi, off);
      hide Sorted;
      assert Pieces(values, lo, hi)[1..] == Pieces(values[1..], lo, hi);
    }
  }
}
