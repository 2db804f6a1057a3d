/** IDReserver (include/sisl/fds/id_reserver.hpp): a set of ids kept in a bitset that doubles when it is full. */
module IdReservers {
  import opened Wrappers
  import opened Bitwords
  import opened WordArrays
  import opened Bitsets

  /** The positions of the set bits. */
  function Members(bits: seq<bool>): set<nat> {
    set i | 0 <= i < |bits| && bits[i]
  }

  lemma SetMember(bits: seq<bool>, i: nat, value: bool)
    requires i < |bits|
    ensures Members(bits[i := value]) == if value then Members(bits) + {i} else Members(bits) - {i}
  {}

  lemma BoundedMembers(bits: seq<bool>)
    ensures forall i :: i in Members(bits) ==> 0 <= i < |bits|
  {}

  lemma AppendNothing(bits: seq<bool>, n: nat)
    ensures Members(bits + Repeat(false, n)) == Members(bits)
  {
    var longer := bits + Repeat(false, n);
    assert forall i :: i in Members(longer) <==> i in Members(bits);
  }

  class IDReserver {
    const bits: Bitset

    ghost predicate Valid()
      reads this, bits, bits.words
    {
      bits.Valid() && bits.ZeroTail() && 0 < |bits.Bits()| && bits.skipBits == 0
    }

    ghost function Reserved(): set<nat>
      reads this, bits, bits.words
    {
      Members(bits.Bits())
    }

    constructor (estimatedIds: nat, threshold: nat)
      requires 0 < estimatedIds <= MAX_BITS
      ensures Valid() && fresh(bits) && fresh(bits.words) && Reserved() == {}
      ensures |bits.Bits()| == estimatedIds
    {
      bits := new Bitset(estimatedIds, threshold);
    }

    /** Takes the least id that is not reserved, doubling the bitset when every bit is taken. */
    method Reserve() returns (id: nat)
      requires Valid() && 2 * |bits.Bits()| <= MAX_BITS
      modifies bits, bits.words
      ensures Valid() && (bits.words == old(bits.words) || fresh(bits.words))
      ensures id !in old(Reserved()) && Reserved() == old(Reserved()) + {id}
      ensures forall j :: 0 <= j < id ==> j in old(Reserved())
      ensures |bits.Bits()| == if id < old(|bits.Bits()|) then old(|bits.Bits()|) else 2 * old(|bits.Bits()|)
    {
      hide Content, At, Bit, ClearFrom, Resized, CleanCut, RowKept, U64, TotalWords;
      id := bits.GetNextBit(0, false);
      if id == NPOS {
        var size := bits.nbits - bits.skipBits;
        bits.ResizeImpl(2 * size, false);
        AppendNothing(old(bits.Bits()), size);
        id := size;
      }
      SetMember(bits.Bits(), id, true);
      bits.SetResetBit(id, true);
    }

    method ReserveId(id: nat)
      requires Valid() && id < |bits.Bits()| && id !in Reserved()
      modifies bits.words
      ensures Valid() && Reserved() == old(Reserved()) + {id}
    {
      SetMember(bits.Bits(), id, true);
      bits.SetResetBit(id, true);
    }

    method Unreserve(id: nat)
      requires Valid() && id < |bits.Bits()|
      modifies bits.words
      ensures Valid() && Reserved() == old(Reserved()) - {id}
    {
      SetMember(bits.Bits(), id, false);
      bits.SetResetBit(id, false);
    }

    method IsReserved(id: nat) returns (b: bool)
      requires Valid() && id <= NPOS
      ensures b == (id in Reserved())
    {
      b := bits.GetBitval(id);
    }

    /** first_reserved_id (last is None) and next_reserved_id. */
    method FindNextReservedId(last: Option<nat>) returns (found: Option<nat>)
      requires Valid() && (last.Some? ==> last.value < NPOS)
      ensures var from := if last.None? then 0 else last.value + 1;
        && (found.None? ==> forall j :: j in Reserved() ==> j < from)
        && (found.Some? ==> found.value in Reserved() && from <= found.value)
        && (found.Some? ==> forall j :: from <= j < found.value ==> j !in Reserved())
    {
      var bit := bits.GetNextBit(if last.None? then 0 else last.value + 1, true);
      if bit == NPOS { return None; }
      found := Some(bit);
    }

    /** The documented way to list the ids: first, then next until nothing is found. */
    method ListReserved() returns (ids: seq<nat>)
      requires Valid()
      ensures forall i, j :: 0 <= i < j < |ids| ==> ids[i] < ids[j]
      ensures forall id :: id in ids <==> id in Reserved()
    {
      hide Members, Content, At;
      ghost var all := Reserved();
      BoundedMembers(bits.Bits());
      ids := [];
      var found := FindNextReservedId(None);
      assert forall id :: id in all && (found.Some? ==> id < found.value) ==> id !in Reserved();
      while found.Some?
        invariant forall i, j :: 0 <= i < j < |ids| ==> ids[i] < ids[j]
        invariant forall i :: 0 <= i < |ids| ==> ids[i] in all && (found.Some? ==> ids[i] < found.value)
        invariant found.Some? ==> found.value in all
        invariant forall id :: id in all && (found.Some? ==> id < found.value) ==> id in ids
        decreases if found.Some? then |bits.Bits()| + 1 - found.value else 0
      {
        var id := found.value;
        ghost var before := ids;
        ids := ids + [id];
        found := FindNextReservedId(Some(id));
        assert Reserved() == all;
        forall x | x in all && (found.Some? ==> x < found.value) ensures x in ids {
          assert x == id || x < id;
          assert x == ids[|before|] || x in before;
        }
      }
    }
  }
}
