/** CompactBitSet (include/sisl/fds/compact_bitset.hpp): whole words, no header and no skipped head. */
module CompactBitsets {
  import opened Wrappers
  import opened BitVectors
  import opened Bitwords
  import opened WordArrays

  /** inval_bit, the largest 32-bit number. */
  const INVAL_BIT: nat := 0xFFFF_FFFF

  /** ret is the highest set position <= start, INVAL_BIT when there is none. */
  predicate IsPrevSet(bits: seq<bool>, start: nat, ret: nat) {
    if ret == INVAL_BIT then forall i :: 0 <= i <= start && i < |bits| ==> !bits[i]
    else ret <= start && ret < |bits| && bits[ret] && forall i :: ret < i <= start && i < |bits| ==> !bits[i]
  }

  class CompactBitSet {
    var words: array<Bitword>

    ghost predicate Valid()
      reads this
    {
      0 < 64 * words.Length <= INVAL_BIT
    }

    function Size(): nat
      reads this
    {
      64 * words.Length
    }

    ghost function Bits(): seq<bool>
      reads this, words
    {
      Content(words[..], 0, Size())
    }

    /** The size is rounded up to whole words. */
    constructor (nbits: nat)
      requires 0 < nbits <= INVAL_BIT - 63
      ensures Valid() && fresh(words)
      ensures nbits <= Size() < nbits + 64
      ensures forall i :: 0 <= i < Size() ==> !Bits()[i]
    {
      words := new Bitword[TotalWords(nbits)](_ => ZERO);
      new;
      TotalWordsBounds(nbits);
      ZeroBits();
    }

    /** set_bit and reset_bit; nothing happens out of range. */
    method SetResetBit(bit: nat, value: bool)
      requires Valid()
      modifies words
      ensures Valid()
      ensures Bits() == if bit < Size() then old(Bits())[bit := value] else old(Bits())
    {
      hide At, Bit, SetResetBits, Content;
      ghost var ws := words[..];
      if bit >= Size() { return; }
      words[bit / 64] := SetResetBits(words[bit / 64], bit % 64, 1, value);
      NothingWritten(ws, bit, value);
      WriteWord(ws, ws, words[..], bit, bit, bit + 1, value);
      WrittenContent(ws, words[..], 0, Size(), bit, 1, value);
      assert Overwrite(old(Bits()), bit, 1, value) == old(Bits())[bit := value];
    }

    method IsBitSet(bit: nat) returns (b: bool)
      requires Valid()
      ensures b == (bit < Size() && Bits()[bit])
    {
      if bit >= Size() { return false; }
      b := IsBitsSetReset(words[bit / 64], bit % 64, 1, true);
      assert b == Bit(words[bit / 64], bit % 64);
      assert At(words[..], bit) == b;
    }

    method GetNextSetOrResetBit(start: nat, value: bool) returns (ret: nat)
      requires Valid()
      ensures IsNext(Bits(), start, value, INVAL_BIT, ret)
    {
      hide At, Bit, NextBit, Content;
      ghost var ws := words[..];
      ret := INVAL_BIT;
      if start >= Size() {
        NextOfRow(ws, 0, Size(), INVAL_BIT, start, value, start);
        return;
      }
      var k, offset := start / 64, start % 64;
      var found := NextBit(words[k], offset, value);
      NextInWord(ws, k, offset, value);
      if found.Some? {
        ret := start + found.value - offset;
      } else {
        var current := start + (64 - offset);
        var remaining := if current > Size() then 0 else Size() - current;
        while remaining > 0
          invariant k < |ws| && current == 64 * k + 64 && remaining == Size() - current && found.None?
          invariant start <= current && Without(ws, start, current, value)
        {
          k := k + 1;
          found := NextBit(words[k], 0, value);
          NextInWord(ws, k, 0, value);
          if found.Some? { break; }
          current, remaining := current + 64, remaining - Min(remaining, 64);
        }
        ret := if found.Some? then current + found.value else current;
      }
      NextOfRow(ws, 0, Size(), INVAL_BIT, start, value, ret);
      if ret >= Size() { ret := INVAL_BIT; }
    }

    /** The source reads past the last word for start == size(), which its comment still allows. */
    method GetPrevSetBit(start: nat) returns (ret: nat)
      requires Valid() && start < Size()
      ensures IsPrevSet(Bits(), start, ret)
    {
      hide At, Bit, Bitwords.GetPrevSetBit, Content;
      ghost var ws := words[..];
      var s, offset, k := start, start % 64, start / 64;
      while true
        invariant 0 <= k < |ws| && s - offset == 64 * k && 0 <= offset <= 64
        invariant 64 * k + Min(offset + 1, 64) <= start + 1
        invariant Without(ws, 64 * k + Min(offset + 1, 64), start + 1, true)
        decreases k
      {
        var found := Bitwords.GetPrevSetBit(words[k], offset);
        AtWordAll(ws, k);
        if found.Some? {
          ret := s - (offset - found.value);
          assert At(ws, ret) && Without(ws, ret + 1, start + 1, true);
          return;
        }
        s, offset := s - offset, 64;
        if k == 0 { break; }
        k := k - 1;
      }
      ret := INVAL_BIT;
      assert Without(ws, 0, start + 1, true);
    }
  }
}
