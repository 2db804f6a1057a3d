/**
  Machine words of 64 bits as bit-vectors, and what the operators of the source
  do to each single bit. Nothing outside this module looks at a `bv64`: the
  lemmas BitOr, BitAnd, BitNot, BitShr, BitShl, BitMask and WordsEqual are the
  interface.
 */
module BitVectors {

  datatype Bitword = Bitword(bits: bv64)

  const ZERO := Bitword(0)
  const ONE := Bitword(1)

  function Or(a: Bitword, b: Bitword): Bitword { Bitword(a.bits | b.bits) }

  function And(a: Bitword, b: Bitword): Bitword { Bitword(a.bits & b.bits) }

  function Not(a: Bitword): Bitword { Bitword(!a.bits) }

  function Half(a: Bitword): Bitword { Bitword(a.bits >> 1) }

  function Double(a: Bitword): Bitword { Bitword(a.bits << 1) }

  function Minus1(a: Bitword): Bitword { Bitword(a.bits - 1) }

  predicate Odd(a: Bitword) { a.bits & 1 == 1 }

  /** `w >> n`, as n shifts by one position. */
  function Shr(w: Bitword, n: nat): Bitword
    decreases n
  {
    if n == 0 then w else Shr(Half(w), n - 1)
  }

  /** `w << n`, as n shifts by one position. */
  function Shl(w: Bitword, n: nat): Bitword
    decreases n
  {
    if n == 0 then w else Double(Shl(w, n - 1))
  }

  /** Bit i of the word, counted from the least significant one. */
  predicate BitAt(w: Bitword, i: nat)
    decreases i
  {
    if i == 0 then Odd(w) else BitAt(Half(w), i - 1)
  }

  /** The table entry consecutive_bitmask[n - 1]: (1 << n) - 1, all ones for n == 64. */
  function ConsecutiveMask(n: nat): Bitword { Minus1(Shl(ONE, n)) }

  // ----- what one shift, mask or complement does to single bits

  lemma OrStep(a: Bitword, b: Bitword)
    ensures Half(Or(a, b)) == Or(Half(a), Half(b))
    ensures Odd(Or(a, b)) == (Odd(a) || Odd(b))
  {}

  lemma AndStep(a: Bitword, b: Bitword)
    ensures Half(And(a, b)) == And(Half(a), Half(b))
    ensures Odd(And(a, b)) == (Odd(a) && Odd(b))
  {}

  lemma {:induction false} BitOr(a: Bitword, b: Bitword, i: nat)
    ensures BitAt(Or(a, b), i) == (BitAt(a, i) || BitAt(b, i))
    decreases i
  {
    OrStep(a, b);
    if i > 0 { BitOr(Half(a), Half(b), i - 1); }
  }

  lemma {:induction false} BitAnd(a: Bitword, b: Bitword, i: nat)
    ensures BitAt(And(a, b), i) == (BitAt(a, i) && BitAt(b, i))
    decreases i
  {
    AndStep(a, b);
    if i > 0 { BitAnd(Half(a), Half(b), i - 1); }
  }

  lemma {:induction false} ShrShr(w: Bitword, m: nat, n: nat)
    ensures Shr(Shr(w, m), n) == Shr(w, m + n)
    decreases m
  {
    if m > 0 { ShrShr(Half(w), m - 1, n); }
  }

  lemma {:induction false} BitShr(w: Bitword, n: nat, i: nat)
    ensures BitAt(Shr(w, n), i) == BitAt(w, n + i)
    decreases n
  {
    if n > 0 { BitShr(Half(w), n - 1, i); }
  }

  // Shifts by a power of two, each made of two shifts by half of it.

  function By2(w: Bitword): Bitword { Bitword(w.bits >> 2) }

  function By4(w: Bitword): Bitword { Bitword(w.bits >> 4) }

  function By8(w: Bitword): Bitword { Bitword(w.bits >> 8) }

  function By16(w: Bitword): Bitword { Bitword(w.bits >> 16) }

  function By32(w: Bitword): Bitword { Bitword(w.bits >> 32) }

  lemma By2Twice(w: Bitword) ensures Half(Half(w)) == By2(w) {}

  lemma By4Twice(w: Bitword) ensures By2(By2(w)) == By4(w) {}

  lemma By8Twice(w: Bitword) ensures By4(By4(w)) == By8(w) {}

  lemma By16Twice(w: Bitword) ensures By8(By8(w)) == By16(w) {}

  lemma By32Twice(w: Bitword) ensures By16(By16(w)) == By32(w) {}

  lemma ShrBy2(w: Bitword)
    ensures Shr(w, 2) == By2(w)
  {
    ShrShr(w, 1, 1); By2Twice(w);
  }

  lemma ShrBy4(w: Bitword)
    ensures Shr(w, 4) == By4(w)
  {
    ShrBy2(w); ShrBy2(By2(w)); ShrShr(w, 2, 2); By4Twice(w);
  }

  lemma ShrBy8(w: Bitword)
    ensures Shr(w, 8) == By8(w)
  {
    ShrBy4(w); ShrBy4(By4(w)); ShrShr(w, 4, 4); By8Twice(w);
  }

  lemma ShrBy16(w: Bitword)
    ensures Shr(w, 16) == By16(w)
  {
    ShrBy8(w); ShrBy8(By8(w)); ShrShr(w, 8, 8); By16Twice(w);
  }

  lemma ShrBy32(w: Bitword)
    ensures Shr(w, 32) == By32(w)
  {
    ShrBy16(w); ShrBy16(By16(w)); ShrShr(w, 16, 16); By32Twice(w);
  }

  lemma By64(w: Bitword) ensures By32(By32(w)) == ZERO {}

  /** Nothing is left of a word after 64 shifts. */
  lemma ShrAll(w: Bitword)
    ensures Shr(w, 64) == ZERO
  {
    ShrBy32(w); ShrBy32(By32(w)); ShrShr(w, 32, 32); By64(w);
  }

  lemma {:induction false} ShrZero(n: nat)
    ensures Shr(ZERO, n) == ZERO
    decreases n
  {
    if n > 0 { assert Half(ZERO) == ZERO; ShrZero(n - 1); }
  }

  lemma HalvesAgree(a: Bitword, b: Bitword)
    requires Half(a) == Half(b) && Odd(a) == Odd(b)
    ensures a == b
  {}

  /** Two words that are empty above position n and agree below it are equal. */
  lemma {:induction false} SameBelow(a: Bitword, b: Bitword, n: nat)
    requires Shr(a, n) == Shr(b, n)
    requires forall i :: 0 <= i < n ==> BitAt(a, i) == BitAt(b, i)
    ensures a == b
    decreases n
  {
    if n > 0 {
      assert BitAt(a, 0) == BitAt(b, 0);
      forall i | 0 <= i < n - 1 ensures BitAt(Half(a), i) == BitAt(Half(b), i) {
        assert BitAt(a, i + 1) == BitAt(b, i + 1);
      }
      SameBelow(Half(a), Half(b), n - 1);
      HalvesAgree(a, b);
    }
  }

  /** Words are determined by their 64 bits. */
  lemma WordsEqual(a: Bitword, b: Bitword)
    requires forall i :: 0 <= i < 64 ==> BitAt(a, i) == BitAt(b, i)
    ensures a == b
  {
    ShrAll(a);
    ShrAll(b);
    SameBelow(a, b, 64);
  }

  /** The low n bits of a word of the form 2^k - 1. */
  predicate LowOnes(w: Bitword) { w.bits & (w.bits + 1) == 0 }

  lemma LowOnesStep(w: Bitword)
    requires LowOnes(w)
    ensures LowOnes(Half(w))
    ensures Odd(w) == (w != ZERO)
  {}

  lemma {:induction false} LowOnesBit(w: Bitword, i: nat)
    requires LowOnes(w)
    ensures BitAt(w, i) == (Shr(w, i) != ZERO)
    decreases i
  {
    LowOnesStep(w);
    if i > 0 { LowOnesBit(Half(w), i - 1); }
  }

  const TOPLESS := Bitword(0x7FFF_FFFF_FFFF_FFFF)

  lemma ToplessIsLong()
    ensures LowOnes(TOPLESS) && By2(By4(By8(By16(By32(TOPLESS))))) != ZERO
  {}

  lemma ToplessShr()
    ensures Shr(TOPLESS, 62) != ZERO
  {
    var a := By32(TOPLESS); var b := By16(a); var c := By8(b); var d := By4(c);
    ShrBy32(TOPLESS);
    ShrBy16(a); ShrShr(TOPLESS, 32, 16);
    ShrBy8(b); ShrShr(TOPLESS, 48, 8);
    ShrBy4(c); ShrShr(TOPLESS, 56, 4);
    ShrBy2(d); ShrShr(TOPLESS, 60, 2);
    ToplessIsLong();
  }

  lemma ToplessBit(i: nat)
    requires i < 63
    ensures BitAt(TOPLESS, i)
  {
    ToplessIsLong();
    LowOnesBit(TOPLESS, i);
    if Shr(TOPLESS, i) == ZERO {
      ShrShr(TOPLESS, i, 62 - i);
      ShrZero(62 - i);
      ToplessShr();
      assert false;
    }
  }

  lemma DoubleStep(a: Bitword)
    ensures !Odd(Double(a))
    ensures Half(Double(a)) == And(a, TOPLESS)
  {}

  lemma BitDouble(a: Bitword, i: nat)
    requires i < 64
    ensures BitAt(Double(a), i) == (0 < i && BitAt(a, i - 1))
  {
    DoubleStep(a);
    if i > 0 {
      BitAnd(a, TOPLESS, i - 1);
      ToplessBit(i - 1);
    }
  }

  lemma {:induction false} BitShl(w: Bitword, n: nat, i: nat)
    requires i < 64
    ensures BitAt(Shl(w, n), i) == (n <= i && BitAt(w, i - n))
    decreases n
  {
    if n > 0 {
      BitDouble(Shl(w, n - 1), i);
      if i > 0 { BitShl(w, n - 1, i - 1); }
    }
  }

  lemma {:induction false} BitOne(i: nat)
    ensures BitAt(ONE, i) == (i == 0)
    ensures !BitAt(ZERO, i)
    decreases i
  {
    assert Half(ZERO) == ZERO && Half(ONE) == ZERO && Odd(ONE) && !Odd(ZERO);
    if i > 0 { BitOne(i - 1); }
  }

  lemma MaskStep(s: Bitword)
    ensures Minus1(Double(s)) == Or(Double(Minus1(s)), ONE)
  {}

  lemma {:induction false} BitMask(n: nat, i: nat)
    requires i < 64
    ensures BitAt(ConsecutiveMask(n), i) == (i < n)
    decreases n
  {
    BitOne(i);
    if n == 0 {
      assert ConsecutiveMask(0) == ZERO;
    } else {
      var s := Shl(ONE, n - 1);
      MaskStep(s);
      BitOr(Double(Minus1(s)), ONE, i);
      BitDouble(Minus1(s), i);
      if i > 0 { BitMask(n - 1, i - 1); }
    }
  }

  lemma NotStep(a: Bitword)
    ensures Or(a, Not(a)) == Not(ZERO)
    ensures And(a, Not(a)) == ZERO
    ensures Minus1(ZERO) == Not(ZERO)
  {}

  lemma BitNot(a: Bitword, i: nat)
    requires i < 64
    ensures BitAt(Not(a), i) == !BitAt(a, i)
  {
    NotStep(a);
    BitOr(a, Not(a), i);
    BitAnd(a, Not(a), i);
    BitOne(i);
    AllOnes(i);
  }

  /** 1 << 64 is lost, so the mask of 64 bits is the complement of zero. */
  lemma AllOnes(i: nat)
    requires i < 64
    ensures BitAt(Not(ZERO), i)
  {
    forall j | 0 <= j < 64 ensures BitAt(Shl(ONE, 64), j) == BitAt(ZERO, j) {
      BitShl(ONE, 64, j);
      BitOne(j);
    }
    WordsEqual(Shl(ONE, 64), ZERO);
    NotStep(ZERO);
    BitMask(64, i);
  }
}
