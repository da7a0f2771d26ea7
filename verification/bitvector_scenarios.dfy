/**
  The scenarios of the bit vector unit test, stated as lemmas about the model
  in `BitVector`. Each lemma follows one test case of test/unit/bitvector.cc.
 */
module BitVectorScenarios {
  import opened Wrappers
  import opened BitVector

  /** Construction: the empty vector, ten zeros, seventy-eight ones. */
  lemma ConstructionRendering()
    ensures ToString([], true) == ""
    ensures ToString(Filled(10, false), true) == "0000000000"
    ensures ToString(Filled(78, true), true) == seq(78, _ => '1')
  {
  }

  // ---------------------------------------------------------------------------
  // "basic operations"
  // ---------------------------------------------------------------------------

  function ThreeBits(): Bits {
    PushBack(PushBack(PushBack([], true), false), true)
  }

  lemma PushBackReadsBack()
    ensures ThreeBits()[0] && !ThreeBits()[1] && ThreeBits()[2]
    ensures |ThreeBits()| == 3 && Blocks(ThreeBits()) == 1
  {
  }

  lemma AppendBlocksGrow()
    ensures var y := AppendBlock(ThreeBits(), 0xf00f, 16);
            y[3] && y[18]
    ensures var z := AppendBlock(AppendBlock(ThreeBits(), 0xf00f, 16), 0xf0, 8);
            Blocks(z) == 1 && |z| == 3 + 16 + 8
    ensures var w := AppendBlock(AppendWord(AppendBlock(AppendBlock(ThreeBits(), 0xf00f, 16), 0xf0, 8), 0), 0xff, 8);
            Blocks(w) == 2 && |w| == 3 + 16 + 8 + BlockWidth + 8
  {
    var y := AppendBlock(ThreeBits(), 0xf00f, 16);
    assert y[3] == Bit(0xf00f, 0) && y[18] == Bit(0xf00f, 15);
  }

  // ---------------------------------------------------------------------------
  // "bitwise operations"
  // ---------------------------------------------------------------------------

  /** `bitvector a{6}; a.flip(3);` */
  function A(): Bits {
    Flip(Filled(6, false), 3)
  }

  /** `b{a}; b[5] = b[1] = 1;` */
  function B(): Bits {
    SetBit(SetBit(A(), 1, true), 5, true)
  }

  lemma SixBitsValues()
    ensures A() == [false, false, false, true, false, false]
    ensures B() == [false, true, false, true, false, true]
    ensures |A()| == 6 && Blocks(A()) == 1
  {
    assert A() == [false, false, false, true, false, false];
  }

  lemma ShiftsRender()
    ensures ToString(A(), true) == "001000"
    ensures ToString(ShiftLeft(A(), 1), true) == "010000"
    ensures ToString(ShiftLeft(A(), 2), true) == "100000"
    ensures ToString(ShiftLeft(A(), 3), true) == "000000"
  {
    SixBitsValues();
    assert ShiftLeft(A(), 1) == [false, false, false, false, true, false];
    assert ShiftLeft(A(), 2) == [false, false, false, false, false, true];
    assert ShiftLeft(A(), 3) == [false, false, false, false, false, false];
  }

  lemma ShiftsRightRender()
    ensures ToString(ShiftRight(A(), 1), true) == "000100"
    ensures ToString(ShiftRight(A(), 2), true) == "000010"
    ensures ToString(ShiftRight(A(), 3), true) == "000001"
    ensures ToString(ShiftRight(A(), 4), true) == "000000"
  {
    SixBitsValues();
    assert ShiftRight(A(), 1) == [false, false, true, false, false, false];
    assert ShiftRight(A(), 2) == [false, true, false, false, false, false];
    assert ShiftRight(A(), 3) == [true, false, false, false, false, false];
    assert ShiftRight(A(), 4) == [false, false, false, false, false, false];
  }

  lemma AlgebraRenders()
    ensures ToString(B(), true) == "101010"
    ensures ToString(Not(B()), true) == "010101"
    ensures ToString(Or(A(), Not(B())), true) == "011101"
    ensures ToString(And(ShiftLeft(Not(A()), 2), B()), true) == ToString(A(), true)
    ensures ToString(B(), false) == "010101"
  {
    SixBitsValues();
    assert Not(B()) == [true, false, true, false, true, false];
    assert Or(A(), Not(B())) == [true, false, true, true, true, false];
    assert And(ShiftLeft(Not(A()), 2), B()) == A();
  }

  lemma CountSixBits()
    ensures Count(B()) == 3
  {
    SixBitsValues();
    var b := B();
    assert Count(b[..1]) == 0 by { assert b[..1][..0] == []; }
    assert Count(b[..2]) == 1 by { assert b[..2][..1] == b[..1]; }
    assert Count(b[..3]) == 1 by { assert b[..3][..2] == b[..2]; }
    assert Count(b[..4]) == 2 by { assert b[..4][..3] == b[..3]; }
    assert Count(b[..5]) == 2 by { assert b[..5][..4] == b[..4]; }
  }

  // ---------------------------------------------------------------------------
  // "backward search"
  // ---------------------------------------------------------------------------

  function X(): Bits {
    AppendWord(AppendWord([], 0xffff), 0x30ab_ffff_7000_ffff)
  }

  /** Backward search across two words: the last set bit is 125, and the
      searches below 125, 124 and 63 find 124, 119 and 15. */
  lemma BackwardSearchTwoWords()
    ensures FindLast(X()) == Some(125)
    ensures FindPrev(X(), 125) == Some(124)
    ensures FindPrev(X(), 124) == Some(119)
    ensures FindPrev(X(), 63) == Some(15)
  {
    XHighBits();
    assert ZerosIn(X(), 126, 128) && ZerosIn(X(), 125, 125) && ZerosIn(X(), 120, 124);
    FindPrevZeros(X(), 128, 125);
    FindPrevZeros(X(), 125, 124);
    FindPrevZeros(X(), 124, 119);
    XLowGap();
    FindPrevIs(X(), 63, 15);
  }

  lemma XBit(j: nat)
    requires j < 128
    ensures |X()| == 128
    ensures X()[j] == if j < 64 then Bit(0xffff, j) else Bit(0x30ab_ffff_7000_ffff, j - 64)
  {
    var x := AppendWord([], 0xffff);
    if j < 64 {
      assert x[0 + j] == Bit(0xffff, j);
      assert X()[..64] == x;
      assert X()[j] == X()[..64][j];
    } else {
      assert X()[64 + (j - 64)] == Bit(0x30ab_ffff_7000_ffff, j - 64);
    }
  }

  /** The bits of the second word `X()` needs for the search. */
  lemma XHighBits()
    ensures |X()| == 128 && X()[125] && X()[124] && X()[119]
    ensures !X()[127] && !X()[126]
    ensures !X()[123] && !X()[122] && !X()[121] && !X()[120]
  {
    XBit(119); XBit(120); XBit(121); XBit(122); XBit(123);
    XBit(124); XBit(125); XBit(126); XBit(127);
  }

  /** The first word of `X()` is 0xffff: bit 15 is its highest set bit. */
  lemma XLowGap()
    ensures |X()| == 128 && X()[15]
    ensures forall j :: 15 < j < 63 ==> !X()[j]
  {
    XBit(15);
    forall j | 15 < j < 63
      ensures !X()[j]
    {
      XBit(j);
      LowWordBitClear(j);
    }
  }

  lemma LowWordBitClear(j: nat)
    requires 16 <= j < 64
    ensures !Bit(0xffff, j)
  {
  }

  lemma FindPrevZeros(x: Bits, i: nat, k: nat)
    requires k < i <= |x| && x[k] && ZerosIn(x, k + 1, i)
    ensures FindPrev(x, i) == Some(k)
  {
    ZerosInAll(x, k + 1, i);
    FindPrevIs(x, i, k);
  }

  lemma BackwardSearchOneWord()
    ensures FindLast(AppendWord([], 0xf0ff_ffff_ffff_ff0f)) == Some(63)
    ensures FindPrev(AppendWord([], 0xf0ff_ffff_ffff_ff0f), 59) == Some(55)
  {
    var y := AppendWord([], 0xf0ff_ffff_ffff_ff0f);
    assert |y| == 64 && y[63] && y[55];
    assert forall j :: 55 < j < 59 ==> !y[j];
    FindPrevIs(y, 64, 63);
    FindPrevIs(y, 59, 55);
  }

  // ---------------------------------------------------------------------------
  // "iteration"
  // ---------------------------------------------------------------------------

  function W(): Bits {
    AppendWord([], 0x30ab_ffff_7000_ffff)
  }

  lemma WBit(j: nat)
    requires j < 64
    ensures |W()| == 64 && W()[j] == Bit(0x30ab_ffff_7000_ffff, j)
  {
    assert W()[0 + j] == Bit(0x30ab_ffff_7000_ffff, j);
  }

  /** Reverse bit iteration is forward bit iteration reversed. */
  lemma BitIteration()
    ensures Reverse(ToString(W(), false)) == ToString(W(), true)
  {
    RenderingReversed(W());
  }

  /** The reverse ones iterator starts at 61, then visits 60 and 55. */
  lemma ReverseOnesIteration()
    ensures |BackwardOnes(W(), |W()|)| >= 3 && BackwardOnes(W(), |W()|)[..3] == [61, 60, 55]
  {
    WTopBits();
    assert ZerosIn(W(), 62, 64) && ZerosIn(W(), 61, 61) && ZerosIn(W(), 56, 60);
    HighestThreeOnes(W(), 61, 60, 55);
  }

  /** The nine highest bits of `W()`: 1100 0010 1, from the top. */
  lemma WTopBits()
    ensures |W()| == 64 && W()[61] && W()[60] && W()[55]
    ensures !W()[63] && !W()[62]
    ensures !W()[59] && !W()[58] && !W()[57] && !W()[56]
  {
    WBit(55); WBit(56); WBit(57); WBit(58); WBit(59);
    WBit(60); WBit(61); WBit(62); WBit(63);
  }

  /** The first three positions the reverse ones iterator visits are the
      three highest set bits. */
  lemma HighestThreeOnes(x: Bits, a: nat, b: nat, c: nat)
    requires c < b < a < |x| && x[a] && x[b] && x[c]
    requires ZerosIn(x, a + 1, |x|) && ZerosIn(x, b + 1, a) && ZerosIn(x, c + 1, b)
    ensures |BackwardOnes(x, |x|)| >= 3 && BackwardOnes(x, |x|)[..3] == [a, b, c]
  {
    ZerosInAll(x, a + 1, |x|);
    ZerosInAll(x, b + 1, a);
    ZerosInAll(x, c + 1, b);
    LastBelowIs(x, |x|, a);
    LastBelowIs(x, a, b);
    LastBelowIs(x, b, c);
    BackwardStep(x, |x|, a);
    BackwardStep(x, a, b);
    BackwardStep(x, b, c);
    var rest := BackwardOnes(x, c);
    assert BackwardOnes(x, |x|) == [a] + ([b] + ([c] + rest));
  }

  /** All bits in `[lo, hi)` are clear, checked one index at a time. */
  predicate ZerosIn(x: Bits, lo: nat, hi: nat)
    requires hi <= |x|
    decreases hi - lo
  {
    lo >= hi || (!x[lo] && ZerosIn(x, lo + 1, hi))
  }

  lemma {:induction false} ZerosInAll(x: Bits, lo: nat, hi: nat)
    requires hi <= |x| && ZerosIn(x, lo, hi)
    ensures forall j :: lo <= j < hi ==> !x[j]
    decreases hi - lo
  {
    if lo < hi {
      ZerosInAll(x, lo + 1, hi);
    }
  }

  lemma BackwardStep(v: Bits, i: nat, k: nat)
    requires i <= |v| && LastBelow(v, i) == Some(k)
    ensures BackwardOnes(v, i) == [k] + BackwardOnes(v, k)
  {
  }

  /** Clearing the first two positions the mutable reverse ones iterator
      visits makes the next `rbegin` start at 55. */
  lemma ClearThroughIterator()
    ensures FindLast(SetBit(SetBit(W(), 61, false), 60, false)) == Some(55)
  {
    var x := W();
    assert |x| == 64 && x[55];
    assert forall j :: 55 < j < 64 && j != 60 && j != 61 ==> !x[j];
    var z := SetBit(SetBit(x, 61, false), 60, false);
    FindPrevIs(z, 64, 55);
  }
}
