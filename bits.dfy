/** 32-bit words as the library handles them through `BitConverter`: set-bit
    counting, prefix (network) masks and words assembled from four bytes.
    Shift amounts are kept as bit-vectors and the raw operators behind small
    functions, so each bit-level fact is proved in a lemma of its own. */
module Bits {
  const TopBit: bv32 := 0x8000_0000

  /** Number of set bits, peeled off from the least significant end. */
  function Pop(x: bv32): nat
    decreases x
  {
    if x == 0 then 0 else Pop(x >> 1) + LowBit(x)
  }

  /** The word with its least significant set bit cleared. */
  function ClearLow(x: bv32): bv32 { x & (x - 1) }

  function LowBit(x: bv32): nat { if x & 1 == 1 then 1 else 0 }

  /** The word with `k` leading one bits followed by `32 - k` zero bits. */
  function PrefixMask(k: bv8): bv32
    requires k <= 32
  {
    !(0xFFFF_FFFF >> k)
  }

  ghost predicate IsPrefixMask(v: bv32)
  {
    exists k: bv8 :: k <= 32 && v == PrefixMask(k)
  }

  lemma PopStep(x: bv32)
    ensures Pop(x) == Pop(x >> 1) + LowBit(x)
  {
    if x == 0 { assert x >> 1 == 0; }
  }

  lemma ClearLowOdd(x: bv32)
    requires x & 1 == 1
    ensures ClearLow(x) & 1 == 0
    ensures ClearLow(x) >> 1 == x >> 1
  {}

  lemma ClearLowEven(x: bv32)
    requires x & 1 == 0 && x != 0
    ensures ClearLow(x) & 1 == 0
    ensures ClearLow(x) >> 1 == ClearLow(x >> 1)
  {}

  lemma HalfSmaller(x: bv32)
    requires x != 0
    ensures x >> 1 < x
  {}

  lemma EvenHalfNonZero(x: bv32)
    requires x & 1 == 0 && x != 0
    ensures x >> 1 != 0
  {}

  lemma ClearLowestOdd(x: bv32)
    requires x & 1 == 1
    ensures Pop(ClearLow(x)) + 1 == Pop(x)
  {
    PopStep(ClearLow(x));
    PopStep(x);
    ClearLowOdd(x);
  }

  lemma ClearLowestEven(x: bv32)
    requires x & 1 == 0 && x != 0
    requires Pop(ClearLow(x >> 1)) + 1 == Pop(x >> 1)
    ensures Pop(ClearLow(x)) + 1 == Pop(x)
  {
    PopStep(ClearLow(x));
    PopStep(x);
    ClearLowEven(x);
  }

  /** `x & (x - 1)` clears exactly one set bit of a non-zero word. */
  lemma {:induction false} ClearLowest(x: bv32)
    requires x != 0
    ensures Pop(ClearLow(x)) + 1 == Pop(x)
    decreases x
  {
    if x & 1 == 1 {
      ClearLowestOdd(x);
    } else {
      HalfSmaller(x);
      EvenHalfNonZero(x);
      ClearLowest(x >> 1);
      ClearLowestEven(x);
    }
  }

  lemma ShiftOutStep(x: bv32, n: bv8)
    requires 0 < n <= 32 && x >> n == 0
    ensures (x >> 1) >> (n - 1) == 0
  {}

  lemma {:induction false} PopBelow(x: bv32, n: bv8)
    requires n <= 32 && x >> n == 0
    ensures Pop(x) <= n as int
    decreases n
  {
    if x != 0 {
      ShiftOutStep(x, n);
      PopBelow(x >> 1, n - 1);
      PopStep(x);
    }
  }

  lemma PopAtMost32(x: bv32)
    ensures Pop(x) <= 32
  {
    PopBelow(x, 32);
  }

  lemma HalfOfSingle(b: bv32)
    requires b != 0 && b & (b - 1) == 0 && b != 1
    ensures b & 1 == 0 && b >> 1 != 0 && (b >> 1) & ((b >> 1) - 1) == 0 && b >> 1 < b
  {}

  /** A word with exactly one bit set has one set bit. */
  lemma {:induction false} PopSingle(b: bv32)
    requires b != 0 && b & (b - 1) == 0
    ensures Pop(b) == 1
    decreases b
  {
    PopStep(b);
    if b != 1 {
      HalfOfSingle(b);
      PopSingle(b >> 1);
    } else {
      assert b >> 1 == 0;
    }
  }

  function Or(x: bv32, y: bv32): bv32 { x | y }
  function Half(x: bv32): bv32 { x >> 1 }

  predicate Disjoint(x: bv32, y: bv32) { x & y == 0 }

  lemma HalfLess(x: bv32)
    requires x != 0
    ensures Half(x) < x
  {}

  lemma UnionStep(x: bv32, y: bv32)
    requires Disjoint(x, y)
    ensures Disjoint(Half(x), Half(y))
    ensures Half(Or(x, y)) == Or(Half(x), Half(y))
  {
    UnionStepRaw(x, y);
  }

  lemma UnionStepRaw(x: bv32, y: bv32)
    requires x & y == 0
    ensures (x >> 1) & (y >> 1) == 0
    ensures (x | y) >> 1 == (x >> 1) | (y >> 1)
  {}

  lemma UnionLowBit(x: bv32, y: bv32)
    requires Disjoint(x, y)
    ensures LowBit(Or(x, y)) == LowBit(x) + LowBit(y)
  {
    UnionLowBitRaw(x, y);
  }

  lemma UnionLowBitRaw(x: bv32, y: bv32)
    requires x & y == 0
    ensures (x | y) & 1 == 1 <==> (x & 1 == 1 || y & 1 == 1)
    ensures !(x & 1 == 1 && y & 1 == 1)
  {}

  lemma UnionZero(x: bv32, y: bv32)
    ensures Or(x, y) == 0 <==> x == 0 && y == 0
  {}

  lemma PopHalf(x: bv32)
    ensures Pop(x) == Pop(Half(x)) + LowBit(x)
  {
    PopStep(x);
  }

  /** Counting set bits is additive over disjoint words. */
  lemma {:induction false} PopUnion(x: bv32, y: bv32)
    requires Disjoint(x, y)
    ensures Pop(Or(x, y)) == Pop(x) + Pop(y)
    decreases Or(x, y)
  {
    UnionZero(x, y);
    if Or(x, y) != 0 {
      UnionStep(x, y);
      HalfLess(Or(x, y));
      PopUnion(Half(x), Half(y));
      PopUnionStep(x, y, Or(x, y));
    }
  }

  /** One step of `PopUnion`: the lowest bits add up, and so do the rest. */
  lemma PopUnionStep(x: bv32, y: bv32, z: bv32)
    requires Disjoint(x, y) && z == Or(x, y)
    requires Pop(Half(z)) == Pop(Half(x)) + Pop(Half(y))
    ensures Pop(z) == Pop(x) + Pop(y)
  {
    UnionLowBit(x, y);
    PopHalf(x);
    PopHalf(y);
    PopHalf(z);
  }

  lemma PrefixMaskStep(k: bv8)
    requires 0 < k <= 32
    ensures PrefixMask(k) == PrefixMask(k - 1) | (TopBit >> (k - 1))
    ensures PrefixMask(k - 1) & (TopBit >> (k - 1)) == 0
    ensures TopBit >> (k - 1) != 0
    ensures (TopBit >> (k - 1)) & ((TopBit >> (k - 1)) - 1) == 0
  {}

  /** A prefix mask of length `k` has exactly `k` set bits. */
  lemma {:induction false} PopPrefixMask(k: bv8)
    requires k <= 32
    ensures Pop(PrefixMask(k)) == k as int
    decreases k
  {
    if k == 0 {
      assert PrefixMask(0) == 0;
    } else {
      PrefixMaskStep(k);
      PopPrefixMask(k - 1);
      PopSingle(TopBit >> (k - 1));
      PopUnion(PrefixMask(k - 1), TopBit >> (k - 1));
      assert Or(PrefixMask(k - 1), TopBit >> (k - 1)) == PrefixMask(k);
    }
  }

  function Shl(y: bv32, s: bv8): bv32 requires s <= 32 { y << s }
  function Double(z: bv32): bv32 { z << 1 }
  /** No set bit of `y` is lost by shifting it `s` places up. */
  predicate FitsShift(y: bv32, s: bv8) requires s <= 32 { y >> (32 - s) == 0 }

  lemma ShiftUpStep(y: bv32, s: bv8)
    requires 0 < s <= 32 && FitsShift(y, s)
    ensures FitsShift(y, s - 1)
    ensures Shl(y, s - 1) & TopBit == 0
    ensures Shl(y, s) == Double(Shl(y, s - 1))
  {}

  lemma PopDouble(z: bv32)
    requires z & TopBit == 0
    ensures Pop(Double(z)) == Pop(z)
  {
    PopHalf(Double(z));
    DoubleFacts(z);
  }

  lemma DoubleFacts(z: bv32)
    requires z & TopBit == 0
    ensures LowBit(Double(z)) == 0 && Half(Double(z)) == z
  {
    DoubleFactsRaw(z);
  }

  lemma DoubleFactsRaw(z: bv32)
    requires z & TopBit == 0
    ensures (z << 1) & 1 == 0 && (z << 1) >> 1 == z
  {}

  /** Shifting left loses no set bit when the shifted-out bits are zero. */
  lemma {:induction false} PopShiftLeft(y: bv32, s: bv8)
    requires s <= 32 && FitsShift(y, s)
    ensures Pop(Shl(y, s)) == Pop(y)
    decreases s
  {
    if s == 0 {
      assert Shl(y, 0) == y;
    } else {
      ShiftUpStep(y, s);
      PopShiftLeft(y, s - 1);
      PopDouble(Shl(y, s - 1));
    }
  }

  //----------------------------------------------------------------------
  // Words made of bytes
  //----------------------------------------------------------------------

  /** Four bytes as one word, the first most significant. */
  function Word(b0: bv8, b1: bv8, b2: bv8, b3: bv8): bv32 {
    (b0 as bv32 << 24) | (b1 as bv32 << 16) | (b2 as bv32 << 8) | b3 as bv32
  }

  function Widen(b: bv8): bv32 { b as bv32 }

  lemma WordShape(b0: bv8, b1: bv8, b2: bv8, b3: bv8)
    ensures Word(b0, b1, b2, b3)
      == Or(Or(Or(Shl(Widen(b0), 24), Shl(Widen(b1), 16)), Shl(Widen(b2), 8)), Widen(b3))
  {}

  lemma WordDisjoint01(b0: bv8, b1: bv8)
    ensures Disjoint(Shl(Widen(b0), 24), Shl(Widen(b1), 16))
  {}

  lemma WordDisjoint2(b0: bv8, b1: bv8, b2: bv8)
    ensures Disjoint(Or(Shl(Widen(b0), 24), Shl(Widen(b1), 16)), Shl(Widen(b2), 8))
  {}

  lemma WordDisjoint3(b0: bv8, b1: bv8, b2: bv8, b3: bv8)
    ensures Disjoint(Or(Or(Shl(Widen(b0), 24), Shl(Widen(b1), 16)), Shl(Widen(b2), 8)), Widen(b3))
  {}

  lemma ByteFits(b: bv8, s: bv8)
    requires s <= 24
    ensures FitsShift(Widen(b), s)
  {}

  lemma PopShiftedByte(b: bv8, s: bv8)
    requires s <= 24
    ensures Pop(Shl(Widen(b), s)) == Pop(Widen(b))
  {
    ByteFits(b, s);
    PopShiftLeft(Widen(b), s);
  }

  /** The set bits of a word are those of its four bytes. */
  lemma PopWord(b0: bv8, b1: bv8, b2: bv8, b3: bv8)
    ensures Pop(Word(b0, b1, b2, b3)) == Pop(Widen(b0)) + Pop(Widen(b1)) + Pop(Widen(b2)) + Pop(Widen(b3))
  {
    WordShape(b0, b1, b2, b3);
    PopShiftedByte(b0, 24);
    PopShiftedByte(b1, 16);
    PopShiftedByte(b2, 8);
    WordDisjoint01(b0, b1);
    PopUnion(Shl(Widen(b0), 24), Shl(Widen(b1), 16));
    WordDisjoint2(b0, b1, b2);
    PopUnion(Or(Shl(Widen(b0), 24), Shl(Widen(b1), 16)), Shl(Widen(b2), 8));
    WordDisjoint3(b0, b1, b2, b3);
    PopUnion(Or(Or(Shl(Widen(b0), 24), Shl(Widen(b1), 16)), Shl(Widen(b2), 8)), Widen(b3));
  }

  /** Counting the set bits does not depend on the byte order. */
  lemma PopByteOrder(b0: bv8, b1: bv8, b2: bv8, b3: bv8)
    ensures Pop(Word(b0, b1, b2, b3)) == Pop(Word(b3, b2, b1, b0))
  {
    PopWord(b0, b1, b2, b3);
    PopWord(b3, b2, b1, b0);
  }

  //----------------------------------------------------------------------
  // Contiguous masks
  //----------------------------------------------------------------------

  /** The `s` most significant bits of `x` are all set. */
  predicate LeadingOnes(x: bv32, s: bv8)
    requires s <= 32
  {
    x & PrefixMask(s) == PrefixMask(s)
  }

  lemma LeadingOnesZero(x: bv32)
    ensures LeadingOnes(x, 0)
  {}

  lemma ShiftAllOut(x: bv32)
    ensures Shl(x, 32) == 0
  {}

  /** One more set top bit after shifting `s` places extends the run of ones. */
  lemma LeadingOnesStep(x: bv32, s: bv8)
    requires s < 32 && LeadingOnes(x, s) && Shl(x, s) & TopBit == TopBit
    ensures LeadingOnes(x, s + 1)
    ensures Shl(x, s + 1) == Double(Shl(x, s))
  {}

  /** A word whose leading ones are followed by zeros only is a prefix mask. */
  lemma RestZeroIsMask(x: bv32, s: bv8)
    requires s <= 32 && LeadingOnes(x, s) && Shl(x, s) == 0
    ensures x == PrefixMask(s)
  {}

  lemma MaskShiftedShort(k: bv8, s: bv8)
    requires s < k <= 32
    ensures Shl(PrefixMask(k), s) & TopBit == TopBit
  {}

  lemma MaskShiftedOut(k: bv8)
    requires k <= 32
    ensures Shl(PrefixMask(k), k) == 0
  {}

  lemma MaskRunEnds(k: bv8, s: bv8)
    requires k < s <= 32
    ensures !LeadingOnes(PrefixMask(k), s)
  {}

  /** A contiguous mask, said without a quantifier: the prefix mask with as
      many ones as the word has. */
  predicate IsContiguousMask(w: bv32) {
    Pop(w) <= 32 && w == PrefixMask(Pop(w) as bv8)
  }

  lemma SmallRoundTrip(k: bv8)
    ensures (k as int) as bv8 == k
  {}

  /** Both descriptions of a contiguous mask agree. */
  lemma ContiguousIsPrefixMask(w: bv32)
    ensures IsContiguousMask(w) <==> IsPrefixMask(w)
  {
    if IsPrefixMask(w) {
      var k: bv8 :| k <= 32 && w == PrefixMask(k);
      PopPrefixMask(k);
      SmallRoundTrip(k);
    }
  }

  /** A prefix mask loses its ones exactly when the loop stops. */
  lemma PrefixMaskLoopExit(k: bv8, s: bv8)
    requires k <= 32 && s <= 32 && LeadingOnes(PrefixMask(k), s)
    requires Shl(PrefixMask(k), s) & TopBit != TopBit
    ensures Shl(PrefixMask(k), s) == 0
  {
    if s < k {
      MaskShiftedShort(k, s);
    } else if s > k {
      MaskRunEnds(k, s);
    } else {
      MaskShiftedOut(k);
    }
  }

  /** Where the shifting loop stops: after the leading ones of `x0`, the
      rest is zero exactly when `x0` is a prefix mask. */
  lemma MaskLoopExit(x0: bv32, s: bv8)
    requires s <= 32 && LeadingOnes(x0, s) && Shl(x0, s) & TopBit != TopBit
    ensures Shl(x0, s) == 0 <==> IsPrefixMask(x0)
  {
    if Shl(x0, s) == 0 {
      RestZeroIsMask(x0, s);
    }
    if IsPrefixMask(x0) {
      var k: bv8 :| k <= 32 && x0 == PrefixMask(k);
      PrefixMaskLoopExit(k, s);
    }
  }

  /** The loop cannot shift more than 32 times. */
  lemma MaskLoopBound(x0: bv32, s: bv8)
    requires s <= 32 && Shl(x0, s) & TopBit == TopBit
    ensures s < 32
  {
    if s == 32 {
      ShiftAllOut(x0);
    }
  }
}
