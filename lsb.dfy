/** The lowest-set-bit primitives of src/tbdefines.h: the four variants of
    lsb (GCC builtin, 64-bit MSVC, 32-bit MSVC and the portable magic-table
    fallback, lines 136-174) and poplsb (line 369), each proved against the
    index of the lowest 1-bit defined in Bits. */
module Lsb {
  import opened Bits

  /** The low 32 bits of b: what (unsigned long)(b & 0xffffffffULL) keeps,
      and the bit pattern (int32_t)(b) keeps on a two's-complement
      compiler that truncates, which is what the model assumes. */
  function LowHalf(b: bv64): bv32
  {
    (b & 0xffff_ffff) as bv32
  }

  /** The high 32 bits of b, (unsigned long)(b >> 32). */
  function HighHalf(b: bv64): bv32
  {
    (b >> 32) as bv32
  }

  // ---------------------------------------------------------------------
  // Compiler intrinsics, given by their documented results

  /** __builtin_ffsll: one plus the index of the lowest 1-bit, 0 for 0. */
  function Ffs64(b: bv64): nat
  {
    if b == 0 then 0 else LowestSetBit64(b) + 1
  }

  /** _BitScanForward64 on a nonzero word: the index of the lowest 1-bit. */
  function BitScanForward64(b: bv64): nat
    requires b != 0
  {
    LowestSetBit64(b)
  }

  /** _BitScanForward on a nonzero 32-bit word. */
  function BitScanForward32(v: bv32): nat
    requires v != 0
  {
    LowestSetBit32(v)
  }

  // ---------------------------------------------------------------------
  // The four variants of lsb

  /** lsb under GCC and Clang (lines 139-142). */
  function LsbGnu(b: bv64): nat
    requires b != 0
  {
    Ffs64(b) - 1
  }

  /** lsb under 64-bit MSVC (lines 146-150). */
  function LsbMsvc64(b: bv64): nat
    requires b != 0
  {
    BitScanForward64(b)
  }

  /** lsb under 32-bit MSVC (lines 151-157): scan the low half when it has
      a 1-bit, and otherwise the high half, adding 32. */
  function LsbMsvc32(b: bv64): nat
    requires b != 0
  {
    if b & 0xffff_ffff != 0 then
      LowHalfNonzero(b);
      BitScanForward32(LowHalf(b))
    else
      HalvesZero(b);
      32 + BitScanForward32(HighHalf(b))
  }

  /** get_bit32 (lines 162-164): the low 32 bits of x viewed as a signed
      integer, and-ed with their negation, isolate the lowest 1-bit. The
      model takes the conversion to int32_t as truncation and the negation
      as wrapping, so -INT32_MIN is INT32_MIN; C leaves the first
      implementation-defined and the second undefined. */
  function GetBit32(x: bv64): bv32
  {
    LowHalf(x) & (0 - LowHalf(x))
  }

  /** MAGIC32 (line 165). */
  const MAGIC32: bv32 := 0xe89b2be

  /** MagicTable32 (lines 166-168). */
  const MagicTable32: seq<nat> :=
    [31, 0, 9, 1, 10, 20, 13, 2, 7, 11, 21, 23, 17, 14, 3, 25,
     30, 8, 19, 12, 6, 22, 16, 24, 29, 18, 5, 15, 28, 4, 27, 26]

  /** The table index (g * MAGIC32) >> 27, the product wrapping at 32 bits
      as unsigned arithmetic does in C. */
  function MagicIndex(g: bv32): (r: nat)
    ensures r < 32
  {
    MagicSlot(g) as nat
  }

  /** The top five bits of the wrapped product, (g * MAGIC32) >> 27. */
  function MagicSlot(g: bv32): bv5
  {
    ((g * MAGIC32) >> 27) as bv5
  }

  /** lsb of the portable fallback (lines 169-174). It has no assertion,
      so it is defined for 0 as well. */
  function LsbMagic(b: bv64): nat
  {
    if b & 0xffff_ffff != 0 then
      MagicTable32[MagicIndex(GetBit32(b & 0xffff_ffff))]
    else
      MagicTable32[MagicIndex(GetBit32(b >> 32))] + 32
  }

  /** poplsb (line 369): x with its lowest 1-bit cleared. */
  function PopLsb(x: bv64): bv64
  {
    x & (x - 1)
  }

  // ---------------------------------------------------------------------
  // Correctness of each variant

  /** __builtin_ffsll(b) - 1 is the index of the lowest 1-bit. */
  lemma LsbGnuCorrect(b: bv64)
    requires b != 0
    ensures IsLowestSetBit64(b, LsbGnu(b))
  {
  }

  /** The 32-bit MSVC split finds the lowest 1-bit of the whole word. */
  lemma LsbMsvc32Correct(b: bv64)
    requires b != 0
    ensures IsLowestSetBit64(b, LsbMsvc32(b))
    ensures b & 0xffff_ffff != 0 ==> LsbMsvc32(b) < 32
    ensures b & 0xffff_ffff == 0 ==> LsbMsvc32(b) >= 32
  {
    if b & 0xffff_ffff != 0 {
      LowHalfNonzero(b);
      LowestInLowHalf(b, LowestSetBit32(LowHalf(b)));
    } else {
      HalvesZero(b);
      LowestInHighHalf(b, LowestSetBit32(HighHalf(b)));
    }
  }

  /** The magic-table fallback finds the lowest 1-bit of a nonzero word:
      below 32 when the low half has a 1-bit, else 32 plus the index found
      in the high half. */
  lemma LsbMagicCorrect(b: bv64)
    requires b != 0
    ensures IsLowestSetBit64(b, LsbMagic(b))
    ensures b & 0xffff_ffff != 0 ==> LsbMagic(b) < 32
    ensures b & 0xffff_ffff == 0 ==> LsbMagic(b) == 32 + LowestSetBit32(HighHalf(b))
  {
    if b & 0xffff_ffff != 0 {
      LowHalfNonzero(b);
      var i := LowestSetBit32(LowHalf(b));
      LowOfLow(b);
      GetBit32Lowest(b & 0xffff_ffff);
      MagicTableInverse(i);
      LowestInLowHalf(b, i);
    } else {
      HalvesZero(b);
      var i := LowestSetBit32(HighHalf(b));
      LowOfShift(b);
      GetBit32Lowest(b >> 32);
      MagicTableInverse(i);
      LowestInHighHalf(b, i);
    }
  }

  /** With no 1-bit to find, the fallback answers 63. */
  lemma LsbMagicOfZero()
    ensures LsbMagic(0) == 63
  {
    assert GetBit32(0) == 0;
  }

  /** Whichever compiler builds the code, lsb of a nonzero word is the same. */
  lemma LsbVariantsAgree(b: bv64)
    requires b != 0
    ensures LsbGnu(b) == LowestSetBit64(b) && LsbMsvc64(b) == LowestSetBit64(b)
    ensures LsbMsvc32(b) == LowestSetBit64(b) && LsbMagic(b) == LowestSetBit64(b)
  {
    LsbMsvc32Correct(b);
    LsbMagicCorrect(b);
    LowestSetBitUnique64(b, LsbMsvc32(b), LowestSetBit64(b));
    LowestSetBitUnique64(b, LsbMagic(b), LowestSetBit64(b));
  }

  /** A word with the single 1-bit 1 << i has lowest set bit i, so every
      variant of lsb maps it back to i. */
  lemma LsbOfSingleBit(i: nat)
    requires i < 64
    ensures Pow2of64(i) != 0 && LowestSetBit64(Pow2of64(i)) == i
  {
    SingleBitAt64(i);
    Pow2of64ClearBelow(i);
    Pow2of64Overlaps(i);
    assert IsLowestSetBit64(Pow2of64(i), i);
    LowestSetBitUnique64(Pow2of64(i), i, LowestSetBit64(Pow2of64(i)));
  }

  // ---------------------------------------------------------------------
  // The magic table

  /** get_bit32 keeps exactly the lowest 1-bit of the low half of x, and
      gives 0 when that half is 0. */
  lemma GetBit32Lowest(x: bv64)
    ensures LowHalf(x) == 0 ==> GetBit32(x) == 0
    ensures LowHalf(x) != 0 ==> GetBit32(x) == Pow2of32(LowestSetBit32(LowHalf(x)))
  {
    if LowHalf(x) != 0 {
      IsolateLowestAt32(LowHalf(x), LowestSetBit32(LowHalf(x)));
      assert Isolates32(LowHalf(x), Pow2of32(LowestSetBit32(LowHalf(x))));
    }
  }

  /** v & -v is the single bit at the index of the lowest 1-bit of v. */
  lemma IsolateLowestAt32(v: bv32, i: nat)
    requires IsLowestSetBit32(v, i)
    ensures Isolates32(v, Pow2of32(i))
  {
    BitsBelowClear32(v, i);
    LowMask32IsPow2Less1(i);
    Pow2of32IsSingleBit(i);
    assert AtMostOneBit32(Pow2of32(i)) && MaskBelow32(LowMask32(i), Pow2of32(i));
    IsolateLowest32(v, Pow2of32(i), LowMask32(i));
  }

  /** The bit-scan identity behind the table: multiplying 1 << i by MAGIC32
      puts a distinct 5-bit pattern in the top bits, and the table maps it
      back to i. */
  lemma MagicTableInverse(i: nat)
    requires i < 32
    ensures MagicTable32[MagicIndex(Pow2of32(i))] == i
  {
    if i < 4 {
      MagicTableInverse0(i);
    } else if i < 8 {
      MagicTableInverse1(i);
    } else if i < 12 {
      MagicTableInverse2(i);
    } else if i < 16 {
      MagicTableInverse3(i);
    } else if i < 20 {
      MagicTableInverse4(i);
    } else if i < 24 {
      MagicTableInverse5(i);
    } else if i < 28 {
      MagicTableInverse6(i);
    } else {
      MagicTableInverse7(i);
    }
  }

  // The 32 entries of the table, checked four at a time so that each
  // proof stays small enough for the solver.

  lemma MagicTableInverse0(i: nat)
    requires 0 <= i < 4
    ensures MagicTable32[MagicIndex(Pow2of32(i))] == i
  {
    Pow2of32Values0();
    if i == 0 {
      assert MagicSlot(0x1) == 1;
    } else if i == 1 {
      assert MagicSlot(0x2) == 3;
    } else if i == 2 {
      assert MagicSlot(0x4) == 7;
    } else {
      assert MagicSlot(0x8) == 14;
    }
  }

  lemma MagicTableInverse1(i: nat)
    requires 4 <= i < 8
    ensures MagicTable32[MagicIndex(Pow2of32(i))] == i
  {
    Pow2of32Values0();
    if i == 4 {
      assert MagicSlot(0x10) == 29;
    } else if i == 5 {
      assert MagicSlot(0x20) == 26;
    } else if i == 6 {
      assert MagicSlot(0x40) == 20;
    } else {
      assert MagicSlot(0x80) == 8;
    }
  }

  lemma MagicTableInverse2(i: nat)
    requires 8 <= i < 12
    ensures MagicTable32[MagicIndex(Pow2of32(i))] == i
  {
    Pow2of32Values1();
    if i == 8 {
      assert MagicSlot(0x100) == 17;
    } else if i == 9 {
      assert MagicSlot(0x200) == 2;
    } else if i == 10 {
      assert MagicSlot(0x400) == 4;
    } else {
      assert MagicSlot(0x800) == 9;
    }
  }

  lemma MagicTableInverse3(i: nat)
    requires 12 <= i < 16
    ensures MagicTable32[MagicIndex(Pow2of32(i))] == i
  {
    Pow2of32Values1();
    if i == 12 {
      assert MagicSlot(0x1000) == 19;
    } else if i == 13 {
      assert MagicSlot(0x2000) == 6;
    } else if i == 14 {
      assert MagicSlot(0x4000) == 13;
    } else {
      assert MagicSlot(0x8000) == 27;
    }
  }

  lemma MagicTableInverse4(i: nat)
    requires 16 <= i < 20
    ensures MagicTable32[MagicIndex(Pow2of32(i))] == i
  {
    Pow2of32Values2();
    if i == 16 {
      assert MagicSlot(0x10000) == 22;
    } else if i == 17 {
      assert MagicSlot(0x20000) == 12;
    } else if i == 18 {
      assert MagicSlot(0x40000) == 25;
    } else {
      assert MagicSlot(0x80000) == 18;
    }
  }

  lemma MagicTableInverse5(i: nat)
    requires 20 <= i < 24
    ensures MagicTable32[MagicIndex(Pow2of32(i))] == i
  {
    Pow2of32Values2();
    if i == 20 {
      assert MagicSlot(0x100000) == 5;
    } else if i == 21 {
      assert MagicSlot(0x200000) == 10;
    } else if i == 22 {
      assert MagicSlot(0x400000) == 21;
    } else {
      assert MagicSlot(0x800000) == 11;
    }
  }

  lemma MagicTableInverse6(i: nat)
    requires 24 <= i < 28
    ensures MagicTable32[MagicIndex(Pow2of32(i))] == i
  {
    Pow2of32Values3();
    if i == 24 {
      assert MagicSlot(0x1000000) == 23;
    } else if i == 25 {
      assert MagicSlot(0x2000000) == 15;
    } else if i == 26 {
      assert MagicSlot(0x4000000) == 31;
    } else {
      assert MagicSlot(0x8000000) == 30;
    }
  }

  lemma MagicTableInverse7(i: nat)
    requires 28 <= i < 32
    ensures MagicTable32[MagicIndex(Pow2of32(i))] == i
  {
    Pow2of32Values3();
    if i == 28 {
      assert MagicSlot(0x10000000) == 28;
    } else if i == 29 {
      assert MagicSlot(0x20000000) == 24;
    } else if i == 30 {
      assert MagicSlot(0x40000000) == 16;
    } else {
      assert MagicSlot(0x80000000) == 0;
    }
  }

  /** Distinct single-bit masks share no bit. */
  lemma Pow2of64Distinct(i: nat, j: nat)
    requires i < 64 && j < 64 && i != j
    ensures Disjoint64(Pow2of64(i), Pow2of64(j))
  {
    if j < i {
      Pow2of64ClearBelow(i);
      assert !Bit64(Pow2of64(i), j);
      DisjointSymmetric64(Pow2of64(i), Pow2of64(j));
    } else {
      Pow2of64ClearBelow(j);
      assert !Bit64(Pow2of64(j), i);
    }
  }

  /** 1 << i has no bit below i. */
  lemma Pow2of64ClearBelow(i: nat)
    requires i < 64
    ensures forall j :: 0 <= j < i ==> !Bit64(Pow2of64(i), j)
  {
    BitsBelowClear64(Pow2of64(i), i);
    LowMask64IsPow2Less1(i);
    Pow2of64IsSingleBit(i);
    assert AtMostOneBit64(Pow2of64(i)) && MaskBelow64(LowMask64(i), Pow2of64(i));
    SingleBitClearBelow64(Pow2of64(i), LowMask64(i));
  }

  /** A nonzero single-bit mask shares its bit with itself. */
  lemma Pow2of64Overlaps(i: nat)
    requires i < 64
    ensures !Disjoint64(Pow2of64(i), Pow2of64(i))
  {
    Pow2of64IsSingleBit(i);
  }

  // ---------------------------------------------------------------------
  // poplsb

  /** poplsb subtracts the lowest 1-bit: x - 2^lsb(x), which is x with
      that bit flipped off. */
  lemma PopLsbClearsLowest(x: bv64)
    requires x != 0
    ensures PopLsb(x) == x - Pow2of64(LowestSetBit64(x))
    ensures PopLsb(x) == x ^ Pow2of64(LowestSetBit64(x))
  {
    PopLsbRemovesAt(x, LowestSetBit64(x));
    assert PopLsbRemoves(x, Pow2of64(LowestSetBit64(x)));
  }

  lemma PopLsbRemovesAt(x: bv64, i: nat)
    requires IsLowestSetBit64(x, i)
    ensures PopLsbRemoves(x, Pow2of64(i))
  {
    BitsBelowClear64(x, i);
    LowMask64IsPow2Less1(i);
    Pow2of64IsSingleBit(i);
    assert AtMostOneBit64(Pow2of64(i)) && MaskBelow64(LowMask64(i), Pow2of64(i));
    ClearLowest(x, Pow2of64(i), LowMask64(i));
  }

  /** poplsb clears exactly the lowest 1-bit and keeps every other bit. */
  lemma PopLsbBits(x: bv64, j: nat)
    requires x != 0 && j < 64
    ensures Bit64(PopLsb(x), j) <==> Bit64(x, j) && j != LowestSetBit64(x)
  {
    PopLsbBitsAt(x, LowestSetBit64(x), j);
  }

  lemma PopLsbBitsAt(x: bv64, i: nat, j: nat)
    requires IsLowestSetBit64(x, i) && j < 64
    ensures Bit64(PopLsb(x), j) <==> Bit64(x, j) && j != i
  {
    if j == i {
      PopLsbDropsAt(x, i);
    } else {
      PopLsbKeepsAt(x, i, j);
    }
  }

  /** The lowest 1-bit is gone from poplsb(x). */
  lemma PopLsbDropsAt(x: bv64, i: nat)
    requires IsLowestSetBit64(x, i)
    ensures !Bit64(PopLsb(x), i)
  {
    PopLsbRemovesAt(x, i);
    SingleBitAt64(i);
    RemovedBit(x, Pow2of64(i), Pow2of64(i));
    Pow2of64Overlaps(i);
  }

  /** Every other bit of x stays in poplsb(x). */
  lemma PopLsbKeepsAt(x: bv64, i: nat, j: nat)
    requires IsLowestSetBit64(x, i) && j < 64 && j != i
    ensures Bit64(PopLsb(x), j) <==> Bit64(x, j)
  {
    PopLsbRemovesAt(x, i);
    SingleBitAt64(j);
    RemovedBit(x, Pow2of64(i), Pow2of64(j));
    Pow2of64Distinct(i, j);
  }

  lemma SingleBitAt64(j: nat)
    requires j < 64
    ensures Pow2of64(j) != 0 && AtMostOneBit64(Pow2of64(j))
  {
    Pow2of64IsSingleBit(j);
  }

  /** poplsb lowers the number of 1-bits by exactly one. */
  lemma PopLsbPopCount(x: bv64)
    requires x != 0
    ensures PopCount(PopLsb(x)) + 1 == PopCount(x)
  {
    PopLsbCountBelow(x, 64);
  }

  lemma {:induction false} PopLsbCountBelow(x: bv64, n: nat)
    requires x != 0 && n <= 64
    ensures CountOnes(PopLsb(x), n) + (if LowestSetBit64(x) < n then 1 else 0) == CountOnes(x, n)
  {
    if n > 0 {
      PopLsbCountBelow(x, n - 1);
      PopLsbBits(x, n - 1);
    }
  }

  // ---------------------------------------------------------------------
  // The halves of a word

  lemma LowHalfNonzero(b: bv64)
    requires b & 0xffff_ffff != 0
    ensures LowHalf(b) != 0
  {
  }

  /** A nonzero word whose low half is 0 has a nonzero high half. */
  lemma HalvesZero(b: bv64)
    requires b != 0 && b & 0xffff_ffff == 0
    ensures LowHalf(b) == 0 && HighHalf(b) != 0
  {
  }

  lemma LowOfLow(b: bv64)
    ensures LowHalf(b & 0xffff_ffff) == LowHalf(b)
  {
  }

  lemma LowOfShift(b: bv64)
    ensures LowHalf(b >> 32) == HighHalf(b)
  {
  }

  /** Bit j of the low half is bit j of the word. */
  lemma BitOfLowHalf(b: bv64, j: nat)
    requires j < 32
    ensures Bit64(b, j) <==> Bit32(LowHalf(b), j)
  {
    Pow2of64Low(j);
    DisjointLow(b, Pow2of32(j));
  }

  /** Bit j of the high half is bit j + 32 of the word. */
  lemma BitOfHighHalf(b: bv64, j: nat)
    requires j < 32
    ensures Bit64(b, j + 32) <==> Bit32(HighHalf(b), j)
  {
    Pow2of64High(j);
    DisjointHigh(b, Pow2of32(j));
  }

  lemma LowestInLowHalf(b: bv64, i: nat)
    requires IsLowestSetBit32(LowHalf(b), i)
    ensures IsLowestSetBit64(b, i)
  {
    BitOfLowHalf(b, i);
    forall j | 0 <= j < i
      ensures !Bit64(b, j)
    {
      BitOfLowHalf(b, j);
    }
  }

  lemma LowestInHighHalf(b: bv64, i: nat)
    requires LowHalf(b) == 0 && IsLowestSetBit32(HighHalf(b), i)
    ensures IsLowestSetBit64(b, i + 32)
  {
    BitOfHighHalf(b, i);
    forall j | 0 <= j < i + 32
      ensures !Bit64(b, j)
    {
      if j < 32 {
        BitOfLowHalf(b, j);
        assert !Bit32(LowHalf(b), j);
      } else {
        BitOfHighHalf(b, j - 32);
      }
    }
  }

  /** Single bits of the low half are the single bits of the word below 32. */
  lemma {:induction false} Pow2of64Low(j: nat)
    requires j < 32
    ensures Pow2of64(j) == Pow2of32(j) as bv64
  {
    if j > 0 {
      Pow2of64Low(j - 1);
      Pow2of32IsSingleBit(j - 1);
      WidenShift(Pow2of32(j - 1));
    }
  }

  lemma {:induction false} Pow2of64High(j: nat)
    requires j < 32
    ensures Pow2of64(j + 32) == (Pow2of32(j) as bv64) << 32
  {
    if j == 0 {
      Pow2of64Values4();
    } else {
      Pow2of64High(j - 1);
      Pow2of32IsSingleBit(j - 1);
      WidenShiftHigh(Pow2of32(j - 1));
    }
  }

  // ---------------------------------------------------------------------
  // Word-level facts, each about a few named words

  lemma DisjointLow(b: bv64, q: bv32)
    ensures Disjoint64(b, q as bv64) <==> Disjoint32(LowHalf(b), q)
  {
  }

  lemma DisjointHigh(b: bv64, q: bv32)
    ensures Disjoint64(b, (q as bv64) << 32) <==> Disjoint32(HighHalf(b), q)
  {
  }

  lemma WidenShift(q: bv32)
    requires q < 0x8000_0000
    ensures (q as bv64) << 1 == (q << 1) as bv64
  {
  }

  lemma WidenShiftHigh(q: bv32)
    requires q < 0x8000_0000
    ensures ((q as bv64) << 32) << 1 == ((q << 1) as bv64) << 32
  {
  }

  // Each word-level fact below is stated through the predicates that
  // follow, so that it can be applied to any pair of words.

  /** p has at most one 1-bit. */
  predicate AtMostOneBit64(p: bv64)
  {
    p & (p - 1) == 0
  }

  predicate AtMostOneBit32(p: bv32)
  {
    p & (p - 1) == 0
  }

  /** m is the mask of the bits below the single bit p. */
  predicate MaskBelow64(m: bv64, p: bv64)
  {
    m == p - 1
  }

  predicate MaskBelow32(m: bv32, p: bv32)
  {
    m == p - 1
  }

  /** v & -v is p. */
  predicate Isolates32(v: bv32, p: bv32)
  {
    v & (0 - v) == p
  }

  /** poplsb takes the bits p out of x: x ^ p, which is also x - p. */
  predicate PopLsbRemoves(x: bv64, p: bv64)
  {
    PopLsb(x) == x ^ p && PopLsb(x) == x - p
  }

  /** v & -v of a word whose lowest 1-bit is the single bit p below the
      mask m is p. */
  lemma IsolateLowest32(v: bv32, p: bv32, m: bv32)
    requires AtMostOneBit32(p) && MaskBelow32(m, p) && Disjoint32(v, m) && !Disjoint32(v, p)
    ensures Isolates32(v, p)
  {
  }

  /** x & (x - 1) for a word x whose lowest 1-bit is the single bit p,
      with m the mask of the bits below p: x loses p, and since x has p
      that is also x - p. */
  lemma ClearLowest(x: bv64, p: bv64, m: bv64)
    requires AtMostOneBit64(p) && MaskBelow64(m, p) && Disjoint64(x, m) && !Disjoint64(x, p)
    ensures PopLsbRemoves(x, p)
  {
    ClearLowestBorrow(x, p, m);
    AndOverOr64(x, x ^ p, m);
    WithinSingleBit(x, p);
    ClearLowestJoin(x, p, m);
    FlipIsSubtract(x, p);
  }

  lemma ClearLowestBorrow(x: bv64, p: bv64, m: bv64)
    requires p & (p - 1) == 0 && m == p - 1 && Disjoint64(x, m) && !Disjoint64(x, p)
    ensures x & (x - 1) == x & ((x ^ p) | m)
  {
    DecrementBelowLowest(x, p, m);
  }

  lemma ClearLowestJoin(x: bv64, p: bv64, m: bv64)
    requires x & p == p && Disjoint64(x, m)
    ensures (x & (x ^ p)) | (x & m) == x ^ p
  {
  }

  /** Borrowing through the 0s below the lowest 1-bit p. */
  lemma DecrementBelowLowest(x: bv64, p: bv64, m: bv64)
    requires p & (p - 1) == 0 && m == p - 1 && Disjoint64(x, m) && !Disjoint64(x, p)
    ensures x - 1 == (x ^ p) | m
  {
  }

  lemma SingleBitClearBelow64(p: bv64, m: bv64)
    requires AtMostOneBit64(p) && MaskBelow64(m, p)
    ensures Disjoint64(p, m)
  {
  }

  lemma DisjointSymmetric64(a: bv64, b: bv64)
    requires Disjoint64(a, b)
    ensures Disjoint64(b, a)
  {
  }

  lemma WithinSingleBit(x: bv64, p: bv64)
    requires p & (p - 1) == 0 && !Disjoint64(x, p)
    ensures x & p == p
  {
  }

  /** Removing bits p that x has is subtracting them. */
  lemma FlipIsSubtract(x: bv64, p: bv64)
    requires p & (p - 1) == 0 && !Disjoint64(x, p)
    ensures x ^ p == x - p
  {
    WithinSingleBit(x, p);
    FlipAdd(x, p);
  }

  lemma FlipAdd(x: bv64, p: bv64)
    requires x & p == p
    ensures (x ^ p) + p == x
  {
    FlipApart(x, p);
    NoCarry64(x ^ p, p);
    assert AddsAsOr64(x ^ p, p);
  }

  /** Flipping off bits p that x has leaves a word apart from p that
      together with p makes up x. */
  lemma FlipApart(x: bv64, p: bv64)
    requires x & p == p
    ensures Disjoint64(x ^ p, p) && (x ^ p) | p == x
  {
  }

  /** a + p == a | p: adding words that share no bit carries nothing. */
  predicate AddsAsOr64(a: bv64, p: bv64)
  {
    a + p == a | p
  }

  lemma NoCarry64(a: bv64, p: bv64)
    requires Disjoint64(a, p)
    ensures AddsAsOr64(a, p)
  {
  }

  /** Taking the bits p out of x changes x's bit q exactly when q is in p. */
  lemma RemovedBit(x: bv64, p: bv64, q: bv64)
    requires PopLsbRemoves(x, p) && q != 0 && AtMostOneBit64(q)
    ensures Disjoint64(PopLsb(x), q) <==> (Disjoint64(x, q) <==> Disjoint64(p, q))
  {
    FlipBit64(x, p, q);
  }

  /** Flipping bits p of x changes x's bit q exactly when q is in p. */
  lemma FlipBit64(x: bv64, p: bv64, q: bv64)
    requires q != 0 && q & (q - 1) == 0
    ensures Disjoint64(x ^ p, q) <==> (Disjoint64(x, q) <==> Disjoint64(p, q))
  {
  }
}
