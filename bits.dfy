/** Mathematical vocabulary for 64- and 32-bit machine words: single-bit
    masks, the bit at an index, the lowest set bit and the number of 1-bits.
    These definitions are the specifications that the bit primitives of
    src/tbdefines.h (and the compiler intrinsics they stand in for) are
    proved against.

    Most definitions and lemmas come in a 64-bit and a 32-bit twin: lsb
    works on whole words and on their 32-bit halves, and Dafny has no
    bit-vector type generic in its width. */
module Bits {

  /** The word with only bit i set, 1 << i. */
  function Pow2of64(i: nat): bv64
    requires i < 64
  {
    Doubled64(i)
  }

  function Pow2of32(i: nat): bv32
    requires i < 32
  {
    Doubled32(i)
  }

  /** 1 doubled i times, which is how 1 << i is built here so that the
      index stays an integer. */
  function Doubled64(i: nat): bv64
    requires i < 64
  {
    if i == 0 then 1 else Doubled64(i - 1) << 1
  }

  function Doubled32(i: nat): bv32
    requires i < 32
  {
    if i == 0 then 1 else Doubled32(i - 1) << 1
  }

  /** The mask of the n lowest bits, (1 << n) - 1, built a bit at a time. */
  function LowMask64(n: nat): bv64
    requires n <= 64
  {
    if n == 0 then 0 else LowMask64(n - 1) | Pow2of64(n - 1)
  }

  function LowMask32(n: nat): bv32
    requires n <= 32
  {
    if n == 0 then 0 else LowMask32(n - 1) | Pow2of32(n - 1)
  }

  /** x and m have no 1-bit in common. */
  predicate Disjoint64(x: bv64, m: bv64)
  {
    x & m == 0
  }

  predicate Disjoint32(x: bv32, m: bv32)
  {
    x & m == 0
  }

  /** Bit i of x is 1. */
  predicate Bit64(x: bv64, i: nat)
    requires i < 64
  {
    !Disjoint64(x, Pow2of64(i))
  }

  predicate Bit32(x: bv32, i: nat)
    requires i < 32
  {
    !Disjoint32(x, Pow2of32(i))
  }

  /** i is the index of the lowest 1-bit of x: bit i is 1 and every bit
      below it is 0. */
  predicate IsLowestSetBit64(x: bv64, i: nat)
  {
    i < 64 && Bit64(x, i) && forall j :: 0 <= j < i ==> !Bit64(x, j)
  }

  predicate IsLowestSetBit32(x: bv32, i: nat)
  {
    i < 32 && Bit32(x, i) && forall j :: 0 <= j < i ==> !Bit32(x, j)
  }

  /** Bit i of x as a number, 0 or 1. */
  function BitAt(x: bv64, i: nat): nat
    requires i < 64
  {
    if Bit64(x, i) then 1 else 0
  }

  /** Number of 1-bits among the n lowest bits of x. */
  function CountOnes(x: bv64, n: nat): nat
    requires n <= 64
  {
    if n == 0 then 0 else CountOnes(x, n - 1) + BitAt(x, n - 1)
  }

  /** Number of 1-bits of a 64-bit word: the result every popcount tier
      (custom, hardware, builtin, software) must produce. */
  function PopCount(x: bv64): nat
  {
    CountOnes(x, 64)
  }

  /** Scan upwards from bit i for the first 1-bit, given that x has a 1-bit
      at position i or above. */
  function LowestSetBitFrom64(x: bv64, i: nat): (r: nat)
    requires i < 64 && exists j :: i <= j < 64 && Bit64(x, j)
    ensures i <= r < 64 && Bit64(x, r)
    ensures forall j :: i <= j < r ==> !Bit64(x, j)
    decreases 64 - i
  {
    if Bit64(x, i) then i else LowestSetBitFrom64(x, i + 1)
  }

  function LowestSetBitFrom32(x: bv32, i: nat): (r: nat)
    requires i < 32 && exists j :: i <= j < 32 && Bit32(x, j)
    ensures i <= r < 32 && Bit32(x, r)
    ensures forall j :: i <= j < r ==> !Bit32(x, j)
    decreases 32 - i
  {
    if Bit32(x, i) then i else LowestSetBitFrom32(x, i + 1)
  }

  /** Index of the lowest 1-bit of a nonzero word: what a forward bit-scan
      instruction computes. */
  function LowestSetBit64(x: bv64): (r: nat)
    requires x != 0
    ensures IsLowestSetBit64(x, r)
  {
    NonzeroHasSetBit64(x);
    LowestSetBitFrom64(x, 0)
  }

  function LowestSetBit32(x: bv32): (r: nat)
    requires x != 0
    ensures IsLowestSetBit32(x, r)
  {
    NonzeroHasSetBit32(x);
    LowestSetBitFrom32(x, 0)
  }

  /** A word has at most one lowest set bit. */
  lemma LowestSetBitUnique64(x: bv64, i: nat, k: nat)
    requires IsLowestSetBit64(x, i) && IsLowestSetBit64(x, k)
    ensures i == k
  {
  }

  lemma LowestSetBitUnique32(x: bv32, i: nat, k: nat)
    requires IsLowestSetBit32(x, i) && IsLowestSetBit32(x, k)
    ensures i == k
  {
  }

  /** A nonzero word has a 1-bit somewhere. */
  lemma NonzeroHasSetBit64(x: bv64)
    requires x != 0
    ensures exists j :: 0 <= j < 64 && Bit64(x, j)
  {
    if forall j :: 0 <= j < 64 ==> !Bit64(x, j) {
      BitsBelowClear64(x, 64);
      LowMask64Full();
      assert false;
    }
  }

  lemma NonzeroHasSetBit32(x: bv32)
    requires x != 0
    ensures exists j :: 0 <= j < 32 && Bit32(x, j)
  {
    if forall j :: 0 <= j < 32 ==> !Bit32(x, j) {
      BitsBelowClear32(x, 32);
      LowMask32Full();
      assert false;
    }
  }

  /** At most n of the n lowest bits are set. */
  lemma {:induction false} CountOnesBound(x: bv64, n: nat)
    requires n <= 64
    ensures CountOnes(x, n) <= n
  {
    if n > 0 {
      CountOnesBound(x, n - 1);
    }
  }

  // ---------------------------------------------------------------------
  // Low masks

  /** All bits of x below n are 0 exactly when x has no bit in the mask of
      the n lowest bits. */
  lemma {:induction false} BitsBelowClear64(x: bv64, n: nat)
    requires n <= 64
    ensures (forall j :: 0 <= j < n ==> !Bit64(x, j)) <==> Disjoint64(x, LowMask64(n))
  {
    if n > 0 {
      BitsBelowClear64(x, n - 1);
      LowMaskStep64(x, n);
      NoneBelowStep64(x, n);
    }
  }

  lemma {:induction false} BitsBelowClear32(x: bv32, n: nat)
    requires n <= 32
    ensures (forall j :: 0 <= j < n ==> !Bit32(x, j)) <==> Disjoint32(x, LowMask32(n))
  {
    if n > 0 {
      BitsBelowClear32(x, n - 1);
      LowMaskStep32(x, n);
      NoneBelowStep32(x, n);
    }
  }

  lemma NoneBelowStep64(x: bv64, n: nat)
    requires 0 < n <= 64
    ensures (forall j :: 0 <= j < n ==> !Bit64(x, j)) <==>
      (forall j :: 0 <= j < n - 1 ==> !Bit64(x, j)) && !Bit64(x, n - 1)
  {
  }

  lemma NoneBelowStep32(x: bv32, n: nat)
    requires 0 < n <= 32
    ensures (forall j :: 0 <= j < n ==> !Bit32(x, j)) <==>
      (forall j :: 0 <= j < n - 1 ==> !Bit32(x, j)) && !Bit32(x, n - 1)
  {
  }

  /** Adding bit n - 1 to the mask of the n - 1 lowest bits. */
  lemma LowMaskStep64(x: bv64, n: nat)
    requires 0 < n <= 64
    ensures Disjoint64(x, LowMask64(n)) <==>
      Disjoint64(x, LowMask64(n - 1)) && Disjoint64(x, Pow2of64(n - 1))
  {
    LowMaskUnfold64(n);
    DisjointUnion64(x, LowMask64(n), LowMask64(n - 1), Pow2of64(n - 1));
  }

  lemma LowMaskStep32(x: bv32, n: nat)
    requires 0 < n <= 32
    ensures Disjoint32(x, LowMask32(n)) <==>
      Disjoint32(x, LowMask32(n - 1)) && Disjoint32(x, Pow2of32(n - 1))
  {
    LowMaskUnfold32(n);
    DisjointUnion32(x, LowMask32(n), LowMask32(n - 1), Pow2of32(n - 1));
  }

  lemma LowMaskUnfold64(n: nat)
    requires 0 < n <= 64
    ensures LowMask64(n) == LowMask64(n - 1) | Pow2of64(n - 1)
  {
  }

  lemma LowMaskUnfold32(n: nat)
    requires 0 < n <= 32
    ensures LowMask32(n) == LowMask32(n - 1) | Pow2of32(n - 1)
  {
  }

  /** x has no bit in the union m of a and b exactly when it has none in
      either. */
  lemma DisjointUnion64(x: bv64, m: bv64, a: bv64, b: bv64)
    requires m == a | b
    ensures Disjoint64(x, m) <==> Disjoint64(x, a) && Disjoint64(x, b)
  {
    MaskSplit64(x, a, b);
    assert x & m == x & (a | b);
  }

  lemma DisjointUnion32(x: bv32, m: bv32, a: bv32, b: bv32)
    requires m == a | b
    ensures Disjoint32(x, m) <==> Disjoint32(x, a) && Disjoint32(x, b)
  {
    MaskSplit32(x, a, b);
    assert x & m == x & (a | b);
  }

  lemma MaskSplit64(x: bv64, a: bv64, b: bv64)
    ensures x & (a | b) == 0 <==> x & a == 0 && x & b == 0
  {
    AndOverOr64(x, a, b);
    OrZero64(x & a, x & b);
  }

  lemma AndOverOr64(x: bv64, a: bv64, b: bv64)
    ensures x & (a | b) == (x & a) | (x & b)
  {
  }

  lemma MaskSplit32(x: bv32, a: bv32, b: bv32)
    ensures x & (a | b) == 0 <==> x & a == 0 && x & b == 0
  {
    AndOverOr32(x, a, b);
    OrZero32(x & a, x & b);
  }

  lemma AndOverOr32(x: bv32, a: bv32, b: bv32)
    ensures x & (a | b) == (x & a) | (x & b)
  {
  }

  lemma OrZero64(u: bv64, v: bv64)
    ensures u | v == 0 <==> u == 0 && v == 0
  {
  }

  lemma OrZero32(u: bv32, v: bv32)
    ensures u | v == 0 <==> u == 0 && v == 0
  {
  }

  /** Below 64 bits the mask is one less than the next single bit. */
  lemma {:induction false} LowMask64IsPow2Less1(n: nat)
    requires n < 64
    ensures LowMask64(n) == Pow2of64(n) - 1
  {
    if n > 0 {
      LowMask64IsPow2Less1(n - 1);
      Pow2of64IsSingleBit(n - 1);
      NextLowerMask64(Pow2of64(n - 1), LowMask64(n - 1));
    }
  }

  lemma {:induction false} LowMask32IsPow2Less1(n: nat)
    requires n < 32
    ensures LowMask32(n) == Pow2of32(n) - 1
  {
    if n > 0 {
      LowMask32IsPow2Less1(n - 1);
      Pow2of32IsSingleBit(n - 1);
      NextLowerMask32(Pow2of32(n - 1), LowMask32(n - 1));
    }
  }

  /** All 64 bits make the all-ones word. */
  lemma LowMask64Full()
    ensures LowMask64(64) == 0xffff_ffff_ffff_ffff
  {
    LowMask64IsPow2Less1(63);
    Pow2of64Values7();
  }

  lemma LowMask32Full()
    ensures LowMask32(32) == 0xffff_ffff
  {
    LowMask32IsPow2Less1(31);
    Pow2of32Values3();
  }

  /** Doubling a single bit p below the top gives the bit whose lower mask
      is p's lower mask with p added. */
  lemma NextLowerMask64(p: bv64, m: bv64)
    requires p != 0 && p & (p - 1) == 0 && p < 0x8000_0000_0000_0000 && m == p - 1
    ensures m | p == (p << 1) - 1
  {
  }

  lemma NextLowerMask32(p: bv32, m: bv32)
    requires p != 0 && p & (p - 1) == 0 && p < 0x8000_0000 && m == p - 1
    ensures m | p == (p << 1) - 1
  {
  }

  // ---------------------------------------------------------------------
  // Single-bit masks

  /** Every mask 1 << i has exactly one bit set, and only 1 << 63 has the
      top bit. */
  lemma Pow2of64IsSingleBit(i: nat)
    requires i < 64
    ensures Pow2of64(i) != 0 && Pow2of64(i) & (Pow2of64(i) - 1) == 0
    ensures i < 63 ==> Pow2of64(i) < 0x8000_0000_0000_0000
  {
    Pow2of64AtMostOneBit(i);
    Pow2of64Nonzero(i);
    if i < 63 {
      Pow2of64Nonzero(i + 1);
      ShiftedBelowTop64(Pow2of64(i));
    }
  }

  lemma Pow2of32IsSingleBit(i: nat)
    requires i < 32
    ensures Pow2of32(i) != 0 && Pow2of32(i) & (Pow2of32(i) - 1) == 0
    ensures i < 31 ==> Pow2of32(i) < 0x8000_0000
  {
    Pow2of32AtMostOneBit(i);
    Pow2of32Nonzero(i);
    if i < 31 {
      Pow2of32Nonzero(i + 1);
      ShiftedBelowTop32(Pow2of32(i));
    }
  }

  /** Doubling never gives a mask more than one bit. */
  lemma {:induction false} Pow2of64AtMostOneBit(i: nat)
    requires i < 64
    ensures Pow2of64(i) & (Pow2of64(i) - 1) == 0
  {
    if i > 0 {
      Pow2of64AtMostOneBit(i - 1);
      DoubleAtMostOneBit64(Pow2of64(i - 1));
    }
  }

  lemma {:induction false} Pow2of32AtMostOneBit(i: nat)
    requires i < 32
    ensures Pow2of32(i) & (Pow2of32(i) - 1) == 0
  {
    if i > 0 {
      Pow2of32AtMostOneBit(i - 1);
      DoubleAtMostOneBit32(Pow2of32(i - 1));
    }
  }

  /** No mask is 0: a 0 would stay 0 up to 1 << 63, which is the top bit. */
  lemma {:induction false} Pow2of64Nonzero(i: nat)
    requires i < 64
    ensures Pow2of64(i) != 0
    decreases 64 - i
  {
    if i == 63 {
      Pow2of64Values7();
    } else {
      Pow2of64Nonzero(i + 1);
      ZeroShift64(Pow2of64(i));
    }
  }

  lemma {:induction false} Pow2of32Nonzero(i: nat)
    requires i < 32
    ensures Pow2of32(i) != 0
    decreases 32 - i
  {
    if i == 31 {
      Pow2of32Values3();
    } else {
      Pow2of32Nonzero(i + 1);
      ZeroShift32(Pow2of32(i));
    }
  }

  lemma DoubleAtMostOneBit64(p: bv64)
    requires p & (p - 1) == 0
    ensures (p << 1) & ((p << 1) - 1) == 0
  {
  }

  lemma DoubleAtMostOneBit32(p: bv32)
    requires p & (p - 1) == 0
    ensures (p << 1) & ((p << 1) - 1) == 0
  {
  }

  lemma ZeroShift64(p: bv64)
    requires p << 1 != 0
    ensures p != 0
  {
  }

  lemma ZeroShift32(p: bv32)
    requires p << 1 != 0
    ensures p != 0
  {
  }

  /** A single bit that survives doubling is below the top bit. */
  lemma ShiftedBelowTop64(p: bv64)
    requires p & (p - 1) == 0 && p << 1 != 0
    ensures p < 0x8000_0000_0000_0000
  {
  }

  lemma ShiftedBelowTop32(p: bv32)
    requires p & (p - 1) == 0 && p << 1 != 0
    ensures p < 0x8000_0000
  {
  }

  // ---------------------------------------------------------------------
  // The masks as literals, built up by doubling one step at a time.
  // Eight lemmas of eight values each, every one starting from the last
  // value of the one before, rather than one lemma of 64 values: this
  // keeps each proof small enough for the solver.

  /** The masks 1 << 0 to 1 << 7 as literals. */
  lemma Pow2of64Values0()
    ensures Pow2of64(0) == 0x1
    ensures Pow2of64(1) == 0x2
    ensures Pow2of64(2) == 0x4
    ensures Pow2of64(3) == 0x8
    ensures Pow2of64(4) == 0x10
    ensures Pow2of64(5) == 0x20
    ensures Pow2of64(6) == 0x40
    ensures Pow2of64(7) == 0x80
  {
    assert Pow2of64(1) == 0x2;
    assert Pow2of64(2) == 0x4;
    assert Pow2of64(3) == 0x8;
    assert Pow2of64(4) == 0x10;
    assert Pow2of64(5) == 0x20;
    assert Pow2of64(6) == 0x40;
    assert Pow2of64(7) == 0x80;
  }

  /** The masks 1 << 8 to 1 << 15 as literals. */
  lemma Pow2of64Values1()
    ensures Pow2of64(8) == 0x100
    ensures Pow2of64(9) == 0x200
    ensures Pow2of64(10) == 0x400
    ensures Pow2of64(11) == 0x800
    ensures Pow2of64(12) == 0x1000
    ensures Pow2of64(13) == 0x2000
    ensures Pow2of64(14) == 0x4000
    ensures Pow2of64(15) == 0x8000
  {
    Pow2of64Values0();
    assert Pow2of64(8) == 0x100;
    assert Pow2of64(9) == 0x200;
    assert Pow2of64(10) == 0x400;
    assert Pow2of64(11) == 0x800;
    assert Pow2of64(12) == 0x1000;
    assert Pow2of64(13) == 0x2000;
    assert Pow2of64(14) == 0x4000;
    assert Pow2of64(15) == 0x8000;
  }

  /** The masks 1 << 16 to 1 << 23 as literals. */
  lemma Pow2of64Values2()
    ensures Pow2of64(16) == 0x1_0000
    ensures Pow2of64(17) == 0x2_0000
    ensures Pow2of64(18) == 0x4_0000
    ensures Pow2of64(19) == 0x8_0000
    ensures Pow2of64(20) == 0x10_0000
    ensures Pow2of64(21) == 0x20_0000
    ensures Pow2of64(22) == 0x40_0000
    ensures Pow2of64(23) == 0x80_0000
  {
    Pow2of64Values1();
    assert Pow2of64(16) == 0x1_0000;
    assert Pow2of64(17) == 0x2_0000;
    assert Pow2of64(18) == 0x4_0000;
    assert Pow2of64(19) == 0x8_0000;
    assert Pow2of64(20) == 0x10_0000;
    assert Pow2of64(21) == 0x20_0000;
    assert Pow2of64(22) == 0x40_0000;
    assert Pow2of64(23) == 0x80_0000;
  }

  /** The masks 1 << 24 to 1 << 31 as literals. */
  lemma Pow2of64Values3()
    ensures Pow2of64(24) == 0x100_0000
    ensures Pow2of64(25) == 0x200_0000
    ensures Pow2of64(26) == 0x400_0000
    ensures Pow2of64(27) == 0x800_0000
    ensures Pow2of64(28) == 0x1000_0000
    ensures Pow2of64(29) == 0x2000_0000
    ensures Pow2of64(30) == 0x4000_0000
    ensures Pow2of64(31) == 0x8000_0000
  {
    Pow2of64Values2();
    assert Pow2of64(24) == 0x100_0000;
    assert Pow2of64(25) == 0x200_0000;
    assert Pow2of64(26) == 0x400_0000;
    assert Pow2of64(27) == 0x800_0000;
    assert Pow2of64(28) == 0x1000_0000;
    assert Pow2of64(29) == 0x2000_0000;
    assert Pow2of64(30) == 0x4000_0000;
    assert Pow2of64(31) == 0x8000_0000;
  }

  /** The masks 1 << 32 to 1 << 39 as literals. */
  lemma Pow2of64Values4()
    ensures Pow2of64(32) == 0x1_0000_0000
    ensures Pow2of64(33) == 0x2_0000_0000
    ensures Pow2of64(34) == 0x4_0000_0000
    ensures Pow2of64(35) == 0x8_0000_0000
    ensures Pow2of64(36) == 0x10_0000_0000
    ensures Pow2of64(37) == 0x20_0000_0000
    ensures Pow2of64(38) == 0x40_0000_0000
    ensures Pow2of64(39) == 0x80_0000_0000
  {
    Pow2of64Values3();
    assert Pow2of64(32) == 0x1_0000_0000;
    assert Pow2of64(33) == 0x2_0000_0000;
    assert Pow2of64(34) == 0x4_0000_0000;
    assert Pow2of64(35) == 0x8_0000_0000;
    assert Pow2of64(36) == 0x10_0000_0000;
    assert Pow2of64(37) == 0x20_0000_0000;
    assert Pow2of64(38) == 0x40_0000_0000;
    assert Pow2of64(39) == 0x80_0000_0000;
  }

  /** The masks 1 << 40 to 1 << 47 as literals. */
  lemma Pow2of64Values5()
    ensures Pow2of64(40) == 0x100_0000_0000
    ensures Pow2of64(41) == 0x200_0000_0000
    ensures Pow2of64(42) == 0x400_0000_0000
    ensures Pow2of64(43) == 0x800_0000_0000
    ensures Pow2of64(44) == 0x1000_0000_0000
    ensures Pow2of64(45) == 0x2000_0000_0000
    ensures Pow2of64(46) == 0x4000_0000_0000
    ensures Pow2of64(47) == 0x8000_0000_0000
  {
    Pow2of64Values4();
    assert Pow2of64(40) == 0x100_0000_0000;
    assert Pow2of64(41) == 0x200_0000_0000;
    assert Pow2of64(42) == 0x400_0000_0000;
    assert Pow2of64(43) == 0x800_0000_0000;
    assert Pow2of64(44) == 0x1000_0000_0000;
    assert Pow2of64(45) == 0x2000_0000_0000;
    assert Pow2of64(46) == 0x4000_0000_0000;
    assert Pow2of64(47) == 0x8000_0000_0000;
  }

  /** The masks 1 << 48 to 1 << 55 as literals. */
  lemma Pow2of64Values6()
    ensures Pow2of64(48) == 0x1_0000_0000_0000
    ensures Pow2of64(49) == 0x2_0000_0000_0000
    ensures Pow2of64(50) == 0x4_0000_0000_0000
    ensures Pow2of64(51) == 0x8_0000_0000_0000
    ensures Pow2of64(52) == 0x10_0000_0000_0000
    ensures Pow2of64(53) == 0x20_0000_0000_0000
    ensures Pow2of64(54) == 0x40_0000_0000_0000
    ensures Pow2of64(55) == 0x80_0000_0000_0000
  {
    Pow2of64Values5();
    assert Pow2of64(48) == 0x1_0000_0000_0000;
    assert Pow2of64(49) == 0x2_0000_0000_0000;
    assert Pow2of64(50) == 0x4_0000_0000_0000;
    assert Pow2of64(51) == 0x8_0000_0000_0000;
    assert Pow2of64(52) == 0x10_0000_0000_0000;
    assert Pow2of64(53) == 0x20_0000_0000_0000;
    assert Pow2of64(54) == 0x40_0000_0000_0000;
    assert Pow2of64(55) == 0x80_0000_0000_0000;
  }

  /** The masks 1 << 56 to 1 << 63 as literals. */
  lemma Pow2of64Values7()
    ensures Pow2of64(56) == 0x100_0000_0000_0000
    ensures Pow2of64(57) == 0x200_0000_0000_0000
    ensures Pow2of64(58) == 0x400_0000_0000_0000
    ensures Pow2of64(59) == 0x800_0000_0000_0000
    ensures Pow2of64(60) == 0x1000_0000_0000_0000
    ensures Pow2of64(61) == 0x2000_0000_0000_0000
    ensures Pow2of64(62) == 0x4000_0000_0000_0000
    ensures Pow2of64(63) == 0x8000_0000_0000_0000
  {
    Pow2of64Values6();
    assert Pow2of64(56) == 0x100_0000_0000_0000;
    assert Pow2of64(57) == 0x200_0000_0000_0000;
    assert Pow2of64(58) == 0x400_0000_0000_0000;
    assert Pow2of64(59) == 0x800_0000_0000_0000;
    assert Pow2of64(60) == 0x1000_0000_0000_0000;
    assert Pow2of64(61) == 0x2000_0000_0000_0000;
    assert Pow2of64(62) == 0x4000_0000_0000_0000;
    assert Pow2of64(63) == 0x8000_0000_0000_0000;
  }

  /** The masks 1 << 0 to 1 << 7 as literals. */
  lemma Pow2of32Values0()
    ensures Pow2of32(0) == 0x1
    ensures Pow2of32(1) == 0x2
    ensures Pow2of32(2) == 0x4
    ensures Pow2of32(3) == 0x8
    ensures Pow2of32(4) == 0x10
    ensures Pow2of32(5) == 0x20
    ensures Pow2of32(6) == 0x40
    ensures Pow2of32(7) == 0x80
  {
    assert Pow2of32(1) == 0x2;
    assert Pow2of32(2) == 0x4;
    assert Pow2of32(3) == 0x8;
    assert Pow2of32(4) == 0x10;
    assert Pow2of32(5) == 0x20;
    assert Pow2of32(6) == 0x40;
    assert Pow2of32(7) == 0x80;
  }

  /** The masks 1 << 8 to 1 << 15 as literals. */
  lemma Pow2of32Values1()
    ensures Pow2of32(8) == 0x100
    ensures Pow2of32(9) == 0x200
    ensures Pow2of32(10) == 0x400
    ensures Pow2of32(11) == 0x800
    ensures Pow2of32(12) == 0x1000
    ensures Pow2of32(13) == 0x2000
    ensures Pow2of32(14) == 0x4000
    ensures Pow2of32(15) == 0x8000
  {
    Pow2of32Values0();
    assert Pow2of32(8) == 0x100;
    assert Pow2of32(9) == 0x200;
    assert Pow2of32(10) == 0x400;
    assert Pow2of32(11) == 0x800;
    assert Pow2of32(12) == 0x1000;
    assert Pow2of32(13) == 0x2000;
    assert Pow2of32(14) == 0x4000;
    assert Pow2of32(15) == 0x8000;
  }

  /** The masks 1 << 16 to 1 << 23 as literals. */
  lemma Pow2of32Values2()
    ensures Pow2of32(16) == 0x1_0000
    ensures Pow2of32(17) == 0x2_0000
    ensures Pow2of32(18) == 0x4_0000
    ensures Pow2of32(19) == 0x8_0000
    ensures Pow2of32(20) == 0x10_0000
    ensures Pow2of32(21) == 0x20_0000
    ensures Pow2of32(22) == 0x40_0000
    ensures Pow2of32(23) == 0x80_0000
  {
    Pow2of32Values1();
    assert Pow2of32(16) == 0x1_0000;
    assert Pow2of32(17) == 0x2_0000;
    assert Pow2of32(18) == 0x4_0000;
    assert Pow2of32(19) == 0x8_0000;
    assert Pow2of32(20) == 0x10_0000;
    assert Pow2of32(21) == 0x20_0000;
    assert Pow2of32(22) == 0x40_0000;
    assert Pow2of32(23) == 0x80_0000;
  }

  /** The masks 1 << 24 to 1 << 31 as literals. */
  lemma Pow2of32Values3()
    ensures Pow2of32(24) == 0x100_0000
    ensures Pow2of32(25) == 0x200_0000
    ensures Pow2of32(26) == 0x400_0000
    ensures Pow2of32(27) == 0x800_0000
    ensures Pow2of32(28) == 0x1000_0000
    ensures Pow2of32(29) == 0x2000_0000
    ensures Pow2of32(30) == 0x4000_0000
    ensures Pow2of32(31) == 0x8000_0000
  {
    Pow2of32Values2();
    assert Pow2of32(24) == 0x100_0000;
    assert Pow2of32(25) == 0x200_0000;
    assert Pow2of32(26) == 0x400_0000;
    assert Pow2of32(27) == 0x800_0000;
    assert Pow2of32(28) == 0x1000_0000;
    assert Pow2of32(29) == 0x2000_0000;
    assert Pow2of32(30) == 0x4000_0000;
    assert Pow2of32(31) == 0x8000_0000;
  }
}
