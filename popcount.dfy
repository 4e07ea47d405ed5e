/** The software population count of src/tbdefines.h:125-130, the fallback
    used when neither a custom, a hardware nor a compiler-builtin popcount is
    available, proved to count the 1-bits of its argument.

    The proof follows the four lines of the C function: after the three
    masking steps every byte of the word holds the number of 1-bits of the
    same byte of the argument, and the multiply by 0x0101010101010101 adds
    the eight bytes into the top byte without a carry crossing a byte. */
module PopCount {
  import opened Bits

  /** Line 126: every 2-bit field is replaced by the number of 1-bits in it. */
  function PairCounts(x: bv64): bv64
  {
    x - ((x >> 1) & 0x5555_5555_5555_5555)
  }

  /** Line 127: adjacent 2-bit counts are added into 4-bit fields. */
  function NibbleCounts(x: bv64): bv64
  {
    (x & 0x3333_3333_3333_3333) + ((x >> 2) & 0x3333_3333_3333_3333)
  }

  /** Line 128: adjacent 4-bit counts are added into bytes. */
  function ByteCounts(x: bv64): bv64
  {
    (x + (x >> 4)) & 0x0f0f_0f0f_0f0f_0f0f
  }

  /** Line 129: the multiply accumulates every byte into the top byte. */
  function SumOfBytes(x: bv64): bv64
  {
    (x * 0x0101_0101_0101_0101) >> 56
  }

  /** tb_software_popcount. The C function returns the 64-bit value as an
      unsigned int; the value is at most 64, so that conversion is exact. */
  function SoftwarePopCount(x: bv64): bv64
  {
    SumOfBytes(ByteCounts(NibbleCounts(PairCounts(x))))
  }

  /** The software popcount is the number of 1-bits of its argument, so
      every tier of the popcount cascade agrees with it. */
  lemma SoftwarePopCountCorrect(x: bv64)
    ensures SoftwarePopCount(x) as int == PopCount(x)
    ensures SoftwarePopCount(x) <= 64
  {
    SoftwarePopCountSumsBytes(x);
    PopCountSumsBytes(x);
    CountOnesBound(x, 64);
    SmallWord(SoftwarePopCount(x));
  }

  /** Line 129 adds the bytes left by line 128. */
  lemma SoftwarePopCountSumsBytes(x: bv64)
    ensures SoftwarePopCount(x) as int ==
      Byte(ByteCounts(NibbleCounts(PairCounts(x)))) as int + Byte(ByteCounts(NibbleCounts(PairCounts(x))) >> 8) as int +
      Byte(ByteCounts(NibbleCounts(PairCounts(x))) >> 16) as int + Byte(ByteCounts(NibbleCounts(PairCounts(x))) >> 24) as int +
      Byte(ByteCounts(NibbleCounts(PairCounts(x))) >> 32) as int + Byte(ByteCounts(NibbleCounts(PairCounts(x))) >> 40) as int +
      Byte(ByteCounts(NibbleCounts(PairCounts(x))) >> 48) as int + Byte(ByteCounts(NibbleCounts(PairCounts(x))) >> 56) as int
  {
    ByteCountsBelow16(x);
    SumOfBytesAddsBytes(ByteCounts(NibbleCounts(PairCounts(x))));
  }

  /** The bytes left by line 128 add up to the number of 1-bits of x. */
  lemma PopCountSumsBytes(x: bv64)
    ensures PopCount(x) ==
      Byte(ByteCounts(NibbleCounts(PairCounts(x)))) as int + Byte(ByteCounts(NibbleCounts(PairCounts(x))) >> 8) as int +
      Byte(ByteCounts(NibbleCounts(PairCounts(x))) >> 16) as int + Byte(ByteCounts(NibbleCounts(PairCounts(x))) >> 24) as int +
      Byte(ByteCounts(NibbleCounts(PairCounts(x))) >> 32) as int + Byte(ByteCounts(NibbleCounts(PairCounts(x))) >> 40) as int +
      Byte(ByteCounts(NibbleCounts(PairCounts(x))) >> 48) as int + Byte(ByteCounts(NibbleCounts(PairCounts(x))) >> 56) as int
  {
    ByteCountValue0(x);
    ByteCountValue1(x);
    ByteCountValue2(x);
    ByteCountValue3(x);
    ByteCountValue4(x);
    ByteCountValue5(x);
    ByteCountValue6(x);
    ByteCountValue7(x);
  }

  lemma SmallWord(w: bv64)
    requires w as int <= 64
    ensures w <= 64
  {
  }

  // ---------------------------------------------------------------------
  // The bit count, byte by byte

  /** Number of 1-bits among bits n .. n + 7 of x. */
  function ByteOnes(x: bv64, n: nat): nat
    requires n + 8 <= 64
  {
    BitAt(x, n) + BitAt(x, n + 1) + BitAt(x, n + 2) + BitAt(x, n + 3) +
    BitAt(x, n + 4) + BitAt(x, n + 5) + BitAt(x, n + 6) + BitAt(x, n + 7)
  }

  lemma CountOnesByte(x: bv64, n: nat)
    requires n + 8 <= 64
    ensures CountOnes(x, n + 8) == CountOnes(x, n) + ByteOnes(x, n)
  {
    assert CountOnes(x, n + 8) == CountOnes(x, n + 7) + BitAt(x, n + 7);
    assert CountOnes(x, n + 7) == CountOnes(x, n + 6) + BitAt(x, n + 6);
    assert CountOnes(x, n + 6) == CountOnes(x, n + 5) + BitAt(x, n + 5);
    assert CountOnes(x, n + 5) == CountOnes(x, n + 4) + BitAt(x, n + 4);
    assert CountOnes(x, n + 4) == CountOnes(x, n + 3) + BitAt(x, n + 3);
    assert CountOnes(x, n + 3) == CountOnes(x, n + 2) + BitAt(x, n + 2);
    assert CountOnes(x, n + 2) == CountOnes(x, n + 1) + BitAt(x, n + 1);
  }

  /** The 8 lowest bits of x, summed bit by bit in 64-bit arithmetic. */
  function ByteBits(x: bv64): bv64
  {
    (x & 1) + ((x >> 1) & 1) + ((x >> 2) & 1) + ((x >> 3) & 1) +
    ((x >> 4) & 1) + ((x >> 5) & 1) + ((x >> 6) & 1) + ((x >> 7) & 1)
  }

  /** ByteBits of the k-th byte counts the bits of that byte. There is one
      lemma per byte, k = 0 to 7, rather than one lemma over k, because
      shifts by a constant are cheap for the solver and shifts by a
      variable amount are not. The same holds for the ByteCountValue and
      ByteCountAt groups below. */
  lemma ByteBitsCount0(x: bv64)
    ensures ByteBits(x) as int == ByteOnes(x, 0)
  {
    Pow2of64Values0();
  }
  lemma ByteBitsCount1(x: bv64)
    ensures ByteBits(x >> 8) as int == ByteOnes(x, 8)
  {
    Pow2of64Values1();
  }
  lemma ByteBitsCount2(x: bv64)
    ensures ByteBits(x >> 16) as int == ByteOnes(x, 16)
  {
    Pow2of64Values2();
  }
  lemma ByteBitsCount3(x: bv64)
    ensures ByteBits(x >> 24) as int == ByteOnes(x, 24)
  {
    Pow2of64Values3();
  }
  lemma ByteBitsCount4(x: bv64)
    ensures ByteBits(x >> 32) as int == ByteOnes(x, 32)
  {
    Pow2of64Values4();
  }
  lemma ByteBitsCount5(x: bv64)
    ensures ByteBits(x >> 40) as int == ByteOnes(x, 40)
  {
    Pow2of64Values5();
  }
  lemma ByteBitsCount6(x: bv64)
    ensures ByteBits(x >> 48) as int == ByteOnes(x, 48)
  {
    Pow2of64Values6();
  }
  lemma ByteBitsCount7(x: bv64)
    ensures ByteBits(x >> 56) as int == ByteOnes(x, 56)
  {
    Pow2of64Values7();
  }

  // ---------------------------------------------------------------------
  // The three masking steps work byte by byte

  /** Byte w & 0xff of a word, as an 8-bit value. */
  function Byte(w: bv64): bv8
  {
    (w & 0xff) as bv8
  }

  /** Every byte of w is below 16. */
  predicate BytesBelow16(w: bv64)
  {
    w & 0xf0f0_f0f0_f0f0_f0f0 == 0
  }

  /** After line 128 every byte is below 16, and byte k holds the number
      of 1-bits of byte k of x. */
  lemma ByteCountsBelow16(x: bv64)
    ensures BytesBelow16(ByteCounts(NibbleCounts(PairCounts(x))))
  {
  }

  lemma ByteCountValue0(x: bv64)
    ensures CountOnes(x, 8) == CountOnes(x, 0) + Byte(ByteCounts(NibbleCounts(PairCounts(x)))) as int
  {
    ByteCountAt0(x);
    ByteBitsCount0(x);
    CountOnesByte(x, 0);
    LowByte(ByteCounts(NibbleCounts(PairCounts(x))), ByteBits(x));
  }

  lemma ByteCountValue1(x: bv64)
    ensures CountOnes(x, 16) == CountOnes(x, 8) + Byte(ByteCounts(NibbleCounts(PairCounts(x))) >> 8) as int
  {
    ByteCountAt1(x);
    ByteBitsCount1(x);
    CountOnesByte(x, 8);
    LowByte(ByteCounts(NibbleCounts(PairCounts(x))) >> 8, ByteBits(x >> 8));
  }

  lemma ByteCountValue2(x: bv64)
    ensures CountOnes(x, 24) == CountOnes(x, 16) + Byte(ByteCounts(NibbleCounts(PairCounts(x))) >> 16) as int
  {
    ByteCountAt2(x);
    ByteBitsCount2(x);
    CountOnesByte(x, 16);
    LowByte(ByteCounts(NibbleCounts(PairCounts(x))) >> 16, ByteBits(x >> 16));
  }

  lemma ByteCountValue3(x: bv64)
    ensures CountOnes(x, 32) == CountOnes(x, 24) + Byte(ByteCounts(NibbleCounts(PairCounts(x))) >> 24) as int
  {
    ByteCountAt3(x);
    ByteBitsCount3(x);
    CountOnesByte(x, 24);
    LowByte(ByteCounts(NibbleCounts(PairCounts(x))) >> 24, ByteBits(x >> 24));
  }

  lemma ByteCountValue4(x: bv64)
    ensures CountOnes(x, 40) == CountOnes(x, 32) + Byte(ByteCounts(NibbleCounts(PairCounts(x))) >> 32) as int
  {
    ByteCountAt4(x);
    ByteBitsCount4(x);
    CountOnesByte(x, 32);
    LowByte(ByteCounts(NibbleCounts(PairCounts(x))) >> 32, ByteBits(x >> 32));
  }

  lemma ByteCountValue5(x: bv64)
    ensures CountOnes(x, 48) == CountOnes(x, 40) + Byte(ByteCounts(NibbleCounts(PairCounts(x))) >> 40) as int
  {
    ByteCountAt5(x);
    ByteBitsCount5(x);
    CountOnesByte(x, 40);
    LowByte(ByteCounts(NibbleCounts(PairCounts(x))) >> 40, ByteBits(x >> 40));
  }

  lemma ByteCountValue6(x: bv64)
    ensures CountOnes(x, 56) == CountOnes(x, 48) + Byte(ByteCounts(NibbleCounts(PairCounts(x))) >> 48) as int
  {
    ByteCountAt6(x);
    ByteBitsCount6(x);
    CountOnesByte(x, 48);
    LowByte(ByteCounts(NibbleCounts(PairCounts(x))) >> 48, ByteBits(x >> 48));
  }

  lemma ByteCountValue7(x: bv64)
    ensures CountOnes(x, 64) == CountOnes(x, 56) + Byte(ByteCounts(NibbleCounts(PairCounts(x))) >> 56) as int
  {
    ByteCountAt7(x);
    ByteBitsCount7(x);
    CountOnesByte(x, 56);
    LowByte(ByteCounts(NibbleCounts(PairCounts(x))) >> 56, ByteBits(x >> 56));
  }

  lemma LowByte(w: bv64, v: bv64)
    requires w & 0xff == v
    ensures Byte(w) as int == v as int
  {
  }

  lemma ByteCountAt0(x: bv64)
    ensures ByteCounts(NibbleCounts(PairCounts(x))) & 0xff == ByteBits(x)
  {
  }

  lemma ByteCountAt1(x: bv64)
    ensures (ByteCounts(NibbleCounts(PairCounts(x))) >> 8) & 0xff == ByteBits(x >> 8)
  {
  }

  lemma ByteCountAt2(x: bv64)
    ensures (ByteCounts(NibbleCounts(PairCounts(x))) >> 16) & 0xff == ByteBits(x >> 16)
  {
  }

  lemma ByteCountAt3(x: bv64)
    ensures (ByteCounts(NibbleCounts(PairCounts(x))) >> 24) & 0xff == ByteBits(x >> 24)
  {
  }

  lemma ByteCountAt4(x: bv64)
    ensures (ByteCounts(NibbleCounts(PairCounts(x))) >> 32) & 0xff == ByteBits(x >> 32)
  {
  }

  lemma ByteCountAt5(x: bv64)
    ensures (ByteCounts(NibbleCounts(PairCounts(x))) >> 40) & 0xff == ByteBits(x >> 40)
  {
  }

  lemma ByteCountAt6(x: bv64)
    ensures (ByteCounts(NibbleCounts(PairCounts(x))) >> 48) & 0xff == ByteBits(x >> 48)
  {
  }

  lemma ByteCountAt7(x: bv64)
    ensures (ByteCounts(NibbleCounts(PairCounts(x))) >> 56) & 0xff == ByteBits(x >> 56)
  {
  }

  // ---------------------------------------------------------------------
  // The multiply by 0x0101010101010101 adds the eight bytes
  //
  // The multiplier factors as 0x101 * 0x10001 * 0x100000001: the first
  // factor adds neighbouring bytes, the second neighbouring byte pairs and
  // the third the two halves. Each step keeps every byte below a bound
  // (16, 32, 64) under which no byte sum carries into the next byte.

  predicate BytesBelow32(w: bv64)
  {
    w & 0xe0e0_e0e0_e0e0_e0e0 == 0
  }

  predicate BytesBelow64(w: bv64)
  {
    w & 0xc0c0_c0c0_c0c0_c0c0 == 0
  }

  /** With every byte of c below 16 the top byte of the product is the sum
      of all eight bytes. */
  lemma SumOfBytesAddsBytes(c: bv64)
    requires BytesBelow16(c)
    ensures SumOfBytes(c) as int ==
      Byte(c) as int + Byte(c >> 8) as int + Byte(c >> 16) as int + Byte(c >> 24) as int +
      Byte(c >> 32) as int + Byte(c >> 40) as int + Byte(c >> 48) as int + Byte(c >> 56) as int
  {
    SumPairs(c);
    SumQuadsAll();
    SumHalvesAll();
    SumIsTopByte(c);
  }

  lemma SumIsTopByte(c: bv64)
    ensures SumOfBytes(c) as int == Byte((c * 0x0101_0101_0101_0101) >> 56) as int
  {
    TopByte(c * 0x0101_0101_0101_0101);
  }

  lemma TopByte(w: bv64)
    ensures Byte(w >> 56) as int == (w >> 56) as int
  {
  }

  lemma SumPairs(c: bv64)
    requires BytesBelow16(c)
    ensures BytesBelow32(c * 0x101)
    ensures Byte((c * 0x101) >> 8) as int == Byte(c) as int + Byte(c >> 8) as int
    ensures Byte((c * 0x101) >> 24) as int == Byte(c >> 16) as int + Byte(c >> 24) as int
    ensures Byte((c * 0x101) >> 40) as int == Byte(c >> 32) as int + Byte(c >> 40) as int
    ensures Byte((c * 0x101) >> 56) as int == Byte(c >> 48) as int + Byte(c >> 56) as int
  {
    Below16(c);
    Below16(c >> 8);
    Below16(c >> 16);
    Below16(c >> 24);
    Below16(c >> 32);
    Below16(c >> 40);
    Below16(c >> 48);
    Below16(c >> 56);
    AddBytes(c);
    ByteSum(Byte(c), Byte(c >> 8), Byte((c * 0x101) >> 8));
    ByteSum(Byte(c >> 16), Byte(c >> 24), Byte((c * 0x101) >> 24));
    ByteSum(Byte(c >> 32), Byte(c >> 40), Byte((c * 0x101) >> 40));
    ByteSum(Byte(c >> 48), Byte(c >> 56), Byte((c * 0x101) >> 56));
  }

  lemma SumQuads(t: bv64)
    requires BytesBelow32(t)
    ensures BytesBelow64(t * 0x1_0001)
    ensures Byte((t * 0x1_0001) >> 24) as int == Byte(t >> 8) as int + Byte(t >> 24) as int
    ensures Byte((t * 0x1_0001) >> 56) as int == Byte(t >> 40) as int + Byte(t >> 56) as int
  {
    AddBytePairs(t);
    Below32(t >> 8);
    Below32(t >> 24);
    Below32(t >> 40);
    Below32(t >> 56);
    ByteSum(Byte(t >> 8), Byte(t >> 24), Byte((t * 0x1_0001) >> 24));
    ByteSum(Byte(t >> 40), Byte(t >> 56), Byte((t * 0x1_0001) >> 56));
  }

  lemma SumHalves(u: bv64)
    requires BytesBelow64(u)
    ensures Byte((u * 0x1_0000_0001) >> 56) as int == Byte(u >> 24) as int + Byte(u >> 56) as int
  {
    AddHalves(u);
    Below64(u >> 24);
    Below64(u >> 56);
    ByteSum(Byte(u >> 24), Byte(u >> 56), Byte((u * 0x1_0000_0001) >> 56));
  }

  /** SumQuads and SumHalves for every word, so that they apply to the
      partial products c * 0x101 and c * 0x1010101 as written. */
  lemma SumQuadsAll()
    ensures forall t {:trigger BytesBelow32(t)} :: BytesBelow32(t) ==>
      BytesBelow64(t * 0x1_0001) &&
      Byte((t * 0x1_0001) >> 24) as int == Byte(t >> 8) as int + Byte(t >> 24) as int &&
      Byte((t * 0x1_0001) >> 56) as int == Byte(t >> 40) as int + Byte(t >> 56) as int
  {
    forall t | BytesBelow32(t)
      ensures BytesBelow64(t * 0x1_0001) &&
        Byte((t * 0x1_0001) >> 24) as int == Byte(t >> 8) as int + Byte(t >> 24) as int &&
        Byte((t * 0x1_0001) >> 56) as int == Byte(t >> 40) as int + Byte(t >> 56) as int
    {
      SumQuads(t);
    }
  }

  lemma SumHalvesAll()
    ensures forall u {:trigger BytesBelow64(u)} :: BytesBelow64(u) ==>
      Byte((u * 0x1_0000_0001) >> 56) as int == Byte(u >> 24) as int + Byte(u >> 56) as int
  {
    forall u | BytesBelow64(u)
      ensures Byte((u * 0x1_0000_0001) >> 56) as int == Byte(u >> 24) as int + Byte(u >> 56) as int
    {
      SumHalves(u);
    }
  }

  /** The byte sums in 8-bit arithmetic, one multiply step at a time. */
  lemma AddBytes(c: bv64)
    requires BytesBelow16(c)
    ensures BytesBelow32(c * 0x101)
    ensures Byte((c * 0x101) >> 8) == Byte(c) + Byte(c >> 8)
    ensures Byte((c * 0x101) >> 24) == Byte(c >> 16) + Byte(c >> 24)
    ensures Byte((c * 0x101) >> 40) == Byte(c >> 32) + Byte(c >> 40)
    ensures Byte((c * 0x101) >> 56) == Byte(c >> 48) + Byte(c >> 56)
  {
  }

  lemma AddBytePairs(t: bv64)
    requires BytesBelow32(t)
    ensures BytesBelow64(t * 0x1_0001)
    ensures Byte((t * 0x1_0001) >> 24) == Byte(t >> 8) + Byte(t >> 24)
    ensures Byte((t * 0x1_0001) >> 56) == Byte(t >> 40) + Byte(t >> 56)
  {
  }

  lemma AddHalves(u: bv64)
    requires BytesBelow64(u)
    ensures Byte((u * 0x1_0000_0001) >> 56) == Byte(u >> 24) + Byte(u >> 56)
  {
  }

  lemma Below16(w: bv64)
    requires w & 0xf0 == 0
    ensures Byte(w) as int < 16
  {
  }

  lemma Below32(w: bv64)
    requires w & 0xe0 == 0
    ensures Byte(w) as int < 32
  {
  }

  lemma Below64(w: bv64)
    requires w & 0xc0 == 0
    ensures Byte(w) as int < 64
  {
  }

  // ---------------------------------------------------------------------
  // 8-bit sums that do not wrap

  /** s = a + b in 8-bit arithmetic equals the sum of the numbers when that
      sum is below 256. */
  lemma ByteSum(a: bv8, b: bv8, s: bv8)
    requires a as int + b as int < 256
    requires s == a + b
    ensures s as int == a as int + b as int
  {
    AddNoWrap(a, b);
  }

  lemma {:induction false} AddNoWrap(a: bv8, b: bv8)
    requires a as int + b as int < 256
    ensures (a + b) as int == a as int + b as int
    decreases b as int
  {
    if b != 0 {
      var b' := b - 1;
      var s := a + b';
      Decrement(b, b');
      AddNoWrap(a, b');
      Regroup(a, b, b', s);
      Increment(s, a + b);
    } else {
      assert a + b == a;
      assert b as int == 0;
    }
  }

  lemma Increment(c: bv8, d: bv8)
    requires c as int < 255 && d == c + 1
    ensures d as int == c as int + 1
  {
  }

  lemma Decrement(b: bv8, d: bv8)
    requires b != 0 && d == b - 1
    ensures d as int == b as int - 1
  {
  }

  lemma Regroup(a: bv8, b: bv8, b': bv8, s: bv8)
    requires b' == b - 1 && s == a + b'
    ensures a + b == s + 1
  {
  }
}
