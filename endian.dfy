/** Byte-order normalisation in src/tbdefines.h (lines 181-234): the
    from_le / from_be conversions chosen by the host's byte order, and the
    little-endian reads built on them. The host's byte order is a
    parameter, and memory is a sequence of bytes. */
module Endian {

  /** The byte order of the host that runs the code (_BYTE_ORDER). */
  datatype ByteOrder = LittleEndian | BigEndian

  // ---------------------------------------------------------------------
  // Words and their bytes, least significant byte first

  /** The two bytes of w, least significant first. */
  function Bytes16(w: bv16): (r: seq<bv8>)
    ensures |r| == 2
  {
    [(w & 0xff) as bv8, (w >> 8) as bv8]
  }

  function Bytes32(w: bv32): (r: seq<bv8>)
    ensures |r| == 4
  {
    [(w & 0xff) as bv8, ((w >> 8) & 0xff) as bv8, ((w >> 16) & 0xff) as bv8, (w >> 24) as bv8]
  }

  function Bytes64(w: bv64): (r: seq<bv8>)
    ensures |r| == 8
  {
    [(w & 0xff) as bv8, ((w >> 8) & 0xff) as bv8, ((w >> 16) & 0xff) as bv8, ((w >> 24) & 0xff) as bv8,
     ((w >> 32) & 0xff) as bv8, ((w >> 40) & 0xff) as bv8, ((w >> 48) & 0xff) as bv8, (w >> 56) as bv8]
  }

  /** The word whose bytes, least significant first, are b. */
  function Word16(b: seq<bv8>): bv16
    requires |b| == 2
  {
    Join16(b[0], b[1])
  }

  function Word32(b: seq<bv8>): bv32
    requires |b| == 4
  {
    Join32(b[0], b[1], b[2], b[3])
  }

  function Word64(b: seq<bv8>): bv64
    requires |b| == 8
  {
    (b[0] as bv64) | ((b[1] as bv64) << 8) | ((b[2] as bv64) << 16) | ((b[3] as bv64) << 24)
    | ((b[4] as bv64) << 32) | ((b[5] as bv64) << 40) | ((b[6] as bv64) << 48) | ((b[7] as bv64) << 56)
  }

  /** The word with low byte lo and high byte hi. */
  function Join16(lo: bv8, hi: bv8): bv16
  {
    (lo as bv16) | ((hi as bv16) << 8)
  }

  /** The word with bytes b0 to b3, least significant first. */
  function Join32(b0: bv8, b1: bv8, b2: bv8, b3: bv8): bv32
  {
    (b0 as bv32) | ((b1 as bv32) << 8) | ((b2 as bv32) << 16) | ((b3 as bv32) << 24)
  }

  /** The bytes of s in the opposite order. */
  function Reversed(s: seq<bv8>): (r: seq<bv8>)
    ensures |r| == |s|
    ensures forall k :: 0 <= k < |s| ==> r[k] == s[|s| - 1 - k]
  {
    if |s| == 0 then [] else Reversed(s[1..]) + [s[0]]
  }

  // ---------------------------------------------------------------------
  // Byte swaps (bswap16/32/64 of stdendian.h, given here by their meaning)

  /** The word with the bytes of w in the opposite order. */
  function Bswap16(w: bv16): bv16
  {
    Word16(Reversed(Bytes16(w)))
  }

  function Bswap32(w: bv32): bv32
  {
    Word32(Reversed(Bytes32(w)))
  }

  function Bswap64(w: bv64): bv64
  {
    Word64(Reversed(Bytes64(w)))
  }

  // ---------------------------------------------------------------------
  // The conversions, selected by the host's byte order (lines 183-226)

  /** from_le_u16: a big-endian host swaps, a little-endian one keeps x. */
  function FromLe16(host: ByteOrder, x: bv16): bv16
  {
    match host
    case BigEndian => Bswap16(x)
    case LittleEndian => x
  }

  /** from_le_u32. */
  function FromLe32(host: ByteOrder, x: bv32): bv32
  {
    match host
    case BigEndian => Bswap32(x)
    case LittleEndian => x
  }

  /** from_be_u32: a big-endian host keeps x, a little-endian one swaps. */
  function FromBe32(host: ByteOrder, x: bv32): bv32
  {
    match host
    case BigEndian => x
    case LittleEndian => Bswap32(x)
  }

  /** from_be_u64. */
  function FromBe64(host: ByteOrder, x: bv64): bv64
  {
    match host
    case BigEndian => x
    case LittleEndian => Bswap64(x)
  }

  // ---------------------------------------------------------------------
  // Reads from memory (lines 228-234)

  /** What *(uint16_t*)p loads from the bytes b at p: a little-endian host
      takes the first byte as the least significant, a big-endian host as
      the most significant. */
  function Load16(host: ByteOrder, b: seq<bv8>): bv16
    requires |b| >= 2
  {
    match host
    case LittleEndian => Word16(b[..2])
    case BigEndian => Word16(Reversed(b[..2]))
  }

  /** What *(uint32_t*)p loads from the bytes b at p. */
  function Load32(host: ByteOrder, b: seq<bv8>): bv32
    requires |b| >= 4
  {
    match host
    case LittleEndian => Word32(b[..4])
    case BigEndian => Word32(Reversed(b[..4]))
  }

  /** read_le_u16. */
  function ReadLe16(host: ByteOrder, b: seq<bv8>): bv16
    requires |b| >= 2
  {
    FromLe16(host, Load16(host, b))
  }

  /** read_le_u32. */
  function ReadLe32(host: ByteOrder, b: seq<bv8>): bv32
    requires |b| >= 4
  {
    FromLe32(host, Load32(host, b))
  }

  // ---------------------------------------------------------------------
  // Properties

  /** A word and its byte sequence determine each other. */
  lemma Word16Bytes(w: bv16)
    ensures Word16(Bytes16(w)) == w
  {
  }

  lemma Bytes16Word(b: seq<bv8>)
    requires |b| == 2
    ensures Bytes16(Word16(b)) == b
  {
  }

  lemma Word32Bytes(w: bv32)
    ensures Word32(Bytes32(w)) == w
  {
  }

  lemma Bytes32Word(b: seq<bv8>)
    requires |b| == 4
    ensures Bytes32(Word32(b)) == b
  {
  }

  lemma Word64Bytes(w: bv64)
    ensures Word64(Bytes64(w)) == w
  {
  }

  lemma Bytes64Word(b: seq<bv8>)
    requires |b| == 8
    ensures Bytes64(Word64(b)) == b
  {
  }

  /** Reversing twice restores the bytes. */
  lemma ReversedTwice(s: seq<bv8>)
    ensures Reversed(Reversed(s)) == s
  {
  }

  /** The bytes of a swapped word are the word's bytes reversed. */
  lemma Bswap16Bytes(w: bv16)
    ensures Bytes16(Bswap16(w)) == Reversed(Bytes16(w))
  {
    Bytes16Word(Reversed(Bytes16(w)));
  }

  lemma Bswap32Bytes(w: bv32)
    ensures Bytes32(Bswap32(w)) == Reversed(Bytes32(w))
  {
    Bytes32Word(Reversed(Bytes32(w)));
  }

  lemma Bswap64Bytes(w: bv64)
    ensures Bytes64(Bswap64(w)) == Reversed(Bytes64(w))
  {
    Bytes64Word(Reversed(Bytes64(w)));
  }

  /** Swapping twice restores the word. */
  lemma Bswap16Twice(w: bv16)
    ensures Bswap16(Bswap16(w)) == w
  {
    Bswap16Bytes(w);
    ReversedTwice(Bytes16(w));
    Word16Bytes(w);
  }

  lemma Bswap32Twice(w: bv32)
    ensures Bswap32(Bswap32(w)) == w
  {
    Bswap32Bytes(w);
    ReversedTwice(Bytes32(w));
    Word32Bytes(w);
  }

  lemma Bswap64Twice(w: bv64)
    ensures Bswap64(Bswap64(w)) == w
  {
    Bswap64Bytes(w);
    ReversedTwice(Bytes64(w));
    Word64Bytes(w);
  }

  /** On a big-endian host from_le swaps and from_be is the identity; on a
      little-endian host it is the other way round. */
  lemma ConversionsByHost(x32: bv32, x16: bv16, x64: bv64)
    ensures FromLe32(BigEndian, x32) == Bswap32(x32) && FromBe32(BigEndian, x32) == x32
    ensures FromLe16(BigEndian, x16) == Bswap16(x16) && FromBe64(BigEndian, x64) == x64
    ensures FromLe32(LittleEndian, x32) == x32 && FromBe32(LittleEndian, x32) == Bswap32(x32)
    ensures FromLe16(LittleEndian, x16) == x16 && FromBe64(LittleEndian, x64) == Bswap64(x64)
  {
  }

  /** Every conversion undoes itself, whatever the host. */
  lemma ConversionsTwice(host: ByteOrder, x16: bv16, x32: bv32, x64: bv64)
    ensures FromLe16(host, FromLe16(host, x16)) == x16
    ensures FromLe32(host, FromLe32(host, x32)) == x32
    ensures FromBe32(host, FromBe32(host, x32)) == x32
    ensures FromBe64(host, FromBe64(host, x64)) == x64
  {
    Bswap16Twice(x16);
    Bswap32Twice(x32);
    Bswap64Twice(x64);
  }

  /** from_le and from_be of the same word differ by exactly one swap. */
  lemma LeIsSwappedBe(host: ByteOrder, x: bv32)
    ensures FromLe32(host, x) == Bswap32(FromBe32(host, x))
  {
    Bswap32Twice(x);
  }

  /** read_le_u32 gives the little-endian value of the four bytes at p,
      on either host: b0 + 256 b1 + 65536 b2 + 16777216 b3. */
  lemma ReadLe32Value(host: ByteOrder, b: seq<bv8>)
    requires |b| >= 4
    ensures ReadLe32(host, b) == Word32(b[..4])
    ensures ReadLe32(host, b) as int
      == b[0] as int + 256 * b[1] as int + 65536 * b[2] as int + 16777216 * b[3] as int
  {
    if host == BigEndian {
      Bytes32Word(Reversed(b[..4]));
      ReversedTwice(b[..4]);
    }
    Word32Value(b[..4]);
  }

  /** read_le_u16 gives b0 + 256 b1, on either host. */
  lemma ReadLe16Value(host: ByteOrder, b: seq<bv8>)
    requires |b| >= 2
    ensures ReadLe16(host, b) == Word16(b[..2])
    ensures ReadLe16(host, b) as int == b[0] as int + 256 * b[1] as int
  {
    if host == BigEndian {
      Bytes16Word(Reversed(b[..2]));
      ReversedTwice(b[..2]);
    }
    Word16Value(b[..2]);
  }

  /** The numeric value of a word built from little-endian bytes. */
  lemma Word32Value(b: seq<bv8>)
    requires |b| == 4
    ensures Word32(b) as int
      == b[0] as int + 256 * b[1] as int + 65536 * b[2] as int + 16777216 * b[3] as int
  {
    assert Word32(b) == Join32(b[0], b[1], b[2], b[3]);
    Join32Value(b[0], b[1], b[2], b[3]);
  }

  lemma Word16Value(b: seq<bv8>)
    requires |b| == 2
    ensures Word16(b) as int == b[0] as int + 256 * b[1] as int
  {
    assert Word16(b) == Join16(b[0], b[1]);
    Join16Value(b[0], b[1]);
  }

  lemma Join32Value(b0: bv8, b1: bv8, b2: bv8, b3: bv8)
    ensures Join32(b0, b1, b2, b3) as int
      == b0 as int + 256 * b1 as int + 65536 * b2 as int + 16777216 * b3 as int
  {
    assert Join32(b0, b1, b2, b3)
      == (b0 as bv32) | ((b1 as bv32) << 8) | ((b2 as bv32) << 16) | ((b3 as bv32) << 24);
  }

  lemma Join16Value(lo: bv8, hi: bv8)
    ensures Join16(lo, hi) as int == lo as int + 256 * hi as int
  {
    assert Join16(lo, hi) == (lo as bv16) | ((hi as bv16) << 8);
  }
}
