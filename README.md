# Fathom tablebase support layer in Dafny

This project models the portability layer that Fathom's tablebase prober
takes from `src/tbdefines.h`, and proves it correct. The layer has four
parts: bit primitives, byte order, the table-file search and the table
registry. They are modelled in six modules: the bit primitives take three
(`Bits` for the shared definitions, `PopCount` and `Lsb`), and each of the
other parts has one.

- `bits.dfy`, module `Bits`: the reference definitions. These are bit `i`
  of a word, the number of 1-bits (`PopCount`) and the index of the lowest
  1-bit (`LowestSetBit64/32`). Every bit primitive is proved against them.
- `popcount.dfy`, module `PopCount`: the SWAR software population count
  `tb_software_popcount`.
- `lsb.dfy`, module `Lsb`: the four build variants of `lsb`, plus
  `get_bit32`, `MAGIC32`, `MagicTable32` and `poplsb`.
  - The GCC/Clang variant uses `__builtin_ffsll`.
  - The 64-bit MSVC variant uses `_BitScanForward64`.
  - The 32-bit MSVC variant splits the word into a low and a high half.
  - The portable variant uses the magic-multiply table.
- `endian.dfy`, module `Endian`: byte-order normalisation.
  - `from_le_u16/u32` and `from_be_u32/u64` are selected by the host's byte
    order, which is a parameter.
  - `read_le_u16/u32` read raw memory, given as a sequence of bytes.
- `locator.dfy`, module `Locator`: `open_tb`, the first-match search of the
  table directories. The file system is a parameter: a map from the names
  that open to their handles. `OpenTb` is a method with the C function's
  loop. It is proved equal to the reference search `FirstOpen`, which is
  built on the recursive first-match index `FirstOpenIndex`.
- `registry.dfy`, module `Registry`:
  - the build constants `TB_PIECES`, `TB_HASHBITS`, `TB_MAX_PIECE`,
    `TB_MAX_PAWN` and `TB_MAX_SYMS`;
  - the table kinds `WDL, DTM, DTZ`;
  - the parallel arrays `tbSuffix` and `tbMagic`.

Fixed-width C arithmetic is modelled with `bv64`, `bv32`, `bv16` and `bv8`.
Unsigned wrapping therefore behaves as in C, including:
- the 32-bit product in the magic table index;
- the multiply by `0x0101010101010101` in the popcount.

The signed arithmetic in `get_bit32` is a different matter; see
`Lsb.GetBit32` under "## Left out".

In two places the model follows the code where the general description of
`lsb` differs:
- `lsb` is described as requiring a nonzero argument. The portable variant
  has no such assertion and does return a value for 0, namely 63.
  `LsbMagic` is therefore total, and `Lsb.LsbMagicOfZero` states that value.
- The `assert(b != 0)` of the other variants becomes `requires b != 0`.

## Model

| member | source | states |
|---|---|---|
| PopCount.SoftwarePopCount | src/tbdefines.h:125-130 | computes tb_software_popcount: the three masking steps of lines 126-128 and the multiply and shift of line 129, in 64-bit wrapping arithmetic; its meaning is stated by SoftwarePopCountCorrect |
| PopCount.SoftwarePopCountCorrect | src/tbdefines.h:125-130 | tb_software_popcount returns the number of 1-bits of its 64-bit argument, which is at most 64 |
| PopCount.SoftwarePopCountSumsBytes | src/tbdefines.h:129 | the final multiply and shift add the eight byte counts left by the masking steps |
| PopCount.PopCountSumsBytes | src/tbdefines.h:126-128 | after the three masking steps, every byte holds the number of 1-bits of that byte of the argument |
| Bits.CountOnesBound | src/tbdefines.h:125-130 | at most n of the n lowest bits are set, which bounds the popcount by 64 |
| Bits.LowestSetBit64 | src/tbdefines.h:139-142 | a nonzero word has an index below 64 whose bit is 1 while every lower bit is 0 |
| Bits.LowestSetBitUnique64 | src/tbdefines.h:139-142 | that lowest-set-bit index is unique |
| Bits.BitsBelowClear64 | src/tbdefines.h:369 | all bits below n are 0 exactly when the word shares no bit with the mask of the n low bits |
| Bits.LowMask64IsPow2Less1 | src/tbdefines.h:369 | the mask of the n low bits is (1 << n) - 1 |
| Lsb.LsbGnu | src/tbdefines.h:139-142 | computes the GCC/Clang lsb, __builtin_ffsll(b) - 1, for b != 0 |
| Lsb.LsbMsvc64 | src/tbdefines.h:146-150 | computes the 64-bit MSVC lsb, _BitScanForward64 of b, for b != 0 |
| Lsb.LsbMsvc32 | src/tbdefines.h:151-157 | computes the 32-bit MSVC lsb: scan the low half if it is nonzero, otherwise scan the high half and add 32 |
| Lsb.GetBit32 | src/tbdefines.h:162-164 | computes get_bit32: the low 32 bits of x and-ed with their 32-bit negation |
| Lsb.MagicSlot | src/tbdefines.h:165-173 | computes the table index (g * MAGIC32) >> 27 as a 5-bit value, the product wrapping at 32 bits; MAGIC32 is the constant 0xe89b2be of line 165 |
| Lsb.MagicIndex | src/tbdefines.h:166-173 | the same index as a natural number, proved below 32, so every lookup in the 32-entry MagicTable32 of lines 166-168 is in bounds |
| Lsb.LsbMagic | src/tbdefines.h:169-174 | computes the portable lsb: the table entry for get_bit32 of the low half if it is nonzero, otherwise the entry for the high half plus 32; defined for 0 too |
| Lsb.PopLsb | src/tbdefines.h:369 | computes poplsb, x & (x - 1), in 64-bit wrapping arithmetic |
| Lsb.LsbGnuCorrect | src/tbdefines.h:139-142 | for nonzero b, __builtin_ffsll(b) - 1 is the index of the lowest 1-bit of b |
| Lsb.LsbMsvc32Correct | src/tbdefines.h:144-159 | the 32-bit MSVC split finds the lowest 1-bit of b; the result is below 32 exactly when the low half is nonzero |
| Lsb.LsbMagicCorrect | src/tbdefines.h:169-174 | for nonzero b the magic-table lsb is the lowest 1-bit; it is below 32 if the low half is nonzero, and otherwise 32 plus the lowest 1-bit of the high half |
| Lsb.LsbMagicOfZero | src/tbdefines.h:169-174 | with no assertion in this variant, lsb(0) evaluates to MagicTable32[0] + 32 = 63 |
| Lsb.LsbVariantsAgree | src/tbdefines.h:136-176 | every compiler variant of lsb returns the same index for a nonzero word |
| Lsb.LsbOfSingleBit | src/tbdefines.h:136-176 | the word 1 << i has lowest set bit i, so lsb maps every single-bit word back to its index |
| Lsb.GetBit32Lowest | src/tbdefines.h:162-164 | get_bit32(x) is the single lowest 1-bit of the low 32 bits of x, and 0 when these are 0 |
| Lsb.IsolateLowestAt32 | src/tbdefines.h:162-164 | v & -v, with 32-bit wrapping negation, is 1 << i when i is the lowest 1-bit of v |
| Lsb.MagicTableInverse | src/tbdefines.h:165-168 | for each i < 32, MagicTable32[((1 << i) * MAGIC32 mod 2^32) >> 27] == i |
| Lsb.PopLsbClearsLowest | src/tbdefines.h:369 | for nonzero x, poplsb(x) is x - (1 << lsb(x)), and equally x with that bit flipped |
| Lsb.PopLsbBits | src/tbdefines.h:369 | bit j of poplsb(x) is 1 exactly when bit j of x is 1 and j is not the lowest set bit |
| Lsb.PopLsbPopCount | src/tbdefines.h:369 | poplsb lowers the popcount of a nonzero word by exactly one |
| Lsb.PopLsbCountBelow | src/tbdefines.h:369 | below any n, poplsb removes one 1-bit exactly when the lowest set bit is below n |
| Lsb.ClearLowest | src/tbdefines.h:369 | if p is the lowest 1-bit of x, then x & (x - 1) equals both x ^ p and x - p |
| Endian.Bswap16 | src/tbdefines.h:193 | computes bswap16 as the word whose bytes are those of w in reverse order |
| Endian.Bswap32 | src/tbdefines.h:191 | computes bswap32 the same way |
| Endian.Bswap64 | src/tbdefines.h:216 | computes bswap64 the same way |
| Endian.FromLe16 | src/tbdefines.h:193-214 | computes from_le_u16: bswap16 on a big-endian host, the identity on a little-endian one |
| Endian.FromLe32 | src/tbdefines.h:191-212 | computes from_le_u32: bswap32 on a big-endian host, the identity on a little-endian one |
| Endian.FromBe32 | src/tbdefines.h:197-218 | computes from_be_u32: the identity on a big-endian host, bswap32 on a little-endian one |
| Endian.FromBe64 | src/tbdefines.h:195-216 | computes from_be_u64: the identity on a big-endian host, bswap64 on a little-endian one |
| Endian.Load16 | src/tbdefines.h:233 | computes the raw load *(uint16_t*)p: the first byte is least significant on a little-endian host and most significant on a big-endian one |
| Endian.Load32 | src/tbdefines.h:229 | computes the raw load *(uint32_t*)p in the same way |
| Endian.ReadLe16 | src/tbdefines.h:232-234 | computes read_le_u16: from_le_u16 of the raw 16-bit load |
| Endian.ReadLe32 | src/tbdefines.h:228-230 | computes read_le_u32: from_le_u32 of the raw 32-bit load |
| Endian.Word32Bytes | src/tbdefines.h:228-229 | a 32-bit word rebuilt from its little-endian bytes is the word itself |
| Endian.Bytes32Word | src/tbdefines.h:228-229 | four bytes, taken as a little-endian word and split again, are the same bytes |
| Endian.Word16Bytes | src/tbdefines.h:232-233 | the 16-bit round trip from word to bytes and back |
| Endian.Bytes16Word | src/tbdefines.h:232-233 | the 16-bit round trip from bytes to word and back |
| Endian.Word64Bytes | src/tbdefines.h:216 | the 64-bit round trip from word to bytes and back |
| Endian.Bytes64Word | src/tbdefines.h:216 | the 64-bit round trip from bytes to word and back |
| Endian.Reversed | src/tbdefines.h:181 | byte k of the reversal is byte n - 1 - k of the original, and the length is kept |
| Endian.ReversedTwice | src/tbdefines.h:181 | reversing the bytes twice restores them |
| Endian.Bswap32Bytes | src/tbdefines.h:191 | the bytes of bswap32(w) are the bytes of w in the opposite order |
| Endian.Bswap16Bytes | src/tbdefines.h:193 | the bytes of bswap16(w) are the bytes of w in the opposite order |
| Endian.Bswap64Bytes | src/tbdefines.h:216 | the bytes of bswap64(w) are the bytes of w in the opposite order |
| Endian.Bswap32Twice | src/tbdefines.h:191 | bswap32 is an involution |
| Endian.Bswap16Twice | src/tbdefines.h:193 | bswap16 is an involution |
| Endian.Bswap64Twice | src/tbdefines.h:216 | bswap64 is an involution |
| Endian.ConversionsByHost | src/tbdefines.h:183-226 | on a big-endian host from_le swaps and from_be keeps the value; on a little-endian host the reverse |
| Endian.ConversionsTwice | src/tbdefines.h:183-226 | each of from_le_u16, from_le_u32, from_be_u32 and from_be_u64, applied twice, gives back its argument on either host |
| Endian.LeIsSwappedBe | src/tbdefines.h:191-218 | on either host, from_le_u32 of a word is bswap32 of from_be_u32 of it |
| Endian.ReadLe32Value | src/tbdefines.h:228-230 | read_le_u32 of the bytes at p is b0 + 256 b1 + 65536 b2 + 16777216 b3, whatever the host's byte order |
| Endian.ReadLe16Value | src/tbdefines.h:232-234 | read_le_u16 of the bytes at p is b0 + 256 b1, whatever the host's byte order |
| Endian.Word32Value | src/tbdefines.h:228-230 | the numeric value of a word built from four little-endian bytes |
| Endian.Word16Value | src/tbdefines.h:232-234 | the numeric value of a word built from two little-endian bytes |
| Locator.Candidate | src/tbdefines.h:267-276 | computes the name tried for one directory: the directory, the platform's separator, str and suffix |
| Locator.FirstOpen | src/tbdefines.h:266-299 | computes the result open_tb should give: the handle of the candidate at FirstOpenIndex, or FD_ERR when that index is numPaths |
| Locator.CandidateLayout | src/tbdefines.h:267-276 | the name tried for a directory is the directory, then one separator character ("/", or "\\" on Windows), then str followed by suffix |
| Locator.OpenFile | src/tbdefines.h:277-292 | opening a name gives its handle if the name opens, and FD_ERR otherwise |
| Locator.OpenTb | src/tbdefines.h:257-300 | open_tb returns the handle of the first candidate that opens, or FD_ERR. The names tried are the candidates in index order, up to and including the first that opens, and every candidate when none opens |
| Locator.FirstOpenIndex | src/tbdefines.h:266-299 | the first-match index: every candidate before it fails, and it opens unless it is numPaths |
| Locator.FirstOpenFails | src/tbdefines.h:266-299 | the search returns FD_ERR exactly when no candidate opens |
| Locator.FirstOpenAt | src/tbdefines.h:266-299 | a candidate that opens, with no earlier one opening, is the one whose handle the search returns |
| Locator.NoPathsNoFile | src/tbdefines.h:257-299 | with numPaths == 0 the search returns FD_ERR |
| Locator.FirstMatchWins | src/tbdefines.h:266-299 | once an earlier directory yields the file, appending more directories does not change the result |
| Registry.HashBits | src/tbdefines.h:22 | TB_HASHBITS is 11 below seven pieces and 12 from seven on |
| Registry.MaxPiece | src/tbdefines.h:23 | TB_MAX_PIECE is 254 below seven pieces and 650 from seven on |
| Registry.MaxPawn | src/tbdefines.h:24 | TB_MAX_PAWN is 256 below seven pieces and 861 from seven on |
| Registry.BuildConstants | src/tbdefines.h:21-25 | with TB_PIECES = 7: TB_HASHBITS = 12, TB_MAX_PIECE = 650, TB_MAX_PAWN = 861 and TB_MAX_SYMS = 4096 |
| Registry.Index | src/tbdefines.h:378 | the enumerator values of the datatype TableKind = WDL, DTM, DTZ, which lie below 3 |
| Registry.KindOf | src/tbdefines.h:378 | each value below 3 names the kind whose enumerator it is |
| Registry.Suffix | src/tbdefines.h:375-378 | computes the entry of tbSuffix (the sequence TbSuffix) for a TableKind, indexed by its enumerator value |
| Registry.Magic | src/tbdefines.h:376-378 | computes the entry of tbMagic (the sequence TbMagic) for a TableKind, indexed by its enumerator value |
| Registry.IndexRoundTrip | src/tbdefines.h:378 | kinds and enumerator values 0, 1, 2 correspond one to one |
| Registry.TablesCoverKinds | src/tbdefines.h:375-378 | tbSuffix and tbMagic each have one entry per kind |
| Registry.KindEntries | src/tbdefines.h:375-378 | WDL, DTM and DTZ have suffixes ".rtbw", ".rtbm", ".rtbz" and magics 0x5d23e871, 0x88ac504b, 0xa50c66d7 |
| Registry.KindsDistinguished | src/tbdefines.h:375-378 | two kinds share a suffix, or a magic, only if they are the same kind |
| Registry.SuffixShape | src/tbdefines.h:375 | every suffix is ".rtb" followed by 'w', 'm' or 'z' for WDL, DTM or DTZ |
| Registry.MagicReadsBack | src/tbdefines.h:228-230 | a file that starts with a kind's magic in little-endian order reads back through read_le_u32 as that magic, on either host |

## Left out

- Lsb.GetBit32: the model takes `(int32_t)(x)` as truncation to the low 32 bits and the negation as 32-bit wrapping. C leaves the conversion of a value above `INT32_MAX` implementation-defined and makes negating `INT32_MIN` undefined behaviour. The results for a low half of `0x80000000` (31, or 63 from the high half) rest on that assumption, and so do the contracts of `Lsb.GetBit32Lowest`, `Lsb.IsolateLowestAt32` and `Lsb.LsbMagicCorrect` there.

- The mutex macros and the `tbMutex` and `initialized` globals (lines 57-93 and 253-256) are concurrency and OS threading.
- `map_file`, `unmap_file`, `file_size` and `close_tb` (lines 236-251 and 302-367) are left out. They are `fstat`, `mmap`, `munmap`, `CreateFileMapping` and `MapViewOfFile` calls with diagnostics, i.e. OS plumbing. This includes the early return of `unmap_file` on a null pointer.
- The popcount and bit-scan intrinsics (`_mm_popcnt_u64`, `__builtin_popcountll`, `__builtin_ffsll`, `_BitScanForward(64)`) are foreign calls. They appear only through their documented results (`Ffs64`, `BitScanForward64/32`, and `PopCount` as the meaning of a hardware popcount). `TB_CUSTOM_POP_COUNT` and `TB_CUSTOM_LSB` are user-supplied.
- `bswap16/32/64` come from `stdendian.h`, which is not part of this model. They are defined here as byte reversal.
- `Endian.Load16` and `Endian.Load32` give the meaning of `*(uint16_t*)p` and `*(uint32_t*)p` on each host only. Alignment and strict aliasing are not modelled.
- `from_le_u64` and `from_be_u16` are commented out in the source and are not modelled.
- In `open_tb`, the C string and heap mechanics (`malloc`, `strcpy`, `strcat`, `free`) are sequence concatenation in `Locator.OpenTb`. The Windows `mbstowcs_s` conversion into a 4096-character buffer is not modelled, and neither is truncation of long names.
- Locator.OpenTb: handles are natural numbers, and `FD_ERR` is a separate constructor rather than `-1` or `INVALID_HANDLE_VALUE`. The set of openable files is fixed during one search. File-system races and the open flags are not modelled.
- Splitting the path string into `paths` is not in this file, and `SEP_CHAR` is not used by anything modelled. `paths` and `numPaths` are a given sequence and its length, passed to `OpenTb` instead of being read from globals.
- The `max` and `min` macros (lines 178-179) are left out.
- The encoding enum `PIECE_ENC, FILE_ENC, RANK_ENC` (line 379) is left out; nothing in this file uses it.
- The counters `TB_MaxCardinality`, `TB_MaxCardinalityDTM` and `TB_LARGEST` (lines 371-372) are left out; nothing in this file uses them.
- PopCount.SoftwarePopCountCorrect: the C function returns `unsigned`. The model keeps the 64-bit value and proves it at most 64, so the narrowing is exact.
