/** The table kinds and build constants of src/tbdefines.h: the size
    limits derived from the largest supported piece count (lines 21-25),
    and the parallel arrays of file suffixes and file magics indexed by
    the kinds WDL, DTM, DTZ (lines 375-378). */
module Registry {
  import Endian

  // ---------------------------------------------------------------------
  // Build constants

  /** The largest number of pieces a supported table holds (TB_PIECES). */
  const TbPieces: nat := 7

  /** Hash bits for a build supporting tables of up to pieces pieces. */
  function HashBits(pieces: nat): (r: nat)
    ensures r == 11 || r == 12
    ensures r == 12 <==> pieces >= 7
  {
    if pieces < 7 then 11 else 12
  }

  /** Largest number of piece-table entries for such a build. */
  function MaxPiece(pieces: nat): (r: nat)
    ensures r == 254 || r == 650
    ensures r == 650 <==> pieces >= 7
  {
    if pieces < 7 then 254 else 650
  }

  /** Largest number of pawn-table entries for such a build. */
  function MaxPawn(pieces: nat): (r: nat)
    ensures r == 256 || r == 861
    ensures r == 861 <==> pieces >= 7
  {
    if pieces < 7 then 256 else 861
  }

  const TbHashBits: nat := HashBits(TbPieces)
  const TbMaxPiece: nat := MaxPiece(TbPieces)
  const TbMaxPawn: nat := MaxPawn(TbPieces)

  /** Largest number of symbols in a table's compression dictionary. */
  const TbMaxSyms: nat := 4096

  /** The values this build uses. */
  lemma BuildConstants()
    ensures TbHashBits == 12 && TbMaxPiece == 650 && TbMaxPawn == 861 && TbMaxSyms == 4096
  {
  }

  // ---------------------------------------------------------------------
  // Table kinds

  /** The three kinds of table. */
  datatype TableKind = WDL | DTM | DTZ

  /** The enumerator value of a kind: WDL is 0, DTM 1, DTZ 2. */
  function Index(k: TableKind): (i: nat)
    ensures i < 3
  {
    match k
    case WDL => 0
    case DTM => 1
    case DTZ => 2
  }

  /** The kind whose enumerator value is i. */
  function KindOf(i: nat): (k: TableKind)
    requires i < 3
    ensures Index(k) == i
  {
    if i == 0 then WDL else if i == 1 then DTM else DTZ
  }

  /** tbSuffix: the file-name suffix of each kind, by enumerator value. */
  const TbSuffix: seq<string> := [".rtbw", ".rtbm", ".rtbz"]

  /** tbMagic: the magic number of each kind's files, by enumerator value. */
  const TbMagic: seq<bv32> := [0x5d23e871, 0x88ac504b, 0xa50c66d7]

  function Suffix(k: TableKind): string
  {
    TbSuffix[Index(k)]
  }

  function Magic(k: TableKind): bv32
  {
    TbMagic[Index(k)]
  }

  /** Both arrays have one entry per kind. */
  lemma TablesCoverKinds()
    ensures |TbSuffix| == 3 && |TbMagic| == 3
    ensures forall k: TableKind :: Index(k) < |TbSuffix| && Index(k) < |TbMagic|
  {
  }

  /** Kinds and enumerator values correspond one to one. */
  lemma IndexRoundTrip(k: TableKind, i: nat)
    requires i < 3
    ensures KindOf(Index(k)) == k
    ensures Index(KindOf(i)) == i
    ensures Index(k) == i <==> k == KindOf(i)
  {
  }

  /** The entry of each kind in the two arrays. */
  lemma KindEntries()
    ensures Suffix(WDL) == ".rtbw" && Magic(WDL) == 0x5d23e871
    ensures Suffix(DTM) == ".rtbm" && Magic(DTM) == 0x88ac504b
    ensures Suffix(DTZ) == ".rtbz" && Magic(DTZ) == 0xa50c66d7
  {
  }

  /** Different kinds have different suffixes and different magics, so a
      file's name and its header each identify its kind. */
  lemma KindsDistinguished(k: TableKind, l: TableKind)
    ensures Suffix(k) == Suffix(l) <==> k == l
    ensures Magic(k) == Magic(l) <==> k == l
  {
    KindEntries();
    if k != l {
      assert Suffix(k)[4] != Suffix(l)[4];
    }
  }

  /** Every suffix is ".rtb" followed by one letter naming the kind. */
  lemma SuffixShape(k: TableKind)
    ensures |Suffix(k)| == 5 && Suffix(k)[..4] == ".rtb"
    ensures Suffix(k)[4] == (match k case WDL => 'w' case DTM => 'm' case DTZ => 'z')
  {
  }

  /** A file that starts with the four little-endian bytes of a kind's
      magic reads back, through read_le_u32, as that magic on either host. */
  lemma MagicReadsBack(host: Endian.ByteOrder, k: TableKind, rest: seq<bv8>)
    ensures Endian.ReadLe32(host, Endian.Bytes32(Magic(k)) + rest) == Magic(k)
  {
    var b := Endian.Bytes32(Magic(k)) + rest;
    Endian.ReadLe32Value(host, b);
    assert b[..4] == Endian.Bytes32(Magic(k));
    Endian.Word32Bytes(Magic(k));
  }
}
