/** Superblock geometry and its on-disk form (`format.rs`). */
module Format {
  import opened Bytes
  import opened Blocks
  import opened Results

  const SUPERBLOCK_BLOCK: nat := 0
  const SUPERBLOCK_MAGIC: seq<byte> := [0x46, 0x53, 0x4c, 0x41, 0x42, 0x46, 0x53, 0]  // "FSLABFS\0"
  const FORMAT_VERSION: u32 := 5
  const FORMAT_BLOCK_SIZE: u32 := 4096
  const ALLOCATION_IMAGE_HEADER_LEN: nat := 32
  const HEADER_LEN: nat := 88

  datatype Superblock = Superblock(
    totalBlocks: u64,
    journalStart: u64, journalBlocks: u64,
    allocationStart: u64, allocationBlocks: u64,
    inodeStart: u64, inodeBlocks: u64,
    directoryStart: u64, directoryBlocks: u64)

  function AllocationBitmapBytes(totalBlocks: u64): (r: Result<u64>)
    ensures r.Ok? <==> totalBlocks + 7 < U64_LIMIT
    ensures r.Ok? ==> 8 * r.value >= totalBlocks && 8 * (r.value - 1) < totalBlocks
  {
    if totalBlocks + 7 >= U64_LIMIT then Err(InvalidInput) else Ok((totalBlocks + 7) / 8)
  }

  /** Whole blocks for a 32-byte header and one bit per block: enough, and not one too many. */
  function RequiredAllocationBlocks(totalBlocks: u64): (r: Result<u64>)
    ensures r.Ok? <==> totalBlocks + 7 < U64_LIMIT
    ensures r.Ok? ==> var image := ALLOCATION_IMAGE_HEADER_LEN + AllocationBitmapBytes(totalBlocks).value;
                      image <= r.value * BLOCK_SIZE < image + BLOCK_SIZE
  {
    var bytes :- AllocationBitmapBytes(totalBlocks);
    Ok((ALLOCATION_IMAGE_HEADER_LEN + bytes + (BLOCK_SIZE - 1)) / BLOCK_SIZE)
  }

  /** The metadata prefix: superblock, journal, allocation image, inode table, directory table. */
  predicate ValidGeometry(sb: Superblock) {
    && sb.journalStart == 1 && sb.journalBlocks > 0
    && sb.inodeBlocks > 0 && sb.directoryBlocks > 0
    && RequiredAllocationBlocks(sb.totalBlocks) == Ok(sb.allocationBlocks)
    && sb.allocationStart == sb.journalStart + sb.journalBlocks
    && sb.inodeStart == sb.allocationStart + sb.allocationBlocks
    && sb.directoryStart == sb.inodeStart + sb.inodeBlocks
    && sb.directoryStart + sb.directoryBlocks <= sb.totalBlocks
  }

  function WithAllMetadataBlocks(total: u64, journal: u64, inode: u64, directory: u64): (r: Result<Superblock>)
    ensures r.Ok? ==> ValidGeometry(r.value)
    ensures r.Ok? ==> r.value.totalBlocks == total && r.value.journalBlocks == journal &&
                      r.value.inodeBlocks == inode && r.value.directoryBlocks == directory
    ensures r.Err? ==> forall sb: Superblock | ValidGeometry(sb) ::
              sb.totalBlocks != total || sb.journalBlocks != journal || sb.inodeBlocks != inode
                  || sb.directoryBlocks != directory
  {
    if journal == 0 || inode == 0 || directory == 0 then Err(InvalidInput)
    else if 1 + journal >= U64_LIMIT then Err(InvalidInput)
    else
      var allocation :- RequiredAllocationBlocks(total);
      var allocationStart := 1 + journal;
      if allocationStart + allocation >= U64_LIMIT then Err(InvalidInput)
      else if allocationStart + allocation + inode >= U64_LIMIT then Err(InvalidInput)
      else if allocationStart + allocation + inode + directory >= U64_LIMIT then Err(InvalidInput)
      else if allocationStart + allocation + inode + directory > total then Err(InvalidInput)
      else Ok(Superblock(total, 1, journal, allocationStart, allocation, allocationStart + allocation, inode,
                         allocationStart + allocation + inode, directory))
  }

  function ReservedBlocks(sb: Superblock): nat {
    sb.directoryStart + sb.directoryBlocks
  }

  predicate InJournal(sb: Superblock, block: nat) {
    sb.journalStart <= block < sb.journalStart + sb.journalBlocks
  }

  predicate InAllocation(sb: Superblock, block: nat) {
    sb.allocationStart <= block < sb.allocationStart + sb.allocationBlocks
  }

  predicate InInodes(sb: Superblock, block: nat) {
    sb.inodeStart <= block < sb.inodeStart + sb.inodeBlocks
  }

  predicate InDirectory(sb: Superblock, block: nat) {
    sb.directoryStart <= block < sb.directoryStart + sb.directoryBlocks
  }

  predicate IsData(sb: Superblock, block: nat) {
    ReservedBlocks(sb) <= block < sb.totalBlocks
  }

  /** A location a journal record may be replayed to. */
  predicate IsHome(sb: Superblock, block: nat) {
    InAllocation(sb, block) || InInodes(sb, block) || InDirectory(sb, block) || IsData(sb, block)
  }

  /** The home locations are exactly the blocks that are neither the superblock nor journal, and
      each belongs to one region. */
  lemma HomeIsTheRest(sb: Superblock, block: nat)
    requires ValidGeometry(sb)
    ensures IsHome(sb, block) <==> block < sb.totalBlocks && block != SUPERBLOCK_BLOCK && !InJournal(sb, block)
    ensures !(InAllocation(sb, block) && InInodes(sb, block))
    ensures !(InInodes(sb, block) && InDirectory(sb, block))
    ensures !(InAllocation(sb, block) && InDirectory(sb, block))
    ensures IsData(sb, block) ==> !InAllocation(sb, block) && !InInodes(sb, block) && !InDirectory(sb, block)
  {
  }

  // ------------------------------------------------------------------------ the superblock block

  function Fields(sb: Superblock): (s: seq<u64>)
    ensures |s| == 9
  {
    [sb.totalBlocks, sb.journalStart, sb.journalBlocks, sb.allocationStart, sb.allocationBlocks,
     sb.inodeStart, sb.inodeBlocks, sb.directoryStart, sb.directoryBlocks]
  }

  function Encode(sb: Superblock): (b: Block) {
    SUPERBLOCK_MAGIC + Le32(FORMAT_VERSION) + Le32(FORMAT_BLOCK_SIZE) + WordsLe(Fields(sb)) +
    Zeros(BLOCK_SIZE - HEADER_LEN)
  }

  function ReadFields(b: Block): (sb: Superblock) {
    Superblock(Read64(b, 16), Read64(b, 24), Read64(b, 32), Read64(b, 40), Read64(b, 48),
               Read64(b, 56), Read64(b, 64), Read64(b, 72), Read64(b, 80))
  }

  function Decode(b: Block): (r: Result<Superblock>) {
    if b[0..8] != SUPERBLOCK_MAGIC then Err(InvalidData)
    else if Read32(b, 8) != FORMAT_VERSION then Err(InvalidData)
    else if Read32(b, 12) != FORMAT_BLOCK_SIZE then Err(InvalidData)
    else if !ValidGeometry(ReadFields(b)) then Err(InvalidData)
    else if !AllZero(b[HEADER_LEN..]) then Err(InvalidData)
    else Ok(ReadFields(b))
  }

  lemma EncodedField(sb: Superblock, i: nat)
    requires i < 9
    ensures Read64(Encode(sb), 16 + 8 * i) == Fields(sb)[i]
  {
    hide Read64, Le64, WordsLe;
    WordAt(Fields(sb), i);
    var b := Encode(sb);
    assert b[16..HEADER_LEN] == WordsLe(Fields(sb));
    assert b[16 + 8 * i..16 + 8 * i + 8] == b[16..HEADER_LEN][8 * i..8 * i + 8];
    ReadsBack64(b, 16 + 8 * i, Fields(sb)[i]);
  }

  lemma EncodedFields(sb: Superblock)
    ensures ReadFields(Encode(sb)) == sb
  {
    hide Encode, Read64;
    EncodedField(sb, 0); EncodedField(sb, 1); EncodedField(sb, 2);
    EncodedField(sb, 3); EncodedField(sb, 4); EncodedField(sb, 5);
    EncodedField(sb, 6); EncodedField(sb, 7); EncodedField(sb, 8);
  }

  /** A superblock survives the disk exactly when its geometry is the one the constructors make. */
  lemma SuperblockRoundTrips(sb: Superblock)
    ensures Decode(Encode(sb)) == (if ValidGeometry(sb) then Ok(sb) else Err(InvalidData))
  {
    hide ReadFields, ValidGeometry, WordsLe, Fields, Le32, Read32;
    var b := Encode(sb);
    EncodedFields(sb);
    assert b[0..8] == SUPERBLOCK_MAGIC;
    assert b[8..12] == Le32(FORMAT_VERSION);
    assert b[12..16] == Le32(FORMAT_BLOCK_SIZE);
    ReadsBack32(b, 8, FORMAT_VERSION);
    ReadsBack32(b, 12, FORMAT_BLOCK_SIZE);
    assert b[HEADER_LEN..] == Zeros(BLOCK_SIZE - HEADER_LEN);
  }

  /** A block that decodes is the encoding of what it decodes as. */
  lemma DecodedIsCanonical(b: Block)
    requires Decode(b).Ok?
    ensures ValidGeometry(Decode(b).value) && b == Encode(Decode(b).value)
  {
    hide ValidGeometry, WordsLe, Le32, Read32, Read64;
    var sb := ReadFields(b);
    WordsOfBytes(b, 16, 9);
    assert ReadWords(b, 16, 9) == Fields(sb);
    AllZeroIsZeros(b[HEADER_LEN..]);
    assert b[8..12] == Le32(FORMAT_VERSION) && b[12..16] == Le32(FORMAT_BLOCK_SIZE);
    assert b == b[0..8] + b[8..12] + b[12..16] + b[16..HEADER_LEN] + b[HEADER_LEN..];
  }
}
