/** A write to a file that reaches the tables: the smallest volume on which `write_file_blocks_journaled`
    succeeds and the metadata no longer loads as it did. */
module TableWrite {
  import opened Bytes
  import opened Blocks
  import opened Results
  import opened RecordStream
  import opened Format
  import opened Journal
  import opened JournalCodec
  import opened JournalRegion
  import opened Device
  import opened Crash
  import opened Wal
  import opened Journaled
  import opened InodeTable
  import opened MetadataTx
  import opened Rename
  import opened FileOps
  import opened FileRange
  import Dirs = DirectoryTable

  /** Sixteen blocks; the directory table is block 6. */
  const TINY: Superblock := Superblock(16, 1, 3, 4, 1, 5, 1, 6, 1)

  /** One file, which lists the block of the directory table. */
  const LISTED: Metadata := Metadata(seq(16, _ => false), [Inode(2, File, [6])], [])

  lemma TinyIsMounted()
    ensures Mounted(TINY, 16) && ReservedBlocks(TINY) == 7
  {
    assert RequiredAllocationBlocks(16) == Ok(1);
  }

  lemma ListedIsRenderable(crc: Checksum)
    ensures Renderable(crc, TINY, LISTED)
  {
    hide EncodeInode;
    TinyIsMounted();
    var f := InodeFormat(crc);
    assert ValidInode(LISTED.inodes[0]);
    assert f.enc(LISTED.inodes[0]) == EncodeInode(crc, LISTED.inodes[0]);
    assert EncodeAll(f.enc, LISTED.inodes) == f.enc(LISTED.inodes[0]) + EncodeAll(f.enc, LISTED.inodes[1..]);
    EncodeNothing(f.enc);
    EncodeNothing(Dirs.DirectoryFormat(crc).enc);
  }

  /** Begin, one write, commit: two blocks and no more. */
  lemma OneWriteFits(crc: Checksum, w: HomeWrite)
    ensures FitsJournal(crc, TINY, [w])
  {
    hide EncodeEntry;
    var es, t := TxEntries([w]), Txn(0, [w]);
    assert [t][..0] == [] && DoneLog([t]) == DoneLog([]) + Records(t);
    assert es == [Begin(0), Write(0, w.block, w.data), Commit(0)];
    var enc := Encoder(crc);
    assert es[1..] == [es[1], es[2]] && es[1..][1..] == [es[2]] && es[1..][1..][1..] == [];
    EncodeNothing(enc);
    assert |EncodeAll(enc, [es[2]])| == HEADER_SIZE;
    assert |EncodeAll(enc, [es[1], es[2]])| == HEADER_SIZE + BLOCK_SIZE + HEADER_SIZE;
    assert |EncodeStream(crc, es)| == 3 * HEADER_SIZE + BLOCK_SIZE;
  }

  /** The blank device with the tables of `LISTED` on it. */
  function TinyBlocks(crc: Checksum): (g: seq<Block>)
    ensures |g| == 16
  {
    TinyIsMounted();
    ListedIsRenderable(crc);
    Overlay(seq(16, _ => ZERO_BLOCK), 4, MetaImage(crc, TINY, LISTED))
  }

  lemma TinyIsReady(crc: Checksum)
    ensures Ready(crc, TINY, Disk(TinyBlocks(crc), [])) && LoadMetadata(crc, TINY, TinyBlocks(crc)) == Ok(LISTED)
  {
    hide MetaImage, Renderable, LoadMetadata, LoadRegion, Flatten;
    TinyIsMounted();
    ListedIsRenderable(crc);
    MetaImageLoads(crc, TINY, seq(16, _ => ZERO_BLOCK), LISTED);
    var g := TinyBlocks(crc);
    var region := Region(TINY, g);
    assert |region| == 3 && forall i :: 0 <= i < 3 ==> region[i] == ZERO_BLOCK;
    BlankLoads(crc, TINY, region);
    EmptyJournalQuiescent(crc, TINY, g);
  }

  /** Another block than this. */
  function Other(b: Block): (r: Block)
    ensures r != b
  {
    if b != ZERO_BLOCK then ZERO_BLOCK
    else
      var r: Block := seq(BLOCK_SIZE, _ => 1);
      assert r[0] != ZERO_BLOCK[0];
      r
  }

  lemma ListedFile()
    ensures IsKind(LISTED.inodes, 2, File) && BlocksOf(LISTED, 2) == [6] && Resolve(TINY, LISTED, 2, 0) == Ok(6)
  {
    TinyIsMounted();
    assert FindInode(LISTED.inodes, 2) == Some(0) by {
      assert LISTED.inodes[..0] == [];
    }
  }

  /** The one home write of the batch, in the directory table. */
  lemma OneTarget(g: seq<Block>, image: Block)
    requires |g| == 16 && image != g[6]
    ensures Targets([6], [BlockWrite(0, image)]) == [HomeWrite(6, image)]
    ensures Differing(g, [HomeWrite(6, image)]) == [HomeWrite(6, image)]
    ensures AllHome(TINY, [HomeWrite(6, image)]) && !AllData(TINY, [HomeWrite(6, image)])
  {
    TinyIsMounted();
    var w := HomeWrite(6, image);
    assert [w][..0] == [] && Differing(g, []) == [];
    assert [w][0] == w && IsHome(TINY, 6) && !IsData(TINY, 6);
  }

  /** On any disk with these tables the batch is accepted, and the tables do not survive it. */
  lemma BatchReachesTable(crc: Checksum, g: seq<Block>, image: Block)
    requires ValidGeometry(TINY) && |g| == 16 && LoadMetadata(crc, TINY, g) == Ok(LISTED) && image != g[6]
    ensures LoadMetadata(crc, TINY, Apply(g, [HomeWrite(6, image)])) != Ok(LISTED)
    ensures BatchFits(crc, TINY, LISTED, g, 2, [BlockWrite(0, image)])
  {
    hide LoadMetadata, FitsJournal, Differing, Targets, AllHome, AllData, Resolve, FindInode, IsKind, BlocksOf;
    TinyIsMounted();
    ListedFile();
    OneTarget(g, image);
    OneWriteFits(crc, HomeWrite(6, image));
    BatchKeepsTables(crc, TINY, g, LISTED, 2, [BlockWrite(0, image)]);
  }

  /** The write itself: it succeeds on a device without faults, and the tables do not survive it. */
  method WriteReachesTables(crc: Checksum) returns (r: Result<RecoveryReport>, before: seq<Block>, after: seq<Block>)
    ensures |before| == |after| == TINY.totalBlocks && ValidGeometry(TINY)
    ensures LoadMetadata(crc, TINY, before) == Ok(LISTED)
    ensures r.Ok? && LoadMetadata(crc, TINY, after) != Ok(LISTED)
  {
    hide TinyBlocks, LoadMetadata, Other, Apply, Strip, Differing, Targets, BatchFits, Quiescent, Stands, Run, Resolve,
      FindInode, AllHome, IsKind, BlocksOf;
    TinyIsMounted();
    TinyIsReady(crc);
    before := TinyBlocks(crc);
    ListedFile();
    OneTarget(before, Other(before[6]));
    BatchReachesTable(crc, before, Other(before[6]));
    var device := new BlockDevice(before, false);
    var writes := [BlockWrite(0, Other(before[6]))];
    r := WriteFileBlocks(device, crc, TINY, 2, writes);
    after := device.disk.durable;
    ghost var changed := [HomeWrite(6, Other(before[6]))];
    StripApply(TINY, before, changed);
    LoadIgnoresJournal(crc, TINY, after);
    LoadIgnoresJournal(crc, TINY, Apply(before, changed));
  }
}
