/** Whole-table updates through the log: `transaction_image.rs`, `create_tx.rs`, `directory_tx.rs`. */
module MetadataTx {
  import opened Bytes
  import opened Blocks
  import opened Results
  import opened RecordStream
  import opened Format
  import opened Journal
  import opened JournalCodec
  import opened JournalRegion
  import opened Device
  import opened Crash
  import opened Wal
  import opened Journaled
  import opened Allocation
  import opened TableImage
  import Inodes = InodeTable
  import Dirs = DirectoryTable

  // ------------------------------------------------------------------------ changed blocks

  /** Writes that turn `blocks` into the desired image from block `lo` on, skipping equal blocks. */
  function Diff(blocks: seq<Block>, lo: nat, desired: seq<Block>): (ws: seq<HomeWrite>)
    requires lo + |desired| <= |blocks| < U64_LIMIT
    ensures forall i :: 0 <= i < |ws| ==> lo <= ws[i].block < lo + |desired|
  {
    if desired == [] then []
    else
      var n := |desired| - 1;
      Diff(blocks, lo, desired[..n]) + if blocks[lo + n] == desired[n] then [] else [HomeWrite(lo + n, desired[n])]
  }

  function Overlay(blocks: seq<Block>, lo: nat, desired: seq<Block>): (r: seq<Block>)
    requires lo + |desired| <= |blocks|
    ensures |r| == |blocks|
  {
    blocks[..lo] + desired + blocks[lo + |desired|..]
  }

  lemma OverlaySnoc(blocks: seq<Block>, lo: nat, desired: seq<Block>, d: Block)
    requires lo + |desired| < |blocks|
    ensures Overlay(blocks, lo, desired)[lo + |desired|] == blocks[lo + |desired|]
    ensures Overlay(blocks, lo, desired + [d]) == Overlay(blocks, lo, desired)[lo + |desired| := d]
  {
  }

  /** Applying the changed blocks gives exactly the desired image, and nothing else moves. */
  lemma {:induction false} DiffApplies(blocks: seq<Block>, lo: nat, desired: seq<Block>)
    requires lo + |desired| <= |blocks| < U64_LIMIT
    ensures Apply(blocks, Diff(blocks, lo, desired)) == Overlay(blocks, lo, desired)
    decreases |desired|
  {
    if desired == [] {
      assert Overlay(blocks, lo, desired) == blocks;
    } else {
      hide Overlay;
      var n := |desired| - 1;
      var ws, d := Diff(blocks, lo, desired[..n]), desired[n];
      DiffApplies(blocks, lo, desired[..n]);
      OverlaySnoc(blocks, lo, desired[..n], d);
      assert desired == desired[..n] + [d];
      if blocks[lo + n] == d {
        assert ws + [] == ws;
      } else {
        assert (ws + [HomeWrite(lo + n, d)])[..|ws|] == ws;
      }
    }
  }

  /** The writes are those of the blocks that differ, each to its desired image, in increasing order. */
  lemma {:induction false} DiffIsExact(blocks: seq<Block>, lo: nat, desired: seq<Block>, w: HomeWrite)
    requires lo + |desired| <= |blocks| < U64_LIMIT
    ensures w in Diff(blocks, lo, desired) <==>
            lo <= w.block < lo + |desired| && w.data == desired[w.block - lo] && blocks[w.block] != w.data
  {
    if desired != [] {
      hide Diff;
      var n := |desired| - 1;
      DiffIsExact(blocks, lo, desired[..n], w);
      DiffLast(blocks, lo, desired);
      assert lo <= w.block < lo + n ==> desired[..n][w.block - lo] == desired[w.block - lo];
    }
  }

  lemma DiffLast(blocks: seq<Block>, lo: nat, desired: seq<Block>)
    requires lo + |desired| <= |blocks| < U64_LIMIT && desired != []
    ensures var n := |desired| - 1;
            Diff(blocks, lo, desired) ==
              Diff(blocks, lo, desired[..n]) +
              if blocks[lo + n] == desired[n] then [] else [HomeWrite(lo + n, desired[n])]
  {
  }

  lemma {:induction false} DiffIncreases(blocks: seq<Block>, lo: nat, desired: seq<Block>)
    requires lo + |desired| <= |blocks| < U64_LIMIT
    ensures var ws := Diff(blocks, lo, desired); forall i, j :: 0 <= i < j < |ws| ==> ws[i].block < ws[j].block
  {
    if desired != [] {
      hide Diff;
      var most := Diff(blocks, lo, desired[..|desired| - 1]);
      DiffIncreases(blocks, lo, desired[..|desired| - 1]);
      DiffLast(blocks, lo, desired);
      assert forall i :: 0 <= i < |most| ==> most[i].block < lo + |desired| - 1;
    }
  }

  lemma {:induction false} DiffConcat(blocks: seq<Block>, lo: nat, a: seq<Block>, b: seq<Block>)
    requires lo + |a| + |b| <= |blocks| < U64_LIMIT
    ensures Diff(blocks, lo, a + b) == Diff(blocks, lo, a) + Diff(blocks, lo + |a|, b)
    decreases |b|
  {
    if b == [] {
      assert a + b == a;
    } else {
      var n := |b| - 1;
      DiffConcat(blocks, lo, a, b[..n]);
      assert (a + b)[..|a| + n] == a + b[..n];
    }
  }

  /** The in-memory device tables are rendered into before anything is published. */
  class CaptureDevice {
    var blocks: map<nat, Block>

    constructor ()
      ensures blocks == map[]
    {
      blocks := map[];
    }

    /** A table's blocks, tail first. */
    method WriteRegion(start: nat, image: seq<Block>)
      modifies this
      ensures HoldsImage(blocks, start, image)
      ensures forall b :: b in blocks <==> b in old(blocks) || start <= b < start + |image|
      ensures forall b :: b in old(blocks) && !(start <= b < start + |image|) ==> blocks[b] == old(blocks)[b]
    {
      var index := |image| - 1;
      while index >= 0
        invariant -1 <= index < |image|
        invariant forall b :: start + index < b < start + |image| ==> b in blocks && blocks[b] == image[b - start]
        invariant forall b :: b in blocks <==> b in old(blocks) || start + index < b < start + |image|
        invariant forall b :: b in old(blocks) && !(start <= b < start + |image|) ==> blocks[b] == old(blocks)[b]
      {
        blocks := blocks[start + index := image[index]];
        index := index - 1;
      }
    }

    /** Consumes the rendered blocks of a range, collecting those that differ from the device. */
    method CollectChangedRange(device: BlockDevice, lo: nat, hi: nat, changed: seq<HomeWrite>,
                               ghost desired: seq<Block>)
      returns (r: Result<seq<HomeWrite>>)
      requires device.Valid() && lo <= hi <= device.BlockCount() < U64_LIMIT
      modifies this
      ensures r.Ok? ==> forall b :: lo <= b < hi ==> b in old(blocks)
      ensures r.Ok? ==> forall b :: b in blocks <==> b in old(blocks) && !(lo <= b < hi)
      ensures r.Ok? ==> forall b :: b in blocks ==> blocks[b] == old(blocks)[b]
      ensures r.Ok? && device.disk.pending == [] && |desired| == hi - lo && HoldsImage(old(blocks), lo, desired) ==>
                r.value == changed + Diff(device.disk.durable, lo, desired)
      ensures !device.faulty && (forall b :: lo <= b < hi ==> b in old(blocks)) ==> r.Ok?
    {
      hide Diff, Run;
      var out := changed;
      var block := lo;
      ghost var durable := device.disk.durable;
      ghost var known := device.disk.pending == [] && |desired| == hi - lo && HoldsImage(blocks, lo, desired);
      if known {
        DiffNothing(durable, lo);
        assert desired[..0] == [] && changed + [] == changed;
      }
      while block < hi
        invariant lo <= block <= hi
        invariant forall b :: lo <= b < block ==> b in old(blocks)
        invariant forall b :: b in blocks <==> b in old(blocks) && !(lo <= b < block)
        invariant forall b :: b in blocks ==> blocks[b] == old(blocks)[b]
        invariant known ==> out == changed + Diff(durable, lo, desired[..block - lo])
      {
        if block !in blocks {
          return Err(InvalidData);
        }
        var want := blocks[block];
        blocks := blocks - {block};
        var current := device.ReadBlock(block);
        if current.Err? {
          return Err(Other);
        }
        if known {
          assert desired[block - lo] == want;
          DiffTurn(durable, lo, desired, block - lo, changed);
        }
        if current.value != want {
          out := out + [HomeWrite(block, want)];
        }
        block := block + 1;
      }
      assert known ==> desired[..hi - lo] == desired;
      return Ok(out);
    }
  }

  lemma DiffNothing(blocks: seq<Block>, lo: nat)
    requires lo <= |blocks| < U64_LIMIT
    ensures Diff(blocks, lo, []) == []
  {
  }

  lemma DiffTurn(blocks: seq<Block>, lo: nat, desired: seq<Block>, i: nat, changed: seq<HomeWrite>)
    requires lo + |desired| <= |blocks| < U64_LIMIT && i < |desired|
    ensures changed + Diff(blocks, lo, desired[..i + 1]) ==
            (changed + Diff(blocks, lo, desired[..i])) +
            if blocks[lo + i] == desired[i] then [] else [HomeWrite(lo + i, desired[i])]
  {
    assert desired[..i + 1][..i] == desired[..i];
  }

  predicate HoldsImage(m: map<nat, Block>, lo: nat, image: seq<Block>) {
    forall b :: lo <= b < lo + |image| ==> b in m && m[b] == image[b - lo]
  }

  // ------------------------------------------------------------------------ publishing an image

  /** The state transactions start from. */
  predicate Ready(crc: Checksum, sb: Superblock, d: Disk) {
    Mounted(sb, |d.durable|) && d.pending == [] && Quiescent(crc, sb, d.durable)
  }

  /** An attempt to bring the blocks outside the journal to the state `after`.  Whatever happened, a
      crash now leaves a disk that recovers to the state before, or to all of `after`; success means
      the latter, durably. */
  ghost predicate Settles(crc: Checksum, sb: Superblock, d0: Disk, d: Disk, after: seq<Block>, ok: bool)
    requires Ready(crc, sb, d0) && |d0.durable| == |d.durable|
  {
    && (Stands(crc, sb, d, Strip(sb, d0.durable)) || Stands(crc, sb, d, after))
    && (ok ==> Ready(crc, sb, d) && Strip(sb, d.durable) == after)
  }

  /** The blocks from `lo` on become `desired`, and no other block changes. */
  ghost predicate Atomic(crc: Checksum, sb: Superblock, d0: Disk, d: Disk, lo: nat, desired: seq<Block>, ok: bool)
    requires Ready(crc, sb, d0) && lo + |desired| <= |d0.durable| == |d.durable|
  {
    Settles(crc, sb, d0, d, Overlay(Strip(sb, d0.durable), lo, desired), ok)
  }

  lemma StripOverlay(sb: Superblock, blocks: seq<Block>, lo: nat, desired: seq<Block>)
    requires Mounted(sb, |blocks|) && sb.allocationStart <= lo && lo + |desired| <= |blocks|
    ensures Strip(sb, Overlay(blocks, lo, desired)) == Overlay(Strip(sb, blocks), lo, desired)
  {
    var a, b := Strip(sb, Overlay(blocks, lo, desired)), Overlay(Strip(sb, blocks), lo, desired);
    forall i | 0 <= i < |blocks| ensures a[i] == b[i] {
    }
  }

  lemma DiffIsHome(sb: Superblock, blocks: seq<Block>, lo: nat, desired: seq<Block>)
    requires Mounted(sb, |blocks|) && sb.allocationStart <= lo && lo + |desired| <= |blocks|
    ensures AllHome(sb, Diff(blocks, lo, desired)) && InRange(Diff(blocks, lo, desired), |blocks|)
    ensures Apply(Strip(sb, blocks), Diff(blocks, lo, desired)) == Overlay(Strip(sb, blocks), lo, desired)
  {
    hide Diff, Overlay, Apply, Strip;
    var ws := Diff(blocks, lo, desired);
    forall i | 0 <= i < |ws| ensures IsHome(sb, ws[i].block) {
      HomeIsTheRest(sb, ws[i].block);
    }
    StripApply(sb, blocks, ws);
    DiffApplies(blocks, lo, desired);
    StripOverlay(sb, blocks, lo, desired);
  }

  lemma QuiescentStands(crc: Checksum, sb: Superblock, blocks: seq<Block>)
    requires Mounted(sb, |blocks|) && Quiescent(crc, sb, blocks)
    ensures Stands(crc, sb, Disk(blocks, []), Strip(sb, blocks))
  {
    JournalPhaseStands(crc, sb, blocks, []);
  }

  /** Part-way through a published transaction is as good as before it or after it. */
  lemma PartwaySettles(crc: Checksum, sb: Superblock, boot: Disk, base: seq<Op>, log: seq<Op>,
                       changed: seq<HomeWrite>, checkpoint: bool, ok: bool)
    requires Sane(boot) && OpsFit(base, |boot.durable|) && OpsFit(log, |boot.durable|)
    requires Ready(crc, sb, Run(boot, base)) && Publishable(crc, sb, changed) && InRange(changed, |boot.durable|)
    requires Partway(base, log, TxOps(crc, sb, changed, checkpoint))
    requires ok ==> log == base + TxOps(crc, sb, changed, checkpoint)
    ensures Settles(crc, sb, Run(boot, base), Run(boot, log), Apply(Strip(sb, Run(boot, base).durable), changed), ok)
  {
    hide Run, Apply, Strip, Stands, Quiescent, TxOps, AllHome, Fits, TxEntries;
    var blocks := Run(boot, base).durable;
    var ops := TxOps(crc, sb, changed, checkpoint);
    CutTransaction(crc, sb, blocks, changed, checkpoint, 0);
    var k := PartwayRuns(boot, base, log, ops);
    CutTransaction(crc, sb, blocks, changed, checkpoint, k);
    assert Run(boot, base) == Disk(blocks, []);
    if ok {
      assert |ops| == k && ops[..k] == ops;
    }
  }

  /** One transaction of these writes fits the journal region. */
  predicate FitsJournal(crc: Checksum, sb: Superblock, changed: seq<HomeWrite>) {
    changed == [] || Fits(crc, Capacity(sb), TxEntries(changed))
  }

  /** A transaction of `n` blocks takes the region header, two bare records and `n` records with a block. */
  lemma JournalHolds(crc: Checksum, sb: Superblock, changed: seq<HomeWrite>)
    requires changed != []
    ensures FitsJournal(crc, sb, changed) <==>
            32 + 32 + |changed| * (32 + BLOCK_SIZE) + 32 <= sb.journalBlocks * BLOCK_SIZE < U64_LIMIT
  {
    TxSize(crc, changed);
  }

  lemma TxSize(crc: Checksum, changed: seq<HomeWrite>)
    ensures |EncodeStream(crc, TxEntries(changed))| == 32 + |changed| * (32 + BLOCK_SIZE) + 32
  {
    hide EncodeEntry;
    var started := OpenRecords(Txn(0, changed));
    OpenSize(crc, changed);
    var done := [Txn(0, changed)];
    assert done[..0] == [] && DoneLog(done) == DoneLog([]) + Records(done[0]);
    assert TxEntries(changed) == started + [Commit(0)];
    EncodeAllSnoc(Encoder(crc), started, Commit(0));
  }

  lemma {:induction false} OpenSize(crc: Checksum, changed: seq<HomeWrite>)
    ensures |EncodeStream(crc, OpenRecords(Txn(0, changed)))| == 32 + |changed| * (32 + BLOCK_SIZE)
  {
    hide EncodeEntry;
    var records := OpenRecords(Txn(0, changed));
    if changed == [] {
      assert records == [Begin(0)];
      EncodeAllSnoc(Encoder(crc), [], Begin(0));
    } else {
      var n := |changed| - 1;
      OpenSize(crc, changed[..n]);
      var last := Write(0, changed[n].block, changed[n].data);
      assert records == OpenRecords(Txn(0, changed[..n])) + [last];
      EncodeAllSnoc(Encoder(crc), OpenRecords(Txn(0, changed[..n])), last);
    }
  }

  /** Publishes changed home blocks as one transaction. */
  method PublishWrites(device: BlockDevice, crc: Checksum, sb: Superblock, changed: seq<HomeWrite>, checkpoint: bool)
    returns (r: Result<RecoveryReport>)
    requires device.Valid()
    modifies device
    ensures device.Valid() && device.BlockCount() == old(device.BlockCount())
    ensures Ready(crc, sb, old(device.disk)) && AllHome(sb, changed) && InRange(changed, device.BlockCount()) ==>
              Settles(crc, sb, old(device.disk), device.disk, Apply(Strip(sb, old(device.disk).durable), changed),
                  r.Ok?)
    ensures Ready(crc, sb, old(device.disk)) && AllHome(sb, changed) && !device.faulty &&
            FitsJournal(crc, sb, changed) ==>
              r.Ok?
    ensures Ready(crc, sb, old(device.disk)) && !AllHome(sb, changed) ==> r.Err? && device.disk == old(device.disk)
  {
    hide Run, Strip, Settles, Quiescent, TxOps, Fits, TxEntries, Apply;
    ghost var d0, base := device.disk, device.log;
    r := Publish(device, crc, sb, changed, checkpoint);
    if Ready(crc, sb, d0) && AllHome(sb, changed) && InRange(changed, |d0.durable|) {
      NothingSettles(crc, sb, d0, Apply(Strip(sb, d0.durable), changed));
      if changed == [] {
        ApplyNothing(Strip(sb, d0.durable));
      } else if Publishable(crc, sb, changed) {
        PartwaySettles(crc, sb, device.boot, base, device.log, changed, checkpoint, r.Ok?);
      }
    }
  }

  lemma NothingSettles(crc: Checksum, sb: Superblock, d: Disk, after: seq<Block>)
    requires Ready(crc, sb, d)
    ensures Settles(crc, sb, d, d, after, after == Strip(sb, d.durable))
    ensures Settles(crc, sb, d, d, after, false)
  {
    QuiescentStands(crc, sb, d.durable);
  }

  lemma ApplyNothing(blocks: seq<Block>)
    ensures Apply(blocks, []) == blocks
  {
  }

  /** Publishes the changed blocks of an image. */
  method PublishImage(device: BlockDevice, crc: Checksum, sb: Superblock, changed: seq<HomeWrite>, checkpoint: bool,
                      ghost lo: nat, ghost desired: seq<Block>)
    returns (r: Result<RecoveryReport>)
    requires device.Valid()
    modifies device
    ensures device.Valid() && device.BlockCount() == old(device.BlockCount())
    ensures Ready(crc, sb, old(device.disk)) && sb.allocationStart <= lo && lo + |desired| <= device.BlockCount() &&
            changed == Diff(old(device.disk).durable, lo, desired) ==>
              && Atomic(crc, sb, old(device.disk), device.disk, lo, desired, r.Ok?)
              && (!device.faulty && FitsJournal(crc, sb, changed) ==> r.Ok?)
  {
    hide Run, Diff, Strip, Settles, Quiescent, Overlay, AllHome, Apply, FitsJournal;
    ghost var d0 := device.disk;
    if Ready(crc, sb, d0) && sb.allocationStart <= lo && lo + |desired| <= |d0.durable| {
      DiffIsHome(sb, d0.durable, lo, desired);
    }
    r := PublishWrites(device, crc, sb, changed, checkpoint);
  }

  // ------------------------------------------------------------------------ the three tables

  /** Allocation, inodes and directory entries, as one snapshot. */
  datatype Metadata = Metadata(owned: seq<bool>, inodes: seq<Inodes.Inode>, entries: seq<Dirs.DirEntry>)

  predicate Renderable(crc: Checksum, sb: Superblock, m: Metadata) {
    && ValidGeometry(sb)
    && |m.owned| == sb.totalBlocks && ValidOwned(m.owned, ReservedBlocks(sb))
    && Encodable(Inodes.InodeFormat(crc), sb.inodeBlocks * BLOCK_SIZE, m.inodes)
    && Encodable(Dirs.DirectoryFormat(crc), sb.directoryBlocks * BLOCK_SIZE, m.entries)
  }

  function OwnedImage(crc: Checksum, sb: Superblock, owned: seq<bool>): (bs: seq<Block>)
    requires ValidGeometry(sb) && |owned| == sb.totalBlocks
    ensures |bs| == sb.allocationBlocks
  {
    Chunks(AllocImage(crc, sb, BitmapOf(BitmapLen(sb), owned, |owned|)), sb.allocationBlocks)
  }

  function InodeImage(crc: Checksum, sb: Superblock, inodes: seq<Inodes.Inode>): (bs: seq<Block>)
    requires Encodable(Inodes.InodeFormat(crc), sb.inodeBlocks * BLOCK_SIZE, inodes)
    ensures |bs| == sb.inodeBlocks
  {
    Chunks(Image(crc, Inodes.InodeFormat(crc), sb.inodeBlocks * BLOCK_SIZE, inodes), sb.inodeBlocks)
  }

  function EntryImage(crc: Checksum, sb: Superblock, entries: seq<Dirs.DirEntry>): (bs: seq<Block>)
    requires Encodable(Dirs.DirectoryFormat(crc), sb.directoryBlocks * BLOCK_SIZE, entries)
    ensures |bs| == sb.directoryBlocks
  {
    Chunks(Image(crc, Dirs.DirectoryFormat(crc), sb.directoryBlocks * BLOCK_SIZE, entries), sb.directoryBlocks)
  }

  function MetaImage(crc: Checksum, sb: Superblock, m: Metadata): (bs: seq<Block>)
    requires Renderable(crc, sb, m)
    ensures |bs| == sb.allocationBlocks + sb.inodeBlocks + sb.directoryBlocks
  {
    OwnedImage(crc, sb, m.owned) + InodeImage(crc, sb, m.inodes) + EntryImage(crc, sb, m.entries)
  }

  function Slice(blocks: seq<Block>, lo: nat, n: nat): (s: seq<byte>)
    requires lo + n <= |blocks|
  {
    Flatten(blocks[lo..lo + n])
  }

  /** The table in the `n` blocks from `start` on, unless its byte length overflows. */
  function LoadTable<T, K(==)>(crc: Checksum, f: TableFormat<T, K>, blocks: seq<Block>, start: nat,
                          n: nat): (r: Result<seq<T>>)
    requires start + n <= |blocks|
  {
    if n * BLOCK_SIZE >= U64_LIMIT then Err(InvalidInput) else Parse(crc, f, Slice(blocks, start, n))
  }

  /** `load_allocator`, `load_inode_table` and `load_directory_table`. */
  function LoadMetadata(crc: Checksum, sb: Superblock, blocks: seq<Block>): (r: Result<Metadata>)
    requires ValidGeometry(sb) && |blocks| == sb.totalBlocks
  {
    var owned :- LoadOwned(crc, sb, Slice(blocks, sb.allocationStart, sb.allocationBlocks));
    var inodes :- LoadTable(crc, Inodes.InodeFormat(crc), blocks, sb.inodeStart, sb.inodeBlocks);
    var entries :- LoadTable(crc, Dirs.DirectoryFormat(crc), blocks, sb.directoryStart, sb.directoryBlocks);
    Ok(Metadata(owned, inodes, entries))
  }

  lemma OwnedImageLoads(crc: Checksum, sb: Superblock, owned: seq<bool>)
    requires ValidGeometry(sb) && |owned| == sb.totalBlocks && ValidOwned(owned, ReservedBlocks(sb))
    ensures LoadOwned(crc, sb, Flatten(OwnedImage(crc, sb, owned))) == Ok(owned)
  {
    hide AllocImage, LoadOwned, BitmapOf;
    var bitmap := BitmapOf(BitmapLen(sb), owned, |owned|);
    var image := AllocImage(crc, sb, bitmap);
    BitmapOfMarks(sb, owned);
    OwnedRoundTrips(crc, sb, owned, bitmap);
    FlattenChunks(image, sb.allocationBlocks);
    assert image[..sb.allocationBlocks * BLOCK_SIZE] == image;
  }

  lemma InodeImageLoads(crc: Checksum, sb: Superblock, inodes: seq<Inodes.Inode>)
    requires Encodable(Inodes.InodeFormat(crc), sb.inodeBlocks * BLOCK_SIZE, inodes)
    ensures Parse(crc, Inodes.InodeFormat(crc), Flatten(InodeImage(crc, sb, inodes))) == Ok(inodes)
  {
    hide Parse, Image, Encodable;
    var f, n := Inodes.InodeFormat(crc), sb.inodeBlocks;
    var image := Image(crc, f, n * BLOCK_SIZE, inodes);
    Inodes.FormatSound(crc);
    ParseImage(crc, f, n * BLOCK_SIZE, inodes);
    FlattenChunks(image, n);
    assert image[..n * BLOCK_SIZE] == image;
  }

  lemma EntryImageLoads(crc: Checksum, sb: Superblock, entries: seq<Dirs.DirEntry>)
    requires Encodable(Dirs.DirectoryFormat(crc), sb.directoryBlocks * BLOCK_SIZE, entries)
    ensures Parse(crc, Dirs.DirectoryFormat(crc), Flatten(EntryImage(crc, sb, entries))) == Ok(entries)
  {
    hide Parse, Image, Encodable;
    var f, n := Dirs.DirectoryFormat(crc), sb.directoryBlocks;
    var image := Image(crc, f, n * BLOCK_SIZE, entries);
    Dirs.FormatSound(crc);
    ParseImage(crc, f, n * BLOCK_SIZE, entries);
    FlattenChunks(image, n);
    assert image[..n * BLOCK_SIZE] == image;
  }

  /** With the image of a snapshot in place, the three loaders return the snapshot. */
  lemma MetaImageLoads(crc: Checksum, sb: Superblock, blocks: seq<Block>, m: Metadata)
    requires Renderable(crc, sb, m) && |blocks| == sb.totalBlocks
    ensures LoadMetadata(crc, sb, Overlay(blocks, sb.allocationStart, MetaImage(crc, sb, m))) == Ok(m)
  {
    hide LoadOwned, Parse, OwnedImage, InodeImage, EntryImage, Flatten, Encodable;
    RegionTooLarge(Inodes.InodeFormat(crc), sb.inodeBlocks * BLOCK_SIZE, m.inodes);
    RegionTooLarge(Dirs.DirectoryFormat(crc), sb.directoryBlocks * BLOCK_SIZE, m.entries);
    var after := Overlay(blocks, sb.allocationStart, MetaImage(crc, sb, m));
    var a, b, c := OwnedImage(crc, sb, m.owned), InodeImage(crc, sb, m.inodes), EntryImage(crc, sb, m.entries);
    assert after[sb.allocationStart..sb.allocationStart + sb.allocationBlocks] == a;
    assert after[sb.inodeStart..sb.inodeStart + sb.inodeBlocks] == b;
    assert after[sb.directoryStart..sb.directoryStart + sb.directoryBlocks] == c;
    OwnedImageLoads(crc, sb, m.owned);
    InodeImageLoads(crc, sb, m.inodes);
    EntryImageLoads(crc, sb, m.entries);
  }

  /** The journal plays no part in what the loaders see. */
  lemma LoadIgnoresJournal(crc: Checksum, sb: Superblock, blocks: seq<Block>)
    requires Mounted(sb, |blocks|)
    ensures LoadMetadata(crc, sb, Strip(sb, blocks)) == LoadMetadata(crc, sb, blocks)
  {
    hide LoadOwned, Parse, Flatten, Strip;
    var s := Strip(sb, blocks);
    StripOutside(sb, blocks);
    SameSlice(s, blocks, sb.allocationStart, sb.allocationBlocks);
    SameSlice(s, blocks, sb.inodeStart, sb.inodeBlocks);
    SameSlice(s, blocks, sb.directoryStart, sb.directoryBlocks);
  }

  lemma StripOutside(sb: Superblock, blocks: seq<Block>)
    requires Mounted(sb, |blocks|)
    ensures |Strip(sb, blocks)| == |blocks|
    ensures forall i :: sb.allocationStart <= i < |blocks| ==> Strip(sb, blocks)[i] == blocks[i]
  {
  }

  lemma SameSlice(a: seq<Block>, b: seq<Block>, lo: nat, n: nat)
    requires |a| == |b| && lo + n <= |a|
    requires forall i :: lo <= i < lo + n ==> a[i] == b[i]
    ensures a[lo..lo + n] == b[lo..lo + n]
  {
  }

  /** The capture holds exactly `image`, from block `lo` on. */
  ghost predicate HoldsExactly(m: map<nat, Block>, lo: nat, image: seq<Block>) {
    HoldsImage(m, lo, image) && forall b :: b in m <==> lo <= b < lo + |image|
  }

  /** `store_allocator` into the capture. */
  method RenderOwned(capture: CaptureDevice, crc: Checksum, sb: Superblock, owned: seq<bool>) returns (ok: bool)
    requires ValidGeometry(sb) && capture.blocks == map[]
    modifies capture
    ensures ok <==> |owned| == sb.totalBlocks && ValidOwned(owned, ReservedBlocks(sb))
    ensures ok ==> HoldsExactly(capture.blocks, sb.allocationStart, OwnedImage(crc, sb, owned))
  {
    if |owned| != sb.totalBlocks || !ValidOwned(owned, ReservedBlocks(sb)) {
      return false;
    }
    var bitmap := BuildBitmap(sb, owned);
    capture.WriteRegion(sb.allocationStart, Chunks(AllocImage(crc, sb, bitmap), sb.allocationBlocks));
    return true;
  }

  /** `store_inode_table` and `store_directory_table` into the capture, after what it holds. */
  method RenderTable<T(!new), K(==, !new)>(capture: CaptureDevice, crc: Checksum, f: TableFormat<T, K>, xs: seq<T>,
                                            start: nat, n: nat, ghost lo: nat, ghost held: seq<Block>)
    returns (ok: bool)
    requires Sound(f) && lo + |held| == start && HoldsExactly(capture.blocks, lo, held)
    modifies capture
    ensures ok <==> Encodable(f, n * BLOCK_SIZE, xs)
    ensures ok ==> HoldsExactly(capture.blocks, lo, held + Chunks(Image(crc, f, n * BLOCK_SIZE, xs), n))
  {
    hide Encodable, Image, Parse;
    RegionTooLarge(f, n * BLOCK_SIZE, xs);
    if n * BLOCK_SIZE >= U64_LIMIT {
      return false;
    }
    var image := EncodeTable(crc, f, n * BLOCK_SIZE, xs);
    if image.Err? {
      return false;
    }
    capture.WriteRegion(start, Chunks(image.value, n));
    return true;
  }

  lemma RegionTooLarge<T, K>(f: TableFormat<T, K>, capacity: nat, xs: seq<T>)
    ensures capacity >= U64_LIMIT ==> !Encodable(f, capacity, xs)
  {
  }

  /** Renders the three tables; fails when one of them cannot be encoded in its region. */
  method RenderMetadata(capture: CaptureDevice, crc: Checksum, sb: Superblock, m: Metadata) returns (ok: bool)
    requires ValidGeometry(sb) && capture.blocks == map[]
    modifies capture
    ensures ok <==> Renderable(crc, sb, m)
    ensures ok ==> HoldsExactly(capture.blocks, sb.allocationStart, MetaImage(crc, sb, m))
  {
    hide Encodable, Image, AllocImage, Parse, Chunks, HoldsImage, BitmapOf;
    ok := RenderOwned(capture, crc, sb, m.owned);
    if !ok {
      return;
    }
    ghost var a := OwnedImage(crc, sb, m.owned);
    Inodes.FormatSound(crc);
    ok := RenderTable(capture, crc, Inodes.InodeFormat(crc), m.inodes, sb.inodeStart, sb.inodeBlocks,
        sb.allocationStart, a);
    if !ok {
      return;
    }
    ghost var b := InodeImage(crc, sb, m.inodes);
    Dirs.FormatSound(crc);
    ok := RenderTable(capture, crc, Dirs.DirectoryFormat(crc), m.entries, sb.directoryStart, sb.directoryBlocks,
        sb.allocationStart, a + b);
  }

  /** Compares the next `n` rendered blocks with the device; the rest stays in the capture. */
  method CollectRegion(capture: CaptureDevice, device: BlockDevice, lo: nat, n: nat, changed: seq<HomeWrite>,
                       ghost image: seq<Block>)
    returns (r: Result<seq<HomeWrite>>)
    requires device.Valid() && n <= |image| && lo + |image| <= device.BlockCount() < U64_LIMIT
    requires HoldsExactly(capture.blocks, lo, image)
    modifies capture
    ensures r.Ok? ==> HoldsExactly(capture.blocks, lo + n, image[n..])
    ensures r.Ok? && device.disk.pending == [] ==> r.value == changed + Diff(device.disk.durable, lo, image[..n])
    ensures !device.faulty ==> r.Ok?
  {
    hide Diff, Run;
    r := capture.CollectChangedRange(device, lo, lo + n, changed, image[..n]);
  }

  lemma DiffSplit(blocks: seq<Block>, lo: nat, n: nat, image: seq<Block>, changed: seq<HomeWrite>)
    requires n <= |image| && lo + |image| <= |blocks| < U64_LIMIT
    ensures changed + Diff(blocks, lo, image) ==
              (changed + Diff(blocks, lo, image[..n])) + Diff(blocks, lo + n, image[n..])
  {
    hide Diff;
    DiffConcat(blocks, lo, image[..n], image[n..]);
    assert image == image[..n] + image[n..];
  }

  /** Compares all three regions with the device, in order, and leaves the capture empty. */
  method CollectMetadata(capture: CaptureDevice, device: BlockDevice, sb: Superblock, ghost image: seq<Block>)
    returns (r: Result<seq<HomeWrite>>)
    requires device.Valid() && ValidGeometry(sb) && device.BlockCount() == sb.totalBlocks
    requires |image| == sb.allocationBlocks + sb.inodeBlocks + sb.directoryBlocks
    requires HoldsExactly(capture.blocks, sb.allocationStart, image)
    modifies capture
    ensures r.Ok? ==> capture.blocks == map[]
    ensures r.Ok? && device.disk.pending == [] ==> r.value == Diff(device.disk.durable, sb.allocationStart, image)
    ensures !device.faulty ==> r.Ok?
  {
    hide Diff, Run, HoldsImage;
    ghost var n1: nat, n2: nat := sb.allocationBlocks, sb.inodeBlocks;
    ghost var rest, last := image[n1..], image[n1..][n2..];
    r := CollectRegion(capture, device, sb.allocationStart, sb.allocationBlocks, [], image);
    if r.Err? {
      return;
    }
    DiffSplit(device.disk.durable, sb.allocationStart, n1, image, []);
    r := CollectRegion(capture, device, sb.inodeStart, sb.inodeBlocks, r.value, rest);
    if r.Err? {
      return;
    }
    DiffSplit(device.disk.durable, sb.inodeStart, n2, rest,
        [] + Diff(device.disk.durable, sb.allocationStart, image[..n1]));
    r := CollectRegion(capture, device, sb.directoryStart, sb.directoryBlocks, r.value, last);
    assert last[..sb.directoryBlocks] == last && last[sb.directoryBlocks..] == [];
    assert [] + Diff(device.disk.durable, sb.allocationStart, image) ==
        Diff(device.disk.durable, sb.allocationStart, image);
  }

  /** `store_create_metadata_journaled`: allocation, inodes and directory change together or not
      at all, whatever step the device fails or loses power at. */
  method StoreCreateMetadata(device: BlockDevice, crc: Checksum, sb: Superblock, m: Metadata)
    returns (r: Result<RecoveryReport>)
    requires device.Valid() && ValidGeometry(sb)
    modifies device
    ensures device.Valid() && device.BlockCount() == old(device.BlockCount())
    ensures !Renderable(crc, sb, m) ==> r.Err? && device.log == old(device.log)
    ensures Renderable(crc, sb, m) && Ready(crc, sb, old(device.disk)) ==>
              Atomic(crc, sb, old(device.disk), device.disk, sb.allocationStart, MetaImage(crc, sb, m), r.Ok?)
    ensures Renderable(crc, sb, m) && Ready(crc, sb, old(device.disk)) && r.Ok? ==>
              LoadMetadata(crc, sb, device.disk.durable) == Ok(m)
    ensures Renderable(crc, sb, m) && Ready(crc, sb, old(device.disk)) && !device.faulty ==>
              FitsJournal(crc, sb, Diff(old(device.disk).durable, sb.allocationStart, MetaImage(crc, sb, m))) ==> r.Ok?
  {
    hide Diff, Run, Renderable, MetaImage, Overlay, Atomic, LoadMetadata, FitsJournal;
    if device.BlockCount() != sb.totalBlocks {
      return Err(InvalidInput);
    }
    ghost var d0 := device.disk;
    var capture := new CaptureDevice();
    var ok := RenderMetadata(capture, crc, sb, m);
    if !ok {
      return Err(InvalidInput);
    }
    var changed := CollectMetadata(capture, device, sb, MetaImage(crc, sb, m));
    if changed.Err? {
      if Ready(crc, sb, d0) {
        UntouchedIsAtomic(crc, sb, d0, sb.allocationStart, MetaImage(crc, sb, m));
      }
      return Err(changed.kind);
    }
    // The capture is empty: nothing was rendered outside the three regions.
    r := PublishImage(device, crc, sb, changed.value, true, sb.allocationStart, MetaImage(crc, sb, m));
    if Ready(crc, sb, d0) && r.Ok? {
      LoadsAfter(crc, sb, d0, device.disk, m);
    }
  }

  lemma UntouchedIsAtomic(crc: Checksum, sb: Superblock, d: Disk, lo: nat, desired: seq<Block>)
    requires Ready(crc, sb, d) && lo + |desired| <= |d.durable|
    ensures Atomic(crc, sb, d, d, lo, desired, false)
  {
    QuiescentStands(crc, sb, d.durable);
  }

  lemma LoadsAfter(crc: Checksum, sb: Superblock, d0: Disk, d: Disk, m: Metadata)
    requires Ready(crc, sb, d0) && Renderable(crc, sb, m) && |d.durable| == |d0.durable|
    requires Atomic(crc, sb, d0, d, sb.allocationStart, MetaImage(crc, sb, m), true)
    ensures LoadMetadata(crc, sb, d.durable) == Ok(m)
  {
    hide LoadMetadata, MetaImage, Overlay, Strip, Stands, Renderable;
    MetaImageLoads(crc, sb, Strip(sb, d0.durable), m);
    LoadIgnoresJournal(crc, sb, d.durable);
  }

  /** `store_directory_table_journaled`: the same for the directory table alone, leaving the
      applied transaction in the journal. */
  method StoreDirectoryTable(device: BlockDevice, crc: Checksum, sb: Superblock, entries: seq<Dirs.DirEntry>)
    returns (r: Result<RecoveryReport>)
    requires device.Valid() && ValidGeometry(sb)
    modifies device
    ensures device.Valid() && device.BlockCount() == old(device.BlockCount())
    ensures var fits := Encodable(Dirs.DirectoryFormat(crc), sb.directoryBlocks * BLOCK_SIZE, entries);
            && (!fits ==> r.Err? && device.log == old(device.log))
            && (fits && Ready(crc, sb, old(device.disk)) ==>
                  && Atomic(crc, sb, old(device.disk), device.disk, sb.directoryStart, EntryImage(crc, sb, entries),
                      r.Ok?)
                  && var changed := Diff(old(device.disk).durable, sb.directoryStart, EntryImage(crc, sb, entries));
                     !device.faulty && FitsJournal(crc, sb, changed) ==> r.Ok?)
  {
    hide Diff, Run, Overlay, Atomic, Encodable, Image, Parse, FitsJournal;
    RegionTooLarge(Dirs.DirectoryFormat(crc), sb.directoryBlocks * BLOCK_SIZE, entries);
    if device.BlockCount() != sb.totalBlocks || sb.directoryBlocks * BLOCK_SIZE >= U64_LIMIT {
      return Err(InvalidInput);
    }
    ghost var d0 := device.disk;
    Dirs.FormatSound(crc);
    var image := EncodeTable(crc, Dirs.DirectoryFormat(crc), sb.directoryBlocks * BLOCK_SIZE, entries);
    if image.Err? {
      return Err(InvalidInput);
    }
    var desired := Chunks(image.value, sb.directoryBlocks);
    var capture := new CaptureDevice();
    capture.WriteRegion(sb.directoryStart, desired);
    var changed := capture.CollectChangedRange(device, sb.directoryStart, ReservedBlocks(sb), [], desired);
    if changed.Err? {
      if Ready(crc, sb, d0) {
        UntouchedIsAtomic(crc, sb, d0, sb.directoryStart, desired);
      }
      return Err(changed.kind);
    }
    assert d0.pending == [] ==>
        [] + Diff(d0.durable, sb.directoryStart, desired) == Diff(d0.durable, sb.directoryStart, desired);
    r := PublishImage(device, crc, sb, changed.value, false, sb.directoryStart, desired);
  }
}
