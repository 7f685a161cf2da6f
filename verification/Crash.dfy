/** What a crash can leave on disk, and what recovery makes of it. */
module Crash {
  import opened Bytes
  import opened Blocks
  import opened Results
  import opened Format
  import opened Journal
  import opened JournalRegion
  import opened Device

  /** `validate_region` and `region_capacity`. */
  predicate RegionOk(sb: Superblock, count: nat) {
    && sb.totalBlocks == count
    && sb.journalStart == SUPERBLOCK_BLOCK + 1 && sb.journalBlocks > 0
    && sb.journalStart + sb.journalBlocks <= sb.totalBlocks
    && sb.journalBlocks * BLOCK_SIZE < U64_LIMIT
  }

  function Capacity(sb: Superblock): nat {
    sb.journalBlocks * BLOCK_SIZE
  }

  /** A superblock the constructors make, describing a device of `count` blocks. */
  predicate Mounted(sb: Superblock, count: nat) {
    ValidGeometry(sb) && RegionOk(sb, count)
  }

  /** Every superblock the constructors make is mounted on a device of its size, if the journal's size in bytes
      fits 64 bits. */
  lemma ValidIsMounted(sb: Superblock, count: nat)
    requires ValidGeometry(sb)
    ensures Mounted(sb, count) <==> sb.totalBlocks == count && sb.journalBlocks * BLOCK_SIZE < U64_LIMIT
    ensures sb.totalBlocks == count && count * BLOCK_SIZE < U64_LIMIT ==> Mounted(sb, count)
  {
  }

  function Region(sb: Superblock, blocks: seq<Block>): (r: seq<Block>)
    requires RegionOk(sb, |blocks|)
    ensures |r| == sb.journalBlocks
  {
    blocks[sb.journalStart..sb.journalStart + sb.journalBlocks]
  }

  function Load(crc: Checksum, sb: Superblock, blocks: seq<Block>): (r: Result<seq<Entry>>)
    ensures r.Ok? ==> Admissible(sb, r.value)
  {
    if !RegionOk(sb, |blocks|) then Err(InvalidInput)
    else LoadRegion(crc, sb, Flatten(Region(sb, blocks)))
  }

  // ------------------------------------------------------------------------ the abstract state

  /** The blocks without the journal. */
  function Strip(sb: Superblock, blocks: seq<Block>): (r: seq<Block>)
    ensures |r| == |blocks|
  {
    seq(|blocks|, i requires 0 <= i < |blocks| => if InJournal(sb, i) then ZERO_BLOCK else blocks[i])
  }

  /** The state a disk stands for: its home blocks once the committed transactions of its journal
      are replayed. */
  function Abs(crc: Checksum, sb: Superblock, blocks: seq<Block>): (r: seq<Block>)
    requires Mounted(sb, |blocks|) && Load(crc, sb, blocks).Ok?
    ensures |r| == |blocks|
  {
    var ws := Committed(Load(crc, sb, blocks).value);
    HomeInRange(sb, Load(crc, sb, blocks).value);
    Apply(Strip(sb, blocks), ws)
  }

  lemma HomeInRange(sb: Superblock, es: seq<Entry>)
    requires ValidGeometry(sb) && Admissible(sb, es)
    ensures AllHome(sb, Committed(es)) && InRange(Committed(es), sb.totalBlocks)
  {
    CommittedAreHome(sb, es);
    forall i | 0 <= i < |Committed(es)| ensures Committed(es)[i].block < sb.totalBlocks {
      HomeIsTheRest(sb, Committed(es)[i].block);
    }
  }

  /** Home already shows what the journal would replay. */
  predicate Quiescent(crc: Checksum, sb: Superblock, blocks: seq<Block>)
    requires Mounted(sb, |blocks|)
  {
    Load(crc, sb, blocks).Ok? && Abs(crc, sb, blocks) == Strip(sb, blocks)
  }

  /** What power loss may leave: queued journal writes are gone, and of the queued home writes any
      subset has landed, in any order. */
  ghost predicate CrashImage(sb: Superblock, d: Disk, c: seq<Block>) {
    && |c| == |d.durable|
    && forall b :: 0 <= b < |c| ==>
         c[b] == d.durable[b] || (IsHome(sb, b) && LandedFrom(d.pending, b, c[b]))
  }

  ghost predicate LandedFrom(ws: seq<HomeWrite>, block: nat, data: Block) {
    exists i :: 0 <= i < |ws| && ws[i].block == block && ws[i].data == data
  }

  // ------------------------------------------------------------------------ home writes

  predicate SameJournal(sb: Superblock, a: seq<Block>, b: seq<Block>) {
    |a| == |b| && forall i :: 0 <= i < |a| && InJournal(sb, i) ==> a[i] == b[i]
  }

  lemma SameJournalLoads(crc: Checksum, sb: Superblock, a: seq<Block>, b: seq<Block>)
    requires SameJournal(sb, a, b)
    ensures Load(crc, sb, a) == Load(crc, sb, b)
  {
    if RegionOk(sb, |a|) {
      assert Region(sb, a) == Region(sb, b);
    }
  }

  /** `c` differs from `blocks` only where `ws` writes. */
  predicate Within(blocks: seq<Block>, ws: seq<HomeWrite>, c: seq<Block>) {
    |c| == |blocks| && forall b :: 0 <= b < |c| && !Touches(ws, b) ==> c[b] == blocks[b]
  }

  /** Replaying `ws` erases whatever had happened to the blocks it writes. */
  lemma ReplayForgets(blocks: seq<Block>, ws: seq<HomeWrite>, c: seq<Block>)
    requires InRange(ws, |blocks|) && Within(blocks, ws, c)
    ensures Apply(c, ws) == Apply(blocks, ws)
  {
    forall b | 0 <= b < |c| ensures Apply(c, ws)[b] == Apply(blocks, ws)[b] {
      ApplyAt(c, ws, b);
      ApplyAt(blocks, ws, b);
    }
  }

  lemma ApplyWithin(blocks: seq<Block>, ws: seq<HomeWrite>)
    requires InRange(ws, |blocks|)
    ensures Within(blocks, ws, Apply(blocks, ws))
  {
    forall b | 0 <= b < |blocks| && !Touches(ws, b) ensures Apply(blocks, ws)[b] == blocks[b] {
      ApplyAt(blocks, ws, b);
    }
  }

  lemma StripApply(sb: Superblock, blocks: seq<Block>, ws: seq<HomeWrite>)
    requires Mounted(sb, |blocks|) && AllHome(sb, ws) && InRange(ws, |blocks|)
    ensures Strip(sb, Apply(blocks, ws)) == Apply(Strip(sb, blocks), ws)
    ensures SameJournal(sb, blocks, Apply(blocks, ws))
  {
    forall b | 0 <= b < |blocks|
      ensures Strip(sb, Apply(blocks, ws))[b] == Apply(Strip(sb, blocks), ws)[b]
      ensures InJournal(sb, b) ==> Apply(blocks, ws)[b] == blocks[b]
    {
      ApplyAt(blocks, ws, b);
      ApplyAt(Strip(sb, blocks), ws, b);
      HomeIsTheRest(sb, b);
    }
  }

  /** A disk differing from `blocks` only where the committed writes of their common journal go
      stands for the same state. */
  lemma SameAbs(crc: Checksum, sb: Superblock, blocks: seq<Block>, c: seq<Block>)
    requires Mounted(sb, |blocks|) && Load(crc, sb, blocks).Ok?
    requires Within(blocks, Committed(Load(crc, sb, blocks).value), c)
    ensures Load(crc, sb, c) == Load(crc, sb, blocks)
    ensures Abs(crc, sb, c) == Abs(crc, sb, blocks)
  {
    var es := Load(crc, sb, blocks).value;
    var ws := Committed(es);
    HomeInRange(sb, es);
    forall b | 0 <= b < |c| && InJournal(sb, b) ensures blocks[b] == c[b] {
      HomeIsTheRest(sb, b);
    }
    SameJournalLoads(crc, sb, blocks, c);
    ReplayForgets(Strip(sb, blocks), ws, Strip(sb, c));
  }

  /** The blocks one uninterrupted recovery pass leaves. */
  function Replayed(crc: Checksum, sb: Superblock, blocks: seq<Block>): (r: seq<Block>)
    requires Mounted(sb, |blocks|) && Load(crc, sb, blocks).Ok?
    ensures |r| == |blocks|
  {
    HomeInRange(sb, Load(crc, sb, blocks).value);
    Apply(blocks, Committed(Load(crc, sb, blocks).value))
  }

  /** The blocks as the home map that `replay_into` works on. */
  function HomeMap(blocks: seq<Block>): map<u64, Block>
    requires |blocks| < U64_LIMIT
  {
    map b: u64 | b < |blocks| :: blocks[b]
  }

  /** Replaying onto the blocks and onto their map come to the same. */
  lemma {:induction false} ApplyIsApplyMap(blocks: seq<Block>, ws: seq<HomeWrite>)
    requires InRange(ws, |blocks|) && |blocks| < U64_LIMIT
    ensures HomeMap(Apply(blocks, ws)) == ApplyMap(HomeMap(blocks), ws)
  {
    if ws == [] {
    } else {
      var most, last := ws[..|ws| - 1], ws[|ws| - 1];
      ApplyIsApplyMap(blocks, most);
      assert HomeMap(Apply(blocks, most)[last.block := last.data]) ==
          HomeMap(Apply(blocks, most))[last.block := last.data];
    }
  }

  lemma LandedTouches(ws: seq<HomeWrite>, k: nat, block: nat, data: Block)
    requires k <= |ws| && LandedFrom(ws[..k], block, data)
    ensures Touches(ws, block)
  {
    var i :| 0 <= i < k && ws[..k][i].block == block;
    assert ws[i].block == block;
  }

  /** Any part of a recovery pass may have landed: the journal loads unchanged, the state is the
      same, and a fresh recovery ends where one uninterrupted pass would have, which is where
      `replay_into` takes the home blocks. */
  lemma PartialReplay(crc: Checksum, sb: Superblock, blocks: seq<Block>, ws: seq<HomeWrite>, k: nat, c: seq<Block>)
    requires Mounted(sb, |blocks|) && Load(crc, sb, blocks).Ok?
    requires ws == Committed(Load(crc, sb, blocks).value) && k <= |ws|
    requires CrashImage(sb, Disk(blocks, ws[..k]), c)
    ensures Load(crc, sb, c) == Load(crc, sb, blocks)
    ensures Abs(crc, sb, c) == Abs(crc, sb, blocks)
    ensures Replayed(crc, sb, c) == Replayed(crc, sb, blocks)
    ensures |blocks| < U64_LIMIT && HomeMap(Replayed(crc, sb, c)) == ApplyMap(HomeMap(blocks), ws)
  {
    HomeInRange(sb, Load(crc, sb, blocks).value);
    ApplyIsApplyMap(blocks, ws);
    forall b | 0 <= b < |c| && c[b] != blocks[b] ensures Touches(ws, b) {
      LandedTouches(ws, k, b, c[b]);
    }
    SameAbs(crc, sb, blocks, c);
    ReplayForgets(blocks, ws, c);
  }

  /** A completed replay leaves the disk quiescent, in the state it stood for. */
  lemma FullReplay(crc: Checksum, sb: Superblock, blocks: seq<Block>)
    requires Mounted(sb, |blocks|) && Load(crc, sb, blocks).Ok?
    ensures var after := Replayed(crc, sb, blocks);
            && Load(crc, sb, after) == Load(crc, sb, blocks)
            && Quiescent(crc, sb, after)
            && Abs(crc, sb, blocks) == Strip(sb, after)
  {
    var ws := Committed(Load(crc, sb, blocks).value);
    HomeInRange(sb, Load(crc, sb, blocks).value);
    ApplyWithin(blocks, ws);
    SameAbs(crc, sb, blocks, Replayed(crc, sb, blocks));
    StripApply(sb, blocks, ws);
  }

  // ------------------------------------------------------------------------ journal writes

  /** The writes of `store_journal_image`: tail blocks first, the header block last. */
  function StoreWrites(sb: Superblock, region: seq<byte>): (ws: seq<HomeWrite>)
    requires RegionOk(sb, sb.totalBlocks) && |region| == Capacity(sb)
    ensures |ws| == sb.journalBlocks
  {
    var n := sb.journalBlocks;
    seq(n, k requires 0 <= k < n => HomeWrite(sb.journalStart + (n - 1 - k), Chunk(region, n - 1 - k)))
  }

  /** The writes of `checkpoint_journal`. */
  function CheckpointWrites(sb: Superblock): (ws: seq<HomeWrite>)
    requires RegionOk(sb, sb.totalBlocks)
    ensures |ws| == sb.journalBlocks
  {
    seq(sb.journalBlocks, k requires 0 <= k < sb.journalBlocks => HomeWrite(sb.journalStart + k, ZERO_BLOCK))
  }

  predicate AllJournal(sb: Superblock, ws: seq<HomeWrite>) {
    forall i :: 0 <= i < |ws| ==> InJournal(sb, ws[i].block)
  }

  /** Queued journal writes do not survive a crash. */
  lemma JournalQueueLost(sb: Superblock, blocks: seq<Block>, ws: seq<HomeWrite>, c: seq<Block>)
    requires Mounted(sb, |blocks|) && AllJournal(sb, ws)
    requires CrashImage(sb, Disk(blocks, ws), c)
    ensures c == blocks
  {
    forall b | 0 <= b < |c| ensures c[b] == blocks[b] {
      HomeIsTheRest(sb, b);
    }
  }

  /** Flushing a full set of journal writes installs their image and nothing else. */
  lemma JournalInstalled(sb: Superblock, blocks: seq<Block>, ws: seq<HomeWrite>, image: seq<Block>)
    requires Mounted(sb, |blocks|) && AllJournal(sb, ws) && InRange(ws, |blocks|)
    requires |image| == sb.journalBlocks
    requires forall b: nat | InJournal(sb, b) :: Touches(ws, b)
    requires forall i | 0 <= i < |ws| :: ws[i].data == image[ws[i].block - sb.journalStart]
    ensures Region(sb, Apply(blocks, ws)) == image
    ensures Strip(sb, Apply(blocks, ws)) == Strip(sb, blocks)
  {
    var after := Apply(blocks, ws);
    forall b | 0 <= b < |blocks|
      ensures after[b] == if InJournal(sb, b) then image[b - sb.journalStart] else blocks[b]
    {
      InstalledAt(sb, blocks, ws, image, b);
    }
    hide Apply;
    assert Strip(sb, after) == Strip(sb, blocks);
    forall i | 0 <= i < sb.journalBlocks ensures Region(sb, after)[i] == image[i] {
      assert Region(sb, after)[i] == after[sb.journalStart + i];
    }
  }

  lemma InstalledAt(sb: Superblock, blocks: seq<Block>, ws: seq<HomeWrite>, image: seq<Block>, b: nat)
    requires Mounted(sb, |blocks|) && AllJournal(sb, ws) && InRange(ws, |blocks|) && b < |blocks|
    requires |image| == sb.journalBlocks
    requires forall b: nat | InJournal(sb, b) :: Touches(ws, b)
    requires forall i | 0 <= i < |ws| :: ws[i].data == image[ws[i].block - sb.journalStart]
    ensures Apply(blocks, ws)[b] == if InJournal(sb, b) then image[b - sb.journalStart] else blocks[b]
  {
    ApplyAt(blocks, ws, b);
    assert !InJournal(sb, b) ==> !Touches(ws, b);
  }

  lemma StoreInstalls(crc: Checksum, sb: Superblock, blocks: seq<Block>, es: seq<Entry>)
    requires Mounted(sb, |blocks|) && Admissible(sb, es) && Fits(crc, Capacity(sb), es)
    ensures var ws := StoreWrites(sb, RegionImage(crc, Capacity(sb), es));
            && AllJournal(sb, ws) && InRange(ws, |blocks|)
            && Load(crc, sb, Apply(blocks, ws)) == Ok(es)
            && Strip(sb, Apply(blocks, ws)) == Strip(sb, blocks)
  {
    hide RegionImage, LoadRegion, Apply, Strip, Flatten, Chunks, StoreWrites, Region, AllJournal, InRange, Fits;
    var region := RegionImage(crc, Capacity(sb), es);
    var n := sb.journalBlocks;
    StoreWritesRegion(sb, blocks, region);
    FlattenChunks(region, n);
    assert region[..n * BLOCK_SIZE] == region;
    LoadStored(crc, sb, Capacity(sb), es);
  }

  /** Storing a region writes each of its blocks, and nothing else. */
  lemma StoreWritesRegion(sb: Superblock, blocks: seq<Block>, region: seq<byte>)
    requires Mounted(sb, |blocks|) && |region| == Capacity(sb)
    ensures var ws := StoreWrites(sb, region);
            && AllJournal(sb, ws) && InRange(ws, |blocks|)
            && Region(sb, Apply(blocks, ws)) == Chunks(region, sb.journalBlocks)
            && Strip(sb, Apply(blocks, ws)) == Strip(sb, blocks)
  {
    hide Apply, Strip, Region, Chunk;
    var n := sb.journalBlocks;
    var ws := StoreWrites(sb, region);
    forall b: nat | InJournal(sb, b) ensures Touches(ws, b) {
      assert ws[n - 1 - (b - sb.journalStart)].block == b;
    }
    JournalInstalled(sb, blocks, ws, Chunks(region, n));
  }

  lemma CheckpointInstalls(crc: Checksum, sb: Superblock, blocks: seq<Block>)
    requires Mounted(sb, |blocks|)
    ensures var ws := CheckpointWrites(sb);
            && AllJournal(sb, ws) && InRange(ws, |blocks|)
            && Load(crc, sb, Apply(blocks, ws)) == Ok([])
            && Strip(sb, Apply(blocks, ws)) == Strip(sb, blocks)
  {
    hide LoadRegion;
    var ws := CheckpointWrites(sb);
    var image := seq(sb.journalBlocks, _ => ZERO_BLOCK);
    forall b: nat | InJournal(sb, b) ensures Touches(ws, b) {
      assert ws[b - sb.journalStart].block == b;
    }
    JournalInstalled(sb, blocks, ws, image);
    BlankLoads(crc, sb, image);
  }

  lemma {:induction false} FlattenZero(bs: seq<Block>)
    requires forall i | 0 <= i < |bs| :: bs[i] == ZERO_BLOCK
    ensures AllZero(Flatten(bs))
  {
    if bs != [] {
      FlattenZero(bs[..|bs| - 1]);
    }
  }

  lemma BlankLoads(crc: Checksum, sb: Superblock, image: seq<Block>)
    requires image != [] && forall i | 0 <= i < |image| :: image[i] == ZERO_BLOCK
    ensures LoadRegion(crc, sb, Flatten(image)) == Ok([])
  {
    FlattenZero(image);
  }
}
