/** Byte ranges of files (`file_data.rs`, `file_overwrite_batch.rs`, `file_range_read.rs`,
    `file_copy_range.rs`): a file is one flat byte sequence. */
module FileRange {
  import opened Bytes
  import opened Blocks
  import opened Results
  import opened Sequences
  import opened Format
  import opened JournalRegion
  import opened Device
  import opened Crash
  import opened Journaled
  import opened Allocation
  import opened TableImage
  import opened InodeTable
  import Dirs = DirectoryTable
  import opened MetadataTx
  import opened Fsck
  import opened Volume
  import opened Rename
  import opened Ownership
  import opened FileOps

  // ------------------------------------------------------------------------ ranges of blocks

  /** `div_ceil` by the block size: the blocks a range of `n` bytes can reach into. */
  function Span(n: nat): (count: nat)
    ensures n <= count * BLOCK_SIZE < n + BLOCK_SIZE
  {
    (n + BLOCK_SIZE - 1) / BLOCK_SIZE
  }

  /** Bytes handled after `rel` blocks of a range starting at `offset` in its first block. */
  function Done(offset: nat, len: nat, rel: nat): (n: nat)
    requires offset < BLOCK_SIZE
    ensures n <= len
  {
    if rel == 0 then 0 else if rel * BLOCK_SIZE - offset < len then rel * BLOCK_SIZE - offset else len
  }

  lemma DoneStep(offset: nat, len: nat, rel: nat)
    requires offset < BLOCK_SIZE && rel < Span(offset + len)
    ensures var begin := if rel == 0 then offset else 0;
            var left := len - Done(offset, len, rel);
            var take := if BLOCK_SIZE - begin < left then BLOCK_SIZE - begin else left;
            && rel * BLOCK_SIZE + begin == offset + Done(offset, len, rel)
            && Done(offset, len, rel + 1) == Done(offset, len, rel) + take
  {
  }

  lemma DoneAll(offset: nat, len: nat)
    requires offset < BLOCK_SIZE
    ensures Done(offset, len, Span(offset + len)) == len
  {
  }

  /** A slice inside one block of a flat file. */
  lemma SliceOfBlock(bs: seq<Block>, i: nat, begin: nat, take: nat)
    requires i < |bs| && begin + take <= BLOCK_SIZE
    ensures i * BLOCK_SIZE + begin + take <= |Flatten(bs)|
    ensures Flatten(bs)[i * BLOCK_SIZE + begin..i * BLOCK_SIZE + begin + take] == bs[i][begin..begin + take]
  {
    FlattenAt(bs, i);
    var f := Flatten(bs);
    assert f[i * BLOCK_SIZE..(i + 1) * BLOCK_SIZE][begin..begin + take] ==
        f[i * BLOCK_SIZE + begin..i * BLOCK_SIZE + begin + take];
  }

  /** The part of block `i` a range write replaces. */
  lemma PatchedBlock(f: seq<byte>, pos: nat, data: seq<byte>, i: nat, begin: nat, take: nat, done: nat)
    requires (i + 1) * BLOCK_SIZE <= |f| && pos + |data| <= |f| && begin + take <= BLOCK_SIZE && done + take <= |data|
    requires i * BLOCK_SIZE + begin == pos + done && (done == 0 || begin == 0)
    requires begin + take == BLOCK_SIZE || done + take == |data|
    ensures Chunk(Splice(f, pos, data), i) == Splice(Chunk(f, i), begin, data[done..done + take])
  {
    var a, b := Chunk(Splice(f, pos, data), i), Splice(Chunk(f, i), begin, data[done..done + take]);
    forall x | 0 <= x < BLOCK_SIZE ensures a[x] == b[x] {
      assert a[x] == Splice(f, pos, data)[i * BLOCK_SIZE + x];
    }
  }

  lemma UnpatchedBlock(f: seq<byte>, pos: nat, data: seq<byte>, i: nat)
    requires (i + 1) * BLOCK_SIZE <= |f| && pos + |data| <= |f|
    requires (i + 1) * BLOCK_SIZE <= pos || pos + |data| <= i * BLOCK_SIZE
    ensures Chunk(Splice(f, pos, data), i) == Chunk(f, i)
  {
    var a, b := Chunk(Splice(f, pos, data), i), Chunk(f, i);
    forall x | 0 <= x < BLOCK_SIZE ensures a[x] == b[x] {
      assert a[x] == Splice(f, pos, data)[i * BLOCK_SIZE + x] && b[x] == f[i * BLOCK_SIZE + x];
    }
  }

  // ------------------------------------------------------------------------ resolving blocks

  /** `resolve_owned_file_block` on loaded tables. */
  function Resolve(sb: Superblock, m: Metadata, id: u64, index: nat): (r: Result<u64>) {
    if !IsKind(m.inodes, id, File) then Err(InvalidInput)
    else
      var blocks := m.inodes[FindInode(m.inodes, id).value].blocks;
      if index >= |blocks| then Err(InvalidInput)
      else if blocks[index] >= |m.owned|
          || (blocks[index] >= ReservedBlocks(sb) && !m.owned[blocks[index]]) then Err(InvalidData)
      else Ok(blocks[index])
  }

  /** The device has the size the superblock says, no write is queued, and its tables load. */
  ghost predicate Readable(device: BlockDevice, crc: Checksum, sb: Superblock)
    requires ValidGeometry(sb)
    reads device
  {
    && device.BlockCount() == sb.totalBlocks && device.disk.pending == []
    && LoadMetadata(crc, sb, device.disk.durable).Ok?
  }

  /** What was found, given what the tables say; nothing is found on a device of another size. */
  ghost predicate Found<T>(device: BlockDevice, crc: Checksum, sb: Superblock, r: Result<T>,
                           expected: (Metadata, seq<Block>) -> Result<T>)
    requires ValidGeometry(sb)
    reads device
  {
    && (device.BlockCount() != sb.totalBlocks ==> r.Err?)
    && (Readable(device, crc, sb) ==>
          var e := expected(LoadMetadata(crc, sb, device.disk.durable).value, device.disk.durable);
          (r.Ok? ==> r == e) && (r.Err? ==> device.faulty || e.Err?))
  }

  method ResolveBlock(device: BlockDevice, crc: Checksum, sb: Superblock, id: u64, index: nat) returns (r: Result<u64>)
    requires device.Valid() && ValidGeometry(sb)
    ensures r.Ok? ==> r.value < device.BlockCount()
    ensures Found(device, crc, sb, r, (m, g) => Resolve(sb, m, id, index))
  {
    hide Run, LoadMetadata, StoredInodes, StoredEntries, StoredOwned, FindInode;
    if device.BlockCount() != sb.totalBlocks {
      return Err(InvalidInput);
    }
    LoadedParts(crc, sb, device.disk.durable);
    var inodes := LoadInodes(device, crc, sb);
    if inodes.Err? {
      return Err(inodes.kind);
    }
    if !IsKind(inodes.value, id, File) {
      return Err(InvalidInput);
    }
    var blocks := inodes.value[FindInode(inodes.value, id).value].blocks;
    if index >= |blocks| {
      return Err(InvalidInput);
    }
    var owned, a := LoadAllocator(device, crc, sb);
    if owned.Err? {
      return Err(owned.kind);
    }
    var claimed := a.IsOwned(blocks[index]);
    if claimed.Err? || !claimed.value {
      return Err(InvalidData);
    }
    return Ok(blocks[index]);
  }

  /** One logical block of a file. */
  function BlockOf(sb: Superblock, m: Metadata, g: seq<Block>, id: u64, index: nat): (r: Result<Block>) {
    var b :- Resolve(sb, m, id, index);
    if b < |g| then Ok(g[b]) else Err(Other)
  }

  method ReadFileBlock(device: BlockDevice, crc: Checksum, sb: Superblock, id: u64, index: nat)
    returns (r: Result<Block>)
    requires device.Valid() && ValidGeometry(sb)
    ensures Found(device, crc, sb, r, (m, g) => BlockOf(sb, m, g, id, index))
  {
    hide Run, LoadMetadata, Resolve;
    var block := ResolveBlock(device, crc, sb, id, index);
    if block.Err? {
      return Err(block.kind);
    }
    r := device.ReadBlock(block.value);
  }

  // ------------------------------------------------------------------------ reading

  /** Every block of a range resolves. */
  predicate RangeOk(sb: Superblock, m: Metadata, id: u64, first: nat, offset: nat, len: nat) {
    && len > 0 && offset < BLOCK_SIZE
    && forall i :: first <= i < first + Span(offset + len) ==> Resolve(sb, m, id, i).Ok?
  }

  function BlocksOf(m: Metadata, id: u64): seq<u64>
    requires IsKind(m.inodes, id, File)
  {
    m.inodes[FindInode(m.inodes, id).value].blocks
  }

  /** A file as one byte sequence. */
  function FileBytes(m: Metadata, g: seq<Block>, id: u64): (f: seq<byte>)
    requires IsKind(m.inodes, id, File)
    ensures |f| == |BlocksOf(m, id)| * BLOCK_SIZE
  {
    Flatten(Contents(g, BlocksOf(m, id)))
  }

  lemma RangeFits(sb: Superblock, m: Metadata, g: seq<Block>, id: u64, first: nat, offset: nat, len: nat)
    requires RangeOk(sb, m, id, first, offset, len)
    ensures IsKind(m.inodes, id, File) && first + Span(offset + len) <= |BlocksOf(m, id)|
    ensures first * BLOCK_SIZE + offset + len <= |FileBytes(m, g, id)|
    ensures forall i :: first <= i < first + Span(offset + len) ==> BlocksOf(m, id)[i] < |m.owned|
  {
    hide FindInode, Flatten;
    assert Resolve(sb, m, id, first + Span(offset + len) - 1).Ok?;
    forall i | first <= i < first + Span(offset + len) ensures BlocksOf(m, id)[i] < |m.owned| {
      assert Resolve(sb, m, id, i).Ok?;
    }
  }

  /** What a range read returns on a settled volume. */
  function RangeOf(sb: Superblock, m: Metadata, g: seq<Block>, id: u64, first: nat, offset: nat,
                   len: nat): (r: Result<seq<byte>>) {
    if !RangeOk(sb, m, id, first, offset, len) then Err(InvalidInput)
    else
      RangeFits(sb, m, g, id, first, offset, len);
      Ok(FileBytes(m, g, id)[first * BLOCK_SIZE + offset..first * BLOCK_SIZE + offset + len])
  }

  /** `read_file_range`: exactly the slice, or an error when a block of the range does not resolve. */
  method ReadFileRange(device: BlockDevice, crc: Checksum, sb: Superblock, id: u64, first: nat, offset: nat, len: nat)
    returns (r: Result<seq<byte>>)
    requires device.Valid() && ValidGeometry(sb)
    ensures Found(device, crc, sb, r, (m, g) => RangeOf(sb, m, g, id, first, offset, len))
  {
    hide Run, LoadMetadata, Resolve, Flatten, FindInode, IsKind, Contents, Done, Span, BlocksOf, FileBytes, BlockOf;
    if len == 0 || offset >= BLOCK_SIZE {
      return Err(InvalidInput);
    }
    ghost var known := Readable(device, crc, sb);
    ghost var m := if known then LoadMetadata(crc, sb, device.disk.durable).value else Metadata([], [], []);
    ghost var g := device.disk.durable;
    if known {
      LoadedShape(crc, sb, g, id);
    }
    ghost var file := known && IsKind(m.inodes, id, File);
    ghost var f := if file then FileBytes(m, g, id) else [];
    var pos := first * BLOCK_SIZE + offset;
    var output: seq<byte> := [];
    var count := Span(offset + len);
    var rel := 0;
    NothingDone(offset, len);
    SpanPositive(offset, len);
    while rel < count
      invariant 0 <= rel <= count && |output| == Done(offset, len, rel)
      invariant known ==> forall i :: first <= i < first + rel ==> Resolve(sb, m, id, i).Ok?
      invariant (known && rel > 0 ==> file) && (rel > 0 ==> device.BlockCount() == sb.totalBlocks)
      invariant file && output != [] ==> pos + |output| <= |f| && output == f[pos..pos + |output|]
    {
      BlockNeeds(sb, m, g, id, first + rel);
      NotAFile(sb, m, id, first + rel);
      if file {
        ResolvedReads(sb, m, g, id, first + rel);
      }
      var image := ReadFileBlock(device, crc, sb, id, first + rel);
      if image.Err? {
        return Err(image.kind);
      }
      DoneStep(offset, len, rel);
      var begin := if rel == 0 then offset else 0;
      var left := len - |output|;
      var take := if BLOCK_SIZE - begin < left then BLOCK_SIZE - begin else left;
      if file {
        ReadTurn(sb, m, g, id, first + rel, begin, take, pos, output);
      }
      output := output + image.value[begin..begin + take];
      rel := rel + 1;
    }
    DoneAll(offset, len);
    return Ok(output);
  }

  /** Loaded tables describe as many blocks as there are, and list no block of a file twice. */
  lemma LoadedShape(crc: Checksum, sb: Superblock, g: seq<Block>, id: u64)
    requires ValidGeometry(sb) && |g| == sb.totalBlocks && LoadMetadata(crc, sb, g).Ok?
    ensures var m := LoadMetadata(crc, sb, g).value;
            |m.owned| == |g| && (IsKind(m.inodes, id, File) ==> NoRepeats(BlocksOf(m, id)))
  {
    hide LoadMetadata, FindInode;
    LoadedIsRenderable(crc, sb, g);
    var m := LoadMetadata(crc, sb, g).value;
    if IsKind(m.inodes, id, File) {
      assert InodeFormat(crc).valid(m.inodes[FindInode(m.inodes, id).value]);
    }
  }

  lemma BlockNeeds(sb: Superblock, m: Metadata, g: seq<Block>, id: u64, index: nat)
    ensures BlockOf(sb, m, g, id, index).Ok? ==> Resolve(sb, m, id, index).Ok?
  {
  }

  lemma SpanPositive(offset: nat, len: nat)
    requires len > 0
    ensures Span(offset + len) > 0
  {
  }

  lemma NothingDone(offset: nat, len: nat)
    requires offset < BLOCK_SIZE
    ensures Done(offset, len, 0) == 0
  {
  }

  lemma ResolvedReads(sb: Superblock, m: Metadata, g: seq<Block>, id: u64, index: nat)
    requires IsKind(m.inodes, id, File) && |m.owned| == |g|
    ensures BlockOf(sb, m, g, id, index).Ok? <==> Resolve(sb, m, id, index).Ok?
    ensures BlockOf(sb, m, g, id, index).Ok? ==>
              index < |BlocksOf(m, id)| && BlockOf(sb, m, g, id, index).value == Contents(g, BlocksOf(m, id))[index]
  {
  }

  lemma ReadTurn(sb: Superblock, m: Metadata, g: seq<Block>, id: u64, index: nat, begin: nat, take: nat, pos: nat,
                 output: seq<byte>)
    requires IsKind(m.inodes, id, File) && BlockOf(sb, m, g, id, index).Ok? && begin + take <= BLOCK_SIZE
    requires index * BLOCK_SIZE + begin == pos + |output|
    requires output != [] ==>
               pos + |output| <= |FileBytes(m, g, id)| && output == FileBytes(m, g, id)[pos..pos + |output|]
    ensures pos + |output| + take <= |FileBytes(m, g, id)|
    ensures output + BlockOf(sb, m, g, id, index).value[begin..begin + take] ==
              FileBytes(m, g, id)[pos..pos + |output| + take]
  {
    hide FindInode, Flatten;
    var blocks := BlocksOf(m, id);
    SliceOfBlock(Contents(g, blocks), index, begin, take);
  }

  /** On a consistent volume the blocks of a file resolve, each to itself, and nothing else does. */
  lemma ResolveIsExact(sb: Superblock, m: Metadata, id: u64, index: nat, b: u64)
    requires FsckOk(sb, m)
    ensures Resolve(sb, m, id, index) == Ok(b) <==>
            exists k: nat :: FileAt(m, k, id) && index < |m.inodes[k].blocks| && m.inodes[k].blocks[index] == b
  {
    hide FindInode, NamespaceOk, OwnershipOk, KindMap;
    FileIsFound(m, id);
    if IsKind(m.inodes, id, File) {
      var k := FoundFile(m, id);
      InVolume(sb, m, k);
    }
  }

  /** A range of at least one byte, inside a file. */
  predicate InFile(m: Metadata, k: nat, id: u64, first: nat, offset: nat, len: nat) {
    && FileAt(m, k, id) && len > 0 && offset < BLOCK_SIZE
    && first * BLOCK_SIZE + offset + len <= |m.inodes[k].blocks| * BLOCK_SIZE
  }

  function BytesAt(m: Metadata, g: seq<Block>, k: nat): (f: seq<byte>)
    requires k < |m.inodes|
    ensures |f| == |m.inodes[k].blocks| * BLOCK_SIZE
  {
    Flatten(Contents(g, m.inodes[k].blocks))
  }

  lemma RangeOkIsExact(sb: Superblock, m: Metadata, id: u64, first: nat, offset: nat, len: nat)
    requires FsckOk(sb, m)
    ensures RangeOk(sb, m, id, first, offset, len) <==> exists k: nat :: InFile(m, k, id, first, offset, len)
    ensures forall k: nat :: FileAt(m, k, id) ==> IsKind(m.inodes, id, File) && BlocksOf(m, id) == m.inodes[k].blocks
  {
    hide FindInode, NamespaceOk, OwnershipOk, KindMap, Resolve;
    FileIsFound(m, id);
    if IsKind(m.inodes, id, File) {
      var k := FoundFile(m, id);
      forall i | first <= i < first + Span(offset + len)
        ensures Resolve(sb, m, id, i).Ok? <==> i < |m.inodes[k].blocks|
      {
        Resolves(sb, m, k, id, i);
      }
      if RangeOk(sb, m, id, first, offset, len) {
        assert Resolve(sb, m, id, first + Span(offset + len) - 1).Ok?;
        assert InFile(m, k, id, first, offset, len);
      }
    } else {
      RangeNeeds(sb, m, id, first, offset, len);
    }
  }

  lemma Resolves(sb: Superblock, m: Metadata, k: nat, id: u64, index: nat)
    requires FsckOk(sb, m) && FileAt(m, k, id)
    ensures Resolve(sb, m, id, index).Ok? <==> index < |m.inodes[k].blocks|
  {
    hide FsckOk, Resolve;
    if index < |m.inodes[k].blocks| {
      ResolveIsExact(sb, m, id, index, m.inodes[k].blocks[index]);
    } else if Resolve(sb, m, id, index).Ok? {
      ResolveIsExact(sb, m, id, index, Resolve(sb, m, id, index).value);
      OneFile(sb, m, id, k);
    }
  }

  lemma OneFile(sb: Superblock, m: Metadata, id: u64, k: nat)
    requires FsckOk(sb, m) && FileAt(m, k, id)
    ensures forall j: nat :: FileAt(m, j, id) ==> j == k
  {
    hide FindInode, NamespaceOk, OwnershipOk, KindMap;
    FileIsFound(m, id);
  }

  /** On a consistent volume a read is refused exactly when the range is empty or not inside a file; otherwise it
      returns that range of the file. */
  lemma RangeIsExact(sb: Superblock, m: Metadata, g: seq<Block>, id: u64, first: nat, offset: nat, len: nat,
                     bytes: seq<byte>)
    requires FsckOk(sb, m)
    ensures RangeOf(sb, m, g, id, first, offset, len) == Ok(bytes) <==>
            exists k: nat ::
              && InFile(m, k, id, first, offset, len)
              && bytes == BytesAt(m, g, k)[first * BLOCK_SIZE + offset..first * BLOCK_SIZE + offset + len]
  {
    hide FindInode, FsckOk, Resolve, RangeOk, Flatten, Contents, IsKind;
    RangeOkIsExact(sb, m, id, first, offset, len);
    if RangeOk(sb, m, id, first, offset, len) {
      var k: nat :| InFile(m, k, id, first, offset, len);
      OneFile(sb, m, id, k);
    }
  }

  // ------------------------------------------------------------------------ overwriting blocks

  datatype BlockWrite = BlockWrite(index: nat, image: Block)

  predicate DistinctIndices(writes: seq<BlockWrite>) {
    forall i, j :: 0 <= i < j < |writes| ==> writes[i].index != writes[j].index
  }

  predicate BatchOk(sb: Superblock, m: Metadata, id: u64, writes: seq<BlockWrite>) {
    && writes != [] && DistinctIndices(writes)
    && forall i :: 0 <= i < |writes| ==> Resolve(sb, m, id, writes[i].index).Ok?
  }

  /** The home writes of a batch. */
  function Targets(blocks: seq<u64>, writes: seq<BlockWrite>): (ws: seq<HomeWrite>)
    requires forall i :: 0 <= i < |writes| ==> writes[i].index < |blocks|
    ensures |ws| == |writes|
  {
    seq(|writes|, i requires 0 <= i < |writes| => HomeWrite(blocks[writes[i].index], writes[i].image))
  }

  /** Those that change something. */
  function Differing(g: seq<Block>, ws: seq<HomeWrite>): (r: seq<HomeWrite>)
    requires InRange(ws, |g|)
    ensures InRange(r, |g|)
  {
    if ws == [] then []
    else
      var last := ws[|ws| - 1];
      Differing(g, ws[..|ws| - 1]) + if g[last.block] == last.data then [] else [last]
  }

  predicate DistinctBlocks(ws: seq<HomeWrite>) {
    forall i, j :: 0 <= i < j < |ws| ==> ws[i].block != ws[j].block
  }

  /** Skipping unchanged blocks makes no difference. */
  lemma {:induction false} DifferingApplies(g: seq<Block>, ws: seq<HomeWrite>)
    requires InRange(ws, |g|) && DistinctBlocks(ws)
    ensures Apply(g, Differing(g, ws)) == Apply(g, ws)
  {
    if ws != [] {
      var n := |ws| - 1;
      var rest, last := ws[..n], ws[n];
      DifferingApplies(g, rest);
      if g[last.block] == last.data {
        assert Differing(g, ws) == Differing(g, rest);
        ApplyAt(g, rest, last.block);
        assert !Touches(rest, last.block);
      } else {
        assert Differing(g, ws)[..|Differing(g, rest)|] == Differing(g, rest);
      }
    }
  }

  lemma {:induction false} DifferingData(sb: Superblock, g: seq<Block>, ws: seq<HomeWrite>)
    requires InRange(ws, |g|) && AllData(sb, ws)
    ensures AllData(sb, Differing(g, ws))
  {
    if ws != [] {
      DifferingData(sb, g, ws[..|ws| - 1]);
    }
  }

  /** A transaction of data writes keeps the tables. */
  lemma DataTxHolds(crc: Checksum, sb: Superblock, g: seq<Block>, m: Metadata, ws: seq<HomeWrite>)
    requires Mounted(sb, |g|) && LoadMetadata(crc, sb, g) == Ok(m) && AllData(sb, ws)
    ensures AllHome(sb, ws) && InRange(ws, |g|)
    ensures Holds(crc, sb, Apply(Strip(sb, g), ws), m, Apply(g, ws))
  {
    hide LoadMetadata, Strip, Apply;
    DataWrites(sb, Strip(sb, g), ws);
    LoadIgnoresJournal(crc, sb, g);
    LoadSameTables(crc, sb, Strip(sb, g), Apply(Strip(sb, g), ws));
    StripOutside(sb, g);
    DataAgree(sb, Strip(sb, g), g, ws);
  }

  /** What a batch leaves: all its blocks, or none.  A batch that would change the superblock or the
      journal is refused; one that changes data blocks only leaves the tables alone. */
  ghost predicate Overwrites(crc: Checksum, sb: Superblock, d0: Disk, d: Disk, m: Metadata, id: u64,
                             writes: seq<BlockWrite>, ok: bool)
    requires Ready(crc, sb, d0) && |d.durable| == |d0.durable|
  {
    var g := d0.durable;
    if !BatchOk(sb, m, id, writes) then !ok && Recovers(crc, sb, d, m, g)
    else
      BatchInFile(sb, m, id, writes);
      var ws := Targets(BlocksOf(m, id), writes);
      InRange(ws, |g|) && OverwritesHome(crc, sb, d0, d, m, ws, ok)
  }

  ghost predicate OverwritesHome(crc: Checksum, sb: Superblock, d0: Disk, d: Disk, m: Metadata, ws: seq<HomeWrite>,
                                 ok: bool)
    requires Ready(crc, sb, d0) && |d.durable| == |d0.durable| && InRange(ws, |d0.durable|)
  {
    var g := d0.durable;
    var changed := Differing(g, ws);
    && (if AllHome(sb, changed) then Settles(crc, sb, d0, d, Apply(Strip(sb, g), changed), ok) else !ok && d == d0)
    && (AllData(sb, changed) ==> Changes(crc, sb, d, m, g, m, Apply(g, ws), ok))
  }

  lemma BatchInFile(sb: Superblock, m: Metadata, id: u64, writes: seq<BlockWrite>)
    requires BatchOk(sb, m, id, writes)
    ensures IsKind(m.inodes, id, File)
    ensures forall i :: 0 <= i < |writes| ==>
              writes[i].index < |BlocksOf(m, id)| && BlocksOf(m, id)[writes[i].index] < |m.owned|
    ensures NoRepeats(BlocksOf(m, id)) ==> DistinctBlocks(Targets(BlocksOf(m, id), writes))
  {
    hide FindInode;
    assert Resolve(sb, m, id, writes[0].index).Ok?;
    var blocks := BlocksOf(m, id);
    assert forall i :: 0 <= i < |writes| ==> Resolve(sb, m, id, writes[i].index) == Ok(blocks[writes[i].index]);
  }

  /** Whether the blocks a batch changes are home blocks and fit one transaction. */
  ghost predicate BatchFits(crc: Checksum, sb: Superblock, m: Metadata, g: seq<Block>, id: u64,
                            writes: seq<BlockWrite>) {
    && BatchOk(sb, m, id, writes)
    && (BatchInFile(sb, m, id, writes);
        var ws := Targets(BlocksOf(m, id), writes);
        InRange(ws, |g|) && AllHome(sb, Differing(g, ws)) && FitsJournal(crc, sb, Differing(g, ws)))
  }

  /** Checks a batch against the loaded tables and collects the blocks it changes. */
  method CollectBatch(device: BlockDevice, sb: Superblock, owned: seq<bool>, blocks: seq<u64>, writes: seq<BlockWrite>)
    returns (r: Result<seq<HomeWrite>>)
    requires device.Valid() && ValidGeometry(sb) && |owned| == device.BlockCount() == sb.totalBlocks
    ensures var good := DistinctIndices(writes) && forall i :: 0 <= i < |writes| ==>
              Claimed(sb, owned, blocks, writes[i].index);
            && (r.Ok? ==> good)
            && (r.Err? && good ==> device.faulty)
            && (r.Ok? && device.disk.pending == [] ==>
                  && InRange(Targets(blocks, writes), |device.disk.durable|)
                  && r.value == Differing(device.disk.durable, Targets(blocks, writes)))
  {
    hide Run, Differing;
    var seen: set<nat> := {};
    var changed: seq<HomeWrite> := [];
    ghost var g := device.disk.durable;
    NoTargets(g, blocks, writes);
    var i := 0;
    while i < |writes|
      invariant 0 <= i <= |writes| && DistinctIndices(writes[..i])
      invariant forall x :: x in seen <==> exists j :: 0 <= j < i && writes[j].index == x
      invariant forall j :: 0 <= j < i ==> Claimed(sb, owned, blocks, writes[j].index)
      invariant device.disk.pending == [] ==>
                  InRange(Targets(blocks, writes[..i]), |g|) && changed == Differing(g, Targets(blocks, writes[..i]))
    {
      var w := writes[i];
      if w.index in seen {
        var j :| 0 <= j < i && writes[j].index == w.index;
        return Err(InvalidInput);
      }
      if !Claimed(sb, owned, blocks, w.index) {
        return Err(InvalidData);
      }
      var current := device.ReadBlock(blocks[w.index]);
      if current.Err? {
        return Err(current.kind);
      }
      if device.disk.pending == [] {
        OneMoreTarget(g, blocks, writes, i);
      }
      if current.value != w.image {
        changed := changed + [HomeWrite(blocks[w.index], w.image)];
      }
      seen := seen + {w.index};
      i := i + 1;
    }
    assert writes[..i] == writes;
    return Ok(changed);
  }

  predicate Claimed(sb: Superblock, owned: seq<bool>, blocks: seq<u64>, index: nat) {
    index < |blocks| && blocks[index] < |owned| && (blocks[index] < ReservedBlocks(sb) || owned[blocks[index]])
  }

  lemma NoTargets(g: seq<Block>, blocks: seq<u64>, writes: seq<BlockWrite>)
    ensures Targets(blocks, writes[..0]) == [] && Differing(g, []) == []
  {
  }

  lemma OneMoreTarget(g: seq<Block>, blocks: seq<u64>, writes: seq<BlockWrite>, i: nat)
    requires i < |writes| && (forall j :: 0 <= j <= i ==> writes[j].index < |blocks|) && blocks[writes[i].index] < |g|
    requires InRange(Targets(blocks, writes[..i]), |g|)
    ensures InRange(Targets(blocks, writes[..i + 1]), |g|)
    ensures Differing(g, Targets(blocks, writes[..i + 1])) == Differing(g, Targets(blocks, writes[..i])) +
            if g[blocks[writes[i].index]] == writes[i].image then []
                else [HomeWrite(blocks[writes[i].index], writes[i].image)]
  {
    assert Targets(blocks, writes[..i + 1])[..i] == Targets(blocks, writes[..i]);
  }

  lemma BatchIsGood(sb: Superblock, m: Metadata, id: u64, writes: seq<BlockWrite>)
    requires IsKind(m.inodes, id, File)
    ensures BatchOk(sb, m, id, writes) <==>
              writes != [] && DistinctIndices(writes) && forall i :: 0 <= i < |writes| ==>
                  Claimed(sb, m.owned, BlocksOf(m, id), writes[i].index)
  {
    hide FindInode;
    assert forall i :: 0 <= i < |writes| ==>
        (Resolve(sb, m, id, writes[i].index).Ok? <==> Claimed(sb, m.owned, BlocksOf(m, id), writes[i].index));
  }

  /** `write_file_blocks_journaled`: all blocks of the batch, or none, survive any crash. */
  method WriteFileBlocks(device: BlockDevice, crc: Checksum, sb: Superblock, id: u64, writes: seq<BlockWrite>)
    returns (r: Result<RecoveryReport>)
    requires device.Valid() && ValidGeometry(sb)
    modifies device
    ensures device.Valid() && device.BlockCount() == old(device.BlockCount())
    ensures device.BlockCount() != sb.totalBlocks ==> r.Err? && device.disk == old(device.disk)
    ensures Ready(crc, sb, old(device.disk)) && LoadMetadata(crc, sb, old(device.disk).durable).Ok? ==>
              var m := LoadMetadata(crc, sb, old(device.disk).durable).value;
              && Overwrites(crc, sb, old(device.disk), device.disk, m, id, writes, r.Ok?)
              && (!device.faulty && BatchFits(crc, sb, m, old(device.disk).durable, id, writes) ==> r.Ok?)
              && (r.Ok? && FsckOk(sb, m) ==>
                    && LoadMetadata(crc, sb, device.disk.durable) == Ok(m)
                    && BatchWritten(m, old(device.disk).durable, device.disk.durable, id, writes))
  {
    hide Run, LoadMetadata, StoredInodes, StoredEntries, StoredOwned, FindInode, Quiescent, Changes, Recovers, Settles,
      Resolve,
      Apply, Strip, Differing, Targets, FitsJournal, AllData, AllHome, OverwritesHome, FsckOk, BatchWritten;
    if writes == [] || device.BlockCount() != sb.totalBlocks {
      NothingToWrite(crc, sb, device.disk, id, writes);
      return Err(InvalidInput);
    }
    ghost var d0 := device.disk;
    LoadedParts(crc, sb, d0.durable);
    ghost var known := Ready(crc, sb, d0) && LoadMetadata(crc, sb, d0.durable).Ok?;
    ghost var m := if known then LoadMetadata(crc, sb, d0.durable).value else Metadata([], [], []);
    if known {
      NothingOverwritten(crc, sb, d0, m, id, writes);
    }
    var inodes := LoadInodes(device, crc, sb);
    if inodes.Err? {
      return Err(inodes.kind);
    }
    if !IsKind(inodes.value, id, File) {
      NotAFile(sb, m, id, writes[0].index);
      return Err(InvalidInput);
    }
    var blocks := inodes.value[FindInode(inodes.value, id).value].blocks;
    var owned, a := LoadAllocator(device, crc, sb);
    if owned.Err? {
      return Err(owned.kind);
    }
    if known {
      BatchIsGood(sb, m, id, writes);
    }
    var changed := CollectBatch(device, sb, a.owned, blocks, writes);
    if changed.Err? {
      return Err(changed.kind);
    }
    r := PublishWrites(device, crc, sb, changed.value, true);
    if known {
      BatchInFile(sb, m, id, writes);
      LoadedShape(crc, sb, d0.durable, id);
      HomeOverwritten(crc, sb, d0, device.disk, m, Targets(blocks, writes), r.Ok?);
      if r.Ok? && FsckOk(sb, m) {
        BatchLeaves(crc, sb, d0, device.disk, m, id, writes);
      }
    }
  }

  lemma NothingToWrite(crc: Checksum, sb: Superblock, d: Disk, id: u64, writes: seq<BlockWrite>)
    requires ValidGeometry(sb)
    ensures Ready(crc, sb, d) && LoadMetadata(crc, sb, d.durable).Ok? && writes == [] ==>
              Overwrites(crc, sb, d, d, LoadMetadata(crc, sb, d.durable).value, id, writes, false)
  {
    hide LoadMetadata, Quiescent, Recovers;
    if Ready(crc, sb, d) && LoadMetadata(crc, sb, d.durable).Ok? {
      Unchanged(crc, sb, d, LoadMetadata(crc, sb, d.durable).value, LoadMetadata(crc, sb, d.durable).value, d.durable);
    }
  }

  /** The outcome of publishing the blocks that differ. */
  lemma HomeOverwritten(crc: Checksum, sb: Superblock, d0: Disk, d: Disk, m: Metadata, ws: seq<HomeWrite>, ok: bool)
    requires Ready(crc, sb, d0) && |d.durable| == |d0.durable| && LoadMetadata(crc, sb, d0.durable) == Ok(m)
    requires InRange(ws, |d0.durable|) && DistinctBlocks(ws)
    requires var changed := Differing(d0.durable, ws);
             if AllHome(sb, changed) then Settles(crc, sb, d0, d, Apply(Strip(sb, d0.durable), changed), ok)
                 else !ok && d == d0
    ensures OverwritesHome(crc, sb, d0, d, m, ws, ok)
  {
    hide LoadMetadata, Quiescent, Changes, Settles, Apply, Strip, Differing, DistinctBlocks;
    var g := d0.durable;
    var changed := Differing(g, ws);
    DifferingApplies(g, ws);
    if AllData(sb, changed) {
      DataTxHolds(crc, sb, g, m, changed);
      SettledChanges(crc, sb, d0, d, Apply(Strip(sb, g), changed), ok, m, m, Apply(g, changed));
    }
  }

  lemma NotAFile(sb: Superblock, m: Metadata, id: u64, index: nat)
    ensures !IsKind(m.inodes, id, File) ==> Resolve(sb, m, id, index).Err?
  {
  }

  lemma NothingOverwritten(crc: Checksum, sb: Superblock, d: Disk, m: Metadata, id: u64, writes: seq<BlockWrite>)
    requires Ready(crc, sb, d) && LoadMetadata(crc, sb, d.durable) == Ok(m)
    ensures Overwrites(crc, sb, d, d, m, id, writes, false)
  {
    hide LoadMetadata, Quiescent, Recovers, BatchOk, Targets, Apply, IsKind, Settles, Differing, Strip;
    Unchanged(crc, sb, d, m, m, d.durable);
    if BatchOk(sb, m, id, writes) {
      BatchInFile(sb, m, id, writes);
      LoadedShape(crc, sb, d.durable, id);
      var ws := Targets(BlocksOf(m, id), writes);
      TargetsInRange(BlocksOf(m, id), writes, |d.durable|);
      NothingSettles(crc, sb, d, Apply(Strip(sb, d.durable), Differing(d.durable, ws)));
      Unchanged(crc, sb, d, m, m, Apply(d.durable, ws));
    }
  }

  lemma TargetsInRange(blocks: seq<u64>, writes: seq<BlockWrite>, count: nat)
    requires forall i :: 0 <= i < |writes| ==> writes[i].index < |blocks| && blocks[writes[i].index] < count
    ensures InRange(Targets(blocks, writes), count)
  {
  }

  // ------------------------------------------------------------------------ when the tables survive

  lemma SliceDetermines(a: seq<Block>, b: seq<Block>, lo: nat, n: nat, i: nat)
    requires lo + n <= |a| == |b| && Slice(a, lo, n) == Slice(b, lo, n) && lo <= i < lo + n
    ensures a[i] == b[i]
  {
    hide Flatten, Chunk;
    FlattenAt(a[lo..lo + n], i - lo);
    FlattenAt(b[lo..lo + n], i - lo);
  }

  /** The blocks of the tables are determined by what they load as. */
  lemma LoadDetermines(crc: Checksum, sb: Superblock, a: seq<Block>, b: seq<Block>, i: nat)
    requires ValidGeometry(sb) && |a| == |b| == sb.totalBlocks && sb.allocationStart <= i < ReservedBlocks(sb)
    requires LoadMetadata(crc, sb, a).Ok? && LoadMetadata(crc, sb, b) == LoadMetadata(crc, sb, a)
    ensures a[i] == b[i]
  {
    hide Parse, Image, Flatten, LoadOwned, AllocImage, Encodable, BitmapOf, Marks;
    var m := LoadMetadata(crc, sb, a).value;
    LoadedIsRenderable(crc, sb, a);
    BitmapOfMarks(sb, m.owned);
    var bitmap := BitmapOf(BitmapLen(sb), m.owned, |m.owned|);
    LoadedOwnedIsCanonical(crc, sb, Slice(a, sb.allocationStart, sb.allocationBlocks), bitmap);
    LoadedOwnedIsCanonical(crc, sb, Slice(b, sb.allocationStart, sb.allocationBlocks), bitmap);
    FormatSound(crc);
    Dirs.FormatSound(crc);
    TableDetermines(crc, InodeFormat(crc), a, b, sb.inodeStart, sb.inodeBlocks);
    TableDetermines(crc, Dirs.DirectoryFormat(crc), a, b, sb.directoryStart, sb.directoryBlocks);
    if i < sb.inodeStart {
      SliceDetermines(a, b, sb.allocationStart, sb.allocationBlocks, i);
    } else if i < sb.directoryStart {
      SliceDetermines(a, b, sb.inodeStart, sb.inodeBlocks, i);
    } else {
      SliceDetermines(a, b, sb.directoryStart, sb.directoryBlocks, i);
    }
  }

  lemma TableDetermines<T(!new), K>(crc: Checksum, f: TableFormat<T, K>, a: seq<Block>, b: seq<Block>, lo: nat, n: nat)
    requires Sound(f) && lo + n <= |a| == |b|
    requires LoadTable(crc, f, a, lo, n).Ok? && LoadTable(crc, f, b, lo, n) == LoadTable(crc, f, a, lo, n)
    ensures Slice(a, lo, n) == Slice(b, lo, n)
  {
    hide Parse, Image, Flatten;
    FlattenLength(a[lo..lo + n]);
    FlattenLength(b[lo..lo + n]);
    ParsedIsCanonical(crc, f, Slice(a, lo, n));
    ParsedIsCanonical(crc, f, Slice(b, lo, n));
  }

  /** Home writes that all change something leave the tables as they load exactly when they all go to
      data blocks. */
  lemma TablesSurvive(crc: Checksum, sb: Superblock, g: seq<Block>, m: Metadata, ws: seq<HomeWrite>)
    requires Mounted(sb, |g|) && LoadMetadata(crc, sb, g) == Ok(m) && InRange(ws, |g|) && AllHome(sb, ws)
    requires DistinctBlocks(ws) && forall i :: 0 <= i < |ws| ==> g[ws[i].block] != ws[i].data
    ensures LoadMetadata(crc, sb, Apply(g, ws)) == Ok(m) <==> AllData(sb, ws)
  {
    hide LoadMetadata, Apply;
    if AllData(sb, ws) {
      DataWrites(sb, g, ws);
      LoadSameTables(crc, sb, g, Apply(g, ws));
    }
    if LoadMetadata(crc, sb, Apply(g, ws)) == Ok(m) {
      forall k | 0 <= k < |ws| ensures IsData(sb, ws[k].block) {
        ChangedAt(g, ws, k);
        if !IsData(sb, ws[k].block) {
          LoadDetermines(crc, sb, g, Apply(g, ws), ws[k].block);
        }
      }
    }
  }

  lemma {:induction false} ChangedAt(g: seq<Block>, ws: seq<HomeWrite>, k: nat)
    requires InRange(ws, |g|) && DistinctBlocks(ws) && k < |ws|
    ensures Apply(g, ws)[ws[k].block] == ws[k].data
  {
    if k < |ws| - 1 {
      ChangedAt(g, ws[..|ws| - 1], k);
    }
  }

  lemma {:induction false} DifferingChanges(g: seq<Block>, ws: seq<HomeWrite>)
    requires InRange(ws, |g|) && DistinctBlocks(ws)
    ensures DistinctBlocks(Differing(g, ws)) && forall w :: w in Differing(g, ws) ==> w in ws && g[w.block] != w.data
  {
    if ws != [] {
      DifferingChanges(g, ws[..|ws| - 1]);
    }
  }

  /** So an accepted batch leaves the tables exactly when no block of them is among those it changes. */
  lemma BatchKeepsTables(crc: Checksum, sb: Superblock, g: seq<Block>, m: Metadata, id: u64, writes: seq<BlockWrite>)
    requires Mounted(sb, |g|) && LoadMetadata(crc, sb, g) == Ok(m) && BatchFits(crc, sb, m, g, id, writes)
    ensures IsKind(m.inodes, id, File) && forall i :: 0 <= i < |writes| ==> writes[i].index < |BlocksOf(m, id)|
    ensures var ws := Targets(BlocksOf(m, id), writes);
            && InRange(ws, |g|)
            && (LoadMetadata(crc, sb, Apply(g, ws)) == Ok(m) <==> AllData(sb, Differing(g, ws)))
  {
    hide LoadMetadata, Apply, Differing, FindInode, FitsJournal, Resolve;
    BatchInFile(sb, m, id, writes);
    LoadedShape(crc, sb, g, id);
    var ws := Targets(BlocksOf(m, id), writes);
    DifferingApplies(g, ws);
    DifferingChanges(g, ws);
    TablesSurvive(crc, sb, g, m, Differing(g, ws));
  }

  // ------------------------------------------------------------------------ writing ranges

  /** The first `rel` block images of a range write: the blocks of the spliced file. */
  function RangeWrites(f: seq<byte>, first: nat, offset: nat, data: seq<byte>, rel: nat): (writes: seq<BlockWrite>)
    requires first * BLOCK_SIZE + offset + |data| <= |f| && (first + rel) * BLOCK_SIZE <= |f|
    ensures |writes| == rel
    ensures forall k :: 0 <= k < rel ==> writes[k].index == first + k
  {
    seq(rel, k requires 0 <= k < rel => BlockWrite(first + k,
        Chunk(Splice(f, first * BLOCK_SIZE + offset, data), first + k)))
  }

  /** The blocks after a range write. */
  function RangeResult(sb: Superblock, m: Metadata, g: seq<Block>, id: u64, first: nat, offset: nat,
                       data: seq<byte>): (g': seq<Block>)
    requires RangeOk(sb, m, id, first, offset, |data|) && |m.owned| == |g|
    ensures |g'| == |g|
  {
    RangeFits(sb, m, g, id, first, offset, |data|);
    var writes := RangeWrites(FileBytes(m, g, id), first, offset, data, Span(offset + |data|));
    Apply(g, Targets(BlocksOf(m, id), writes))
  }

  /** A range write makes the file its old bytes with the range replaced, and touches no other block. */
  lemma RangeResultBytes(sb: Superblock, m: Metadata, g: seq<Block>, id: u64, first: nat, offset: nat, data: seq<byte>)
    requires RangeOk(sb, m, id, first, offset, |data|) && |m.owned| == |g|
    requires IsKind(m.inodes, id, File) && NoRepeats(BlocksOf(m, id))
    ensures var g' := RangeResult(sb, m, g, id, first, offset, data);
            && first * BLOCK_SIZE + offset + |data| <= |FileBytes(m, g, id)|
            && FileBytes(m, g', id) == Splice(FileBytes(m, g, id), first * BLOCK_SIZE + offset, data)
            && forall b :: 0 <= b < |g| && b !in BlocksOf(m, id) ==> g'[b] == g[b]
  {
    hide FindInode, Flatten, Apply, Resolve, Contents, Splice, Chunk;
    RangeFits(sb, m, g, id, first, offset, |data|);
    var blocks, f, count := BlocksOf(m, id), FileBytes(m, g, id), Span(offset + |data|);
    var f' := Splice(f, first * BLOCK_SIZE + offset, data);
    var writes := RangeWrites(f, first, offset, data, count);
    var ws := Targets(blocks, writes);
    var g' := Apply(g, ws);
    TargetsApply(g, blocks, writes);
    forall i | 0 <= i < |blocks| ensures Contents(g', blocks)[i] == Chunk(f', i) {
      ContentsAt(g, blocks, i);
      BlockAt(g, blocks, i);
      BlockAt(g', blocks, i);
      if first <= i < first + count {
        assert writes[i - first].index == i;
      } else {
        UnpatchedBlock(f, first * BLOCK_SIZE + offset, data, i);
      }
    }
    ChunksAre(g', blocks, f');
  }

  lemma ContentsAt(g: seq<Block>, blocks: seq<u64>, i: nat)
    requires i < |blocks|
    ensures Chunk(Flatten(Contents(g, blocks)), i) == Contents(g, blocks)[i]
  {
    FlattenAt(Contents(g, blocks), i);
  }

  lemma BlockAt(g: seq<Block>, blocks: seq<u64>, i: nat)
    requires i < |blocks|
    ensures Contents(g, blocks)[i] == if blocks[i] < |g| then g[blocks[i]] else ZERO_BLOCK
  {
  }

  lemma ChunksAre(g: seq<Block>, blocks: seq<u64>, f: seq<byte>)
    requires |f| == |blocks| * BLOCK_SIZE && forall i :: 0 <= i < |blocks| ==> Contents(g, blocks)[i] == Chunk(f, i)
    ensures Flatten(Contents(g, blocks)) == f
  {
    hide Flatten;
    FlattenChunks(f, |blocks|);
    assert Contents(g, blocks) == Chunks(f, |blocks|);
    assert f[..|blocks| * BLOCK_SIZE] == f;
  }

  /** A batch sets the blocks it names and leaves the rest. */
  lemma {:induction false} TargetsApply(g: seq<Block>, blocks: seq<u64>, writes: seq<BlockWrite>)
    requires NoRepeats(blocks) && DistinctIndices(writes)
    requires forall i :: 0 <= i < |writes| ==> writes[i].index < |blocks| && blocks[writes[i].index] < |g|
    ensures InRange(Targets(blocks, writes), |g|)
    ensures forall i :: 0 <= i < |writes| ==>
              Apply(g, Targets(blocks, writes))[blocks[writes[i].index]] == writes[i].image
    ensures forall b :: 0 <= b < |g| && (forall i :: 0 <= i < |writes| ==> blocks[writes[i].index] != b) ==>
              Apply(g, Targets(blocks, writes))[b] == g[b]
  {
    if writes != [] {
      var n := |writes| - 1;
      var rest := writes[..n];
      TargetsApply(g, blocks, rest);
      assert Targets(blocks, writes)[..n] == Targets(blocks, rest);
      assert forall i :: 0 <= i < n ==> writes[i] == rest[i] && blocks[writes[i].index] != blocks[writes[n].index];
    }
  }

  /** The batch of a range write. */
  function RangeBatch(sb: Superblock, m: Metadata, g: seq<Block>, id: u64, first: nat, offset: nat,
                      data: seq<byte>): seq<BlockWrite>
    requires RangeOk(sb, m, id, first, offset, |data|)
  {
    RangeFits(sb, m, g, id, first, offset, |data|);
    RangeWrites(FileBytes(m, g, id), first, offset, data, Span(offset + |data|))
  }

  /** What a range write leaves: the range replaced, or nothing changed. */
  ghost predicate WritesRange(crc: Checksum, sb: Superblock, d0: Disk, d: Disk, m: Metadata, id: u64, first: nat,
                              offset: nat, data: seq<byte>, ok: bool)
    requires Ready(crc, sb, d0) && |d.durable| == |d0.durable|
  {
    if !RangeOk(sb, m, id, first, offset, |data|) then !ok && Recovers(crc, sb, d, m, d0.durable)
    else Overwrites(crc, sb, d0, d, m, id, RangeBatch(sb, m, d0.durable, id, first, offset, data), ok)
  }

  /** With data blocks only, that is the range of the flat file replaced, and nothing else. */
  lemma RangeChanges(crc: Checksum, sb: Superblock, d0: Disk, d: Disk, m: Metadata, id: u64, first: nat, offset: nat,
                     data: seq<byte>, ok: bool)
    requires Ready(crc, sb, d0) && |d.durable| == |d0.durable| && LoadMetadata(crc, sb, d0.durable) == Ok(m)
    requires WritesRange(crc, sb, d0, d, m, id, first, offset, data, ok) && RangeOk(sb, m, id, first, offset, |data|)
    requires forall i :: first <= i < first + Span(offset + |data|) ==>
               Resolve(sb, m, id, i).Ok? && IsData(sb, Resolve(sb, m, id, i).value)
    ensures |m.owned| == |d0.durable|
    ensures Changes(crc, sb, d, m, d0.durable, m, RangeResult(sb, m, d0.durable, id, first, offset, data), ok)
  {
    hide LoadMetadata, Quiescent, Recovers, Changes, Settles, Apply, Strip, FindInode, Flatten, Contents, Chunk, Splice,
      Differing, Resolve;
    var g := d0.durable;
    LoadedShape(crc, sb, g, id);
    RangeFits(sb, m, g, id, first, offset, |data|);
    var writes := RangeBatch(sb, m, g, id, first, offset, data);
    BatchOfRange(sb, m, g, id, first, offset, data);
    BatchInFile(sb, m, id, writes);
    var ws := Targets(BlocksOf(m, id), writes);
    forall k | 0 <= k < |ws| ensures IsData(sb, ws[k].block) {
      ResolvedIs(sb, m, id, first + k);
    }
    DifferingData(sb, g, ws);
  }

  lemma ResolvedIs(sb: Superblock, m: Metadata, id: u64, index: nat)
    requires Resolve(sb, m, id, index).Ok?
    ensures IsKind(m.inodes, id, File) && index < |BlocksOf(m, id)|
    ensures Resolve(sb, m, id, index).value == BlocksOf(m, id)[index]
  {
  }

  lemma BatchOfRange(sb: Superblock, m: Metadata, g: seq<Block>, id: u64, first: nat, offset: nat, data: seq<byte>)
    requires RangeOk(sb, m, id, first, offset, |data|)
    ensures var writes := RangeBatch(sb, m, g, id, first, offset, data);
            && |writes| == Span(offset + |data|) > 0 && BatchOk(sb, m, id, writes)
            && forall k :: 0 <= k < |writes| ==> writes[k].index == first + k
  {
    hide FindInode, Flatten, Resolve, Contents, Chunk, Splice;
    RangeFits(sb, m, g, id, first, offset, |data|);
  }

  lemma NothingWritten(crc: Checksum, sb: Superblock, d: Disk, m: Metadata, id: u64, first: nat, offset: nat,
                       data: seq<byte>)
    requires Ready(crc, sb, d) && LoadMetadata(crc, sb, d.durable) == Ok(m)
    ensures WritesRange(crc, sb, d, d, m, id, first, offset, data, false)
  {
    hide LoadMetadata, Quiescent, Recovers, RangeOk, RangeBatch, Overwrites, IsKind;
    Unchanged(crc, sb, d, m, m, d.durable);
    if RangeOk(sb, m, id, first, offset, |data|) {
      NothingOverwritten(crc, sb, d, m, id, RangeBatch(sb, m, d.durable, id, first, offset, data));
    }
  }

  /** Reads the touched blocks and patches each with its part of the data. */
  method PatchBlocks(device: BlockDevice, crc: Checksum, sb: Superblock, id: u64, first: nat, offset: nat,
                     data: seq<byte>)
    returns (r: Result<seq<BlockWrite>>)
    requires device.Valid() && ValidGeometry(sb) && offset < BLOCK_SIZE && data != []
    ensures device.BlockCount() != sb.totalBlocks ==> r.Err?
    ensures Readable(device, crc, sb) ==>
              var m, g := LoadMetadata(crc, sb, device.disk.durable).value, device.disk.durable;
              && (r.Err? ==> device.faulty || !RangeOk(sb, m, id, first, offset, |data|))
              && (r.Ok? ==>
                  RangeOk(sb, m, id, first, offset, |data|) && r.value == RangeBatch(sb, m, g, id, first, offset, data))
  {
    hide Run, LoadMetadata, Resolve, Flatten, FindInode, IsKind, Contents, Done, Chunk, Span, BlocksOf, PatchedAt,
      RangeBatch;
    ghost var known := Readable(device, crc, sb);
    ghost var m := if known then LoadMetadata(crc, sb, device.disk.durable).value else Metadata([], [], []);
    ghost var g := device.disk.durable;
    if known {
      LoadedShape(crc, sb, g, id);
    }
    ghost var file := known && IsKind(m.inodes, id, File);
    var writes: seq<BlockWrite> := [];
    var consumed := 0;
    var count := Span(offset + |data|);
    var rel := 0;
    NothingDone(offset, |data|);
    SpanPositive(offset, |data|);
    while rel < count
      invariant 0 <= rel <= count && consumed == Done(offset, |data|, rel) && |writes| == rel
      invariant forall k :: 0 <= k < rel ==> writes[k].index == first + k
      invariant known ==> forall i :: first <= i < first + rel ==> Resolve(sb, m, id, i).Ok?
      invariant (known && rel > 0 ==> file) && (rel > 0 ==> device.BlockCount() == sb.totalBlocks)
      invariant file ==> forall k :: 0 <= k < rel ==> PatchedAt(m, g, id, first, offset, data, writes[k])
    {
      NotAFile(sb, m, id, first + rel);
      if file {
        ResolvedReads(sb, m, g, id, first + rel);
      }
      var image := ReadFileBlock(device, crc, sb, id, first + rel);
      if image.Err? {
        return Err(image.kind);
      }
      DoneStep(offset, |data|, rel);
      var begin := if rel == 0 then offset else 0;
      var left := |data| - consumed;
      var take := if BLOCK_SIZE - begin < left then BLOCK_SIZE - begin else left;
      var patched := Splice(image.value, begin, data[consumed..consumed + take]);
      if file {
        PatchTurn(m, g, id, first, offset, data, first + rel, begin, take, consumed);
      }
      consumed := consumed + take;
      writes := writes + [BlockWrite(first + rel, patched)];
      rel := rel + 1;
    }
    if known {
      AllPatched(sb, m, g, id, first, offset, data, writes);
    }
    return Ok(writes);
  }

  lemma AllPatched(sb: Superblock, m: Metadata, g: seq<Block>, id: u64, first: nat, offset: nat, data: seq<byte>,
                   writes: seq<BlockWrite>)
    requires IsKind(m.inodes, id, File) && RangeOk(sb, m, id, first, offset, |data|)
    requires |writes| == Span(offset + |data|)
    requires forall k :: 0 <= k < |writes| ==>
               writes[k].index == first + k && PatchedAt(m, g, id, first, offset, data, writes[k])
    ensures writes == RangeBatch(sb, m, g, id, first, offset, data)
  {
    hide FindInode, Flatten, Resolve, IsKind, Contents, Chunk, Splice;
    RangeFits(sb, m, g, id, first, offset, |data|);
    var expected := RangeWrites(FileBytes(m, g, id), first, offset, data, Span(offset + |data|));
    forall k | 0 <= k < |writes| ensures writes[k] == expected[k] {
      assert PatchedAt(m, g, id, first, offset, data, writes[k]);
    }
  }

  /** Each image is the block of the spliced file, wherever the range lies inside the file. */
  ghost predicate PatchedAt(m: Metadata, g: seq<Block>, id: u64, first: nat, offset: nat, data: seq<byte>,
                            w: BlockWrite)
    requires IsKind(m.inodes, id, File)
  {
    first * BLOCK_SIZE + offset + |data| <= |FileBytes(m, g, id)| && w.index < |BlocksOf(m, id)| ==>
      w.image == Chunk(Splice(FileBytes(m, g, id), first * BLOCK_SIZE + offset, data), w.index)
  }

  lemma PatchTurn(m: Metadata, g: seq<Block>, id: u64, first: nat, offset: nat, data: seq<byte>, index: nat, begin: nat,
                  take: nat, done: nat)
    requires IsKind(m.inodes, id, File) && index < |BlocksOf(m, id)| && begin + take <= BLOCK_SIZE
    requires done + take <= |data|
    requires index * BLOCK_SIZE + begin == first * BLOCK_SIZE + offset + done && (done == 0 || begin == 0)
    requires begin + take == BLOCK_SIZE || done + take == |data|
    ensures PatchedAt(m, g, id, first, offset, data,
              BlockWrite(index, Splice(Contents(g, BlocksOf(m, id))[index], begin, data[done..done + take])))
  {
    hide FindInode, Flatten;
    if first * BLOCK_SIZE + offset + |data| <= |FileBytes(m, g, id)| {
      ContentsAt(g, BlocksOf(m, id), index);
      PatchedBlock(FileBytes(m, g, id), first * BLOCK_SIZE + offset, data, index, begin, take, done);
    }
  }

  /** `write_file_range_journaled`. */
  method WriteFileRange(device: BlockDevice, crc: Checksum, sb: Superblock, id: u64, first: nat, offset: nat,
                        data: seq<byte>)
    returns (r: Result<RecoveryReport>)
    requires device.Valid() && ValidGeometry(sb)
    modifies device
    ensures device.Valid() && device.BlockCount() == old(device.BlockCount())
    ensures device.BlockCount() != sb.totalBlocks ==> r.Err? && device.disk == old(device.disk)
    ensures Ready(crc, sb, old(device.disk)) && LoadMetadata(crc, sb, old(device.disk).durable).Ok? ==>
              var m := LoadMetadata(crc, sb, old(device.disk).durable).value;
              && WritesRange(crc, sb, old(device.disk), device.disk, m, id, first, offset, data, r.Ok?)
              && (!device.faulty && RangeWriteFits(crc, sb, m, old(device.disk).durable, id, first, offset, data) ==>
                  r.Ok?)
              && (r.Ok? && FsckOk(sb, m) ==>
                    && LoadMetadata(crc, sb, device.disk.durable) == Ok(m)
                    && RangeWritten(m, old(device.disk).durable, device.disk.durable, id, first, offset, data))
  {
    hide Run, LoadMetadata, Quiescent, Recovers, RangeBatch, BatchFits, Overwrites, Resolve, FsckOk, RangeWritten,
      BatchWritten;
    ghost var d0 := device.disk;
    ghost var known := Ready(crc, sb, d0) && LoadMetadata(crc, sb, d0.durable).Ok?;
    ghost var m := if known then LoadMetadata(crc, sb, d0.durable).value else Metadata([], [], []);
    if known {
      NothingWritten(crc, sb, d0, m, id, first, offset, data);
    }
    if data == [] || offset >= BLOCK_SIZE {
      return Err(InvalidInput);
    }
    var writes := PatchBlocks(device, crc, sb, id, first, offset, data);
    if writes.Err? {
      return Err(writes.kind);
    }
    r := WriteFileBlocks(device, crc, sb, id, writes.value);
    if known && r.Ok? && FsckOk(sb, m) {
      RangeLeaves(crc, sb, d0, device.disk, m, id, first, offset, data);
    }
  }

  lemma RangeNeeds(sb: Superblock, m: Metadata, id: u64, first: nat, offset: nat, len: nat)
    ensures RangeOk(sb, m, id, first, offset, len) ==> len > 0 && offset < BLOCK_SIZE && IsKind(m.inodes, id, File)
  {
    if RangeOk(sb, m, id, first, offset, len) {
      assert Resolve(sb, m, id, first).Ok?;
    }
  }

  /** Whether the blocks a range write changes are home blocks and fit one transaction. */
  ghost predicate RangeWriteFits(crc: Checksum, sb: Superblock, m: Metadata, g: seq<Block>, id: u64, first: nat,
                                 offset: nat, data: seq<byte>) {
    && RangeOk(sb, m, id, first, offset, |data|)
    && BatchFits(crc, sb, m, g, id, RangeBatch(sb, m, g, id, first, offset, data))
  }

  // ------------------------------------------------------------------------ writing on a consistent volume

  /** The named blocks become their images, and the others stay. */
  predicate IsPatch(was: seq<Block>, now: seq<Block>, writes: seq<BlockWrite>) {
    && |now| == |was|
    && (forall i :: 0 <= i < |writes| ==> writes[i].index < |was| && now[writes[i].index] == writes[i].image)
    && (forall x :: 0 <= x < |was| && (forall i :: 0 <= i < |writes| ==> writes[i].index != x) ==> now[x] == was[x])
  }

  /** The file `id` has the batch, and no other file changed. */
  ghost predicate BatchWritten(m: Metadata, g: seq<Block>, g': seq<Block>, id: u64, writes: seq<BlockWrite>) {
    exists k: nat, now ::
      && FileAt(m, k, id) && OnlyFileBecomes(m, g, m, g', k, now)
      && writes != [] && DistinctIndices(writes) && IsPatch(Contents(g, m.inodes[k].blocks), now, writes)
  }

  /** The file `id` has the bytes in place of the range, and no other file changed. */
  ghost predicate RangeWritten(m: Metadata, g: seq<Block>, g': seq<Block>, id: u64, first: nat, offset: nat,
                               data: seq<byte>) {
    exists k: nat, now ::
      && InFile(m, k, id, first, offset, |data|) && OnlyFileBecomes(m, g, m, g', k, now)
      && var f, pos := BytesAt(m, g, k), first * BLOCK_SIZE + offset;
         Flatten(now) == f[..pos] + data + f[pos + |data|..]
  }

  /** The device holds the metadata of a consistent volume and the data of `g'`. */
  lemma HoldsBecomes(crc: Checksum, sb: Superblock, m: Metadata, g: seq<Block>, g': seq<Block>, h: seq<Block>, k: nat)
    requires FsckOk(sb, m) && k < |m.inodes| && |g'| == |g|
    requires forall b :: 0 <= b < |g| && b !in m.inodes[k].blocks ==> g'[b] == g[b]
    requires Holds(crc, sb, h, m, g')
    ensures OnlyFileBecomes(m, g, m, h, k, Contents(g', m.inodes[k].blocks))
  {
    hide FsckOk, Contents, LoadMetadata, SameData, OnlyFileBecomes;
    ElsewhereBecomes(sb, m, g, g', k);
    BecomesOn(sb, m, g, m, g', h, k, Contents(g', m.inodes[k].blocks));
  }

  /** On a consistent volume a batch is acceptable exactly when it names distinct blocks of a file, and some. */
  lemma BatchIsExact(sb: Superblock, m: Metadata, id: u64, writes: seq<BlockWrite>)
    requires FsckOk(sb, m)
    ensures BatchOk(sb, m, id, writes) <==>
            && writes != [] && DistinctIndices(writes)
            && exists k: nat ::
                 FileAt(m, k, id) && forall i :: 0 <= i < |writes| ==> writes[i].index < |m.inodes[k].blocks|
  {
    hide FindInode, NamespaceOk, OwnershipOk, KindMap, Resolve, IsKind;
    FileIsFound(m, id);
    if IsKind(m.inodes, id, File) {
      var k := FoundFile(m, id);
      forall i | 0 <= i < |writes|
        ensures Resolve(sb, m, id, writes[i].index).Ok? <==> writes[i].index < |m.inodes[k].blocks|
      {
        Resolves(sb, m, k, id, writes[i].index);
      }
    } else if writes != [] {
      NotAFile(sb, m, id, writes[0].index);
    }
  }

  /** What a successful batch leaves on a consistent volume. */
  lemma BatchLeaves(crc: Checksum, sb: Superblock, d0: Disk, d: Disk, m: Metadata, id: u64, writes: seq<BlockWrite>)
    requires Ready(crc, sb, d0) && |d.durable| == |d0.durable| && LoadMetadata(crc, sb, d0.durable) == Ok(m)
    requires FsckOk(sb, m) && Overwrites(crc, sb, d0, d, m, id, writes, true)
    ensures LoadMetadata(crc, sb, d.durable) == Ok(m) && BatchWritten(m, d0.durable, d.durable, id, writes)
  {
    hide LoadMetadata, Quiescent, Recovers, Settles, Apply, Strip, FindInode, Differing, Resolve, FsckOk, Contents,
      OnlyFileBecomes, IsPatch, SameData;
    var g := d0.durable;
    BatchInFile(sb, m, id, writes);
    LoadedShape(crc, sb, g, id);
    var k := FoundFile(m, id);
    var ws := Targets(BlocksOf(m, id), writes);
    forall i | 0 <= i < |ws| ensures IsData(sb, ws[i].block) {
      ResolvedIs(sb, m, id, writes[i].index);
      ConsistentRange(sb, m, id, writes[i].index);
    }
    DifferingData(sb, g, ws);
    TargetsApply(g, m.inodes[k].blocks, writes);
    BatchPatches(g, Apply(g, ws), m.inodes[k].blocks, writes);
    HoldsBecomes(crc, sb, m, g, Apply(g, ws), d.durable, k);
  }

  lemma BatchPatches(g: seq<Block>, g': seq<Block>, blocks: seq<u64>, writes: seq<BlockWrite>)
    requires |g'| == |g| && NoRepeats(blocks)
    requires forall i :: 0 <= i < |writes| ==> writes[i].index < |blocks| && blocks[writes[i].index] < |g|
    requires forall i :: 0 <= i < |writes| ==> g'[blocks[writes[i].index]] == writes[i].image
    requires forall b :: 0 <= b < |g| && (forall i :: 0 <= i < |writes| ==> blocks[writes[i].index] != b) ==>
               g'[b] == g[b]
    ensures IsPatch(Contents(g, blocks), Contents(g', blocks), writes)
    ensures forall b :: 0 <= b < |g| && b !in blocks ==> g'[b] == g[b]
  {
    forall x | 0 <= x < |blocks| && (forall i :: 0 <= i < |writes| ==> writes[i].index != x)
      ensures Contents(g', blocks)[x] == Contents(g, blocks)[x]
    {
      assert blocks[x] < |g| ==> forall i :: 0 <= i < |writes| ==> blocks[writes[i].index] != blocks[x];
    }
  }

  /** What a successful range write leaves on a consistent volume. */
  lemma RangeLeaves(crc: Checksum, sb: Superblock, d0: Disk, d: Disk, m: Metadata, id: u64, first: nat, offset: nat,
                    data: seq<byte>)
    requires Ready(crc, sb, d0) && |d.durable| == |d0.durable| && LoadMetadata(crc, sb, d0.durable) == Ok(m)
    requires FsckOk(sb, m) && WritesRange(crc, sb, d0, d, m, id, first, offset, data, true)
    ensures LoadMetadata(crc, sb, d.durable) == Ok(m)
    ensures RangeWritten(m, d0.durable, d.durable, id, first, offset, data)
  {
    hide LoadMetadata, Quiescent, Recovers, Settles, FindInode, Resolve, FsckOk, Contents, Flatten, OnlyFileBecomes,
      SameData, RangeResult, Overwrites, RangeBatch, IsKind;
    var g := d0.durable;
    RangeOkIsExact(sb, m, id, first, offset, |data|);
    var k: nat :| InFile(m, k, id, first, offset, |data|);
    forall i | first <= i < first + Span(offset + |data|)
      ensures Resolve(sb, m, id, i).Ok? && IsData(sb, Resolve(sb, m, id, i).value)
    {
      ConsistentRange(sb, m, id, i);
    }
    RangeChanges(crc, sb, d0, d, m, id, first, offset, data, true);
    LoadedShape(crc, sb, g, id);
    RangeResultBytes(sb, m, g, id, first, offset, data);
    HoldsBecomes(crc, sb, m, g, RangeResult(sb, m, g, id, first, offset, data), d.durable, k);
  }

  // ------------------------------------------------------------------------ copying

  datatype Endpoint = Endpoint(inode: u64, first: nat, offset: nat)

  /** `copy_file_range_journaled`: the destination range becomes what the source range held before
      the copy, also when the two overlap in one file. */
  method CopyFileRange(device: BlockDevice, crc: Checksum, sb: Superblock, src: Endpoint, dst: Endpoint, len: nat)
    returns (r: Result<RecoveryReport>)
    requires device.Valid() && ValidGeometry(sb)
    modifies device
    ensures device.Valid() && device.BlockCount() == old(device.BlockCount())
    ensures device.BlockCount() != sb.totalBlocks ==> r.Err? && device.disk == old(device.disk)
    ensures Ready(crc, sb, old(device.disk)) && LoadMetadata(crc, sb, old(device.disk).durable).Ok? ==>
              var m := LoadMetadata(crc, sb, old(device.disk).durable).value;
              && Copies(crc, sb, old(device.disk), device.disk, m, src, dst, len, r.Ok?, device.faulty)
              && (r.Ok? && FsckOk(sb, m) ==>
                    && LoadMetadata(crc, sb, device.disk.durable) == Ok(m)
                    && RangeCopied(m, old(device.disk).durable, device.disk.durable, src, dst, len))
  {
    hide Run, LoadMetadata, Quiescent, Recovers, WritesRange, RangeWriteFits, RangeOf, FsckOk, RangeCopied,
      RangeWritten;
    ghost var d0 := device.disk;
    ghost var known := Ready(crc, sb, d0) && LoadMetadata(crc, sb, d0.durable).Ok?;
    ghost var m := if known then LoadMetadata(crc, sb, d0.durable).value else Metadata([], [], []);
    if known {
      Unchanged(crc, sb, d0, m, m, d0.durable);
      var bytes := RangeOf(sb, m, d0.durable, src.inode, src.first, src.offset, len);
      if bytes.Ok? {
        NothingWritten(crc, sb, d0, m, dst.inode, dst.first, dst.offset, bytes.value);
      }
    }
    var snapshot := ReadFileRange(device, crc, sb, src.inode, src.first, src.offset, len);
    if snapshot.Err? {
      return Err(snapshot.kind);
    }
    r := WriteFileRange(device, crc, sb, dst.inode, dst.first, dst.offset, snapshot.value);
    if known && r.Ok? && FsckOk(sb, m) {
      RangeIsExact(sb, m, d0.durable, src.inode, src.first, src.offset, len, snapshot.value);
      CopyIs(m, d0.durable, device.disk.durable, src, dst, len, snapshot.value);
    }
  }

  /** The destination range holds what the source range held before, and no other file changed. */
  ghost predicate RangeCopied(m: Metadata, g: seq<Block>, g': seq<Block>, src: Endpoint, dst: Endpoint, len: nat) {
    exists k: nat ::
      && InFile(m, k, src.inode, src.first, src.offset, len)
      && var pos := src.first * BLOCK_SIZE + src.offset;
         RangeWritten(m, g, g', dst.inode, dst.first, dst.offset, BytesAt(m, g, k)[pos..pos + len])
  }

  lemma CopyIs(m: Metadata, g: seq<Block>, g': seq<Block>, src: Endpoint, dst: Endpoint, len: nat, bytes: seq<byte>)
    requires exists k: nat ::
               && InFile(m, k, src.inode, src.first, src.offset, len)
               && var pos := src.first * BLOCK_SIZE + src.offset; bytes == BytesAt(m, g, k)[pos..pos + len]
    requires RangeWritten(m, g, g', dst.inode, dst.first, dst.offset, bytes)
    ensures RangeCopied(m, g, g', src, dst, len)
  {
    hide RangeWritten, BytesAt;
  }

  ghost predicate Copies(crc: Checksum, sb: Superblock, d0: Disk, d: Disk, m: Metadata, src: Endpoint, dst: Endpoint,
                         len: nat, ok: bool, faulty: bool)
    requires Ready(crc, sb, d0) && |d.durable| == |d0.durable|
  {
    match RangeOf(sb, m, d0.durable, src.inode, src.first, src.offset, len)
    case Err(_) => !ok && Recovers(crc, sb, d, m, d0.durable)
    case Ok(bytes) =>
      && WritesRange(crc, sb, d0, d, m, dst.inode, dst.first, dst.offset, bytes, ok)
      && (!faulty && RangeWriteFits(crc, sb, m, d0.durable, dst.inode, dst.first, dst.offset, bytes) ==> ok)
  }

  /** On a consistent volume a range write leaves every other file's bytes alone. */
  lemma OtherFilesKeep(sb: Superblock, m: Metadata, g: seq<Block>, id: u64, first: nat, offset: nat, data: seq<byte>,
                       other: u64)
    requires FsckOk(sb, m) && |g| == sb.totalBlocks && RangeOk(sb, m, id, first, offset, |data|)
    requires other != id && IsKind(m.inodes, other, File)
    ensures FileBytes(m, RangeResult(sb, m, g, id, first, offset, data), other) == FileBytes(m, g, other)
  {
    hide FindInode, RangeResult, Flatten, NamespaceOk, OwnershipOk, Contents, Resolve;
    RangeNeeds(sb, m, id, first, offset, |data|);
    OwnershipByFile(sb, m.owned, m.inodes);
    var i, j := FindInode(m.inodes, id).value, FindInode(m.inodes, other).value;
    assert BlocksOk(sb, m.owned, m.inodes[i].blocks) && BlocksOk(sb, m.owned, m.inodes[j].blocks)
        && Disjoint(m.inodes[j], m.inodes[i]);
    RangeResultBytes(sb, m, g, id, first, offset, data);
    var blocks := m.inodes[j].blocks;
    assert forall a :: 0 <= a < |blocks| ==> blocks[a] in blocks && blocks[a] !in m.inodes[i].blocks;
    SameContents(g, RangeResult(sb, m, g, id, first, offset, data), blocks);
  }

  /** On a consistent volume every block of a file is a data block, so a range write is exactly the
      replacement of that range. */
  lemma ConsistentRange(sb: Superblock, m: Metadata, id: u64, index: nat)
    requires FsckOk(sb, m) && Resolve(sb, m, id, index).Ok?
    ensures IsData(sb, Resolve(sb, m, id, index).value)
  {
    hide NamespaceOk, OwnershipOk;
    OwnershipByFile(sb, m.owned, m.inodes);
    var i := FindInode(m.inodes, id).value;
    assert BlocksOk(sb, m.owned, m.inodes[i].blocks);
    assert m.inodes[i].blocks[index] in m.inodes[i].blocks;
  }
}
