/** A mounted volume seen as metadata and data blocks: loading it, checking it, and changing both
    in one transaction. */
module Volume {
  import opened Bytes
  import opened Blocks
  import opened Results
  import opened Format
  import opened Journal
  import opened JournalRegion
  import opened Device
  import opened Crash
  import opened Wal
  import opened Journaled
  import opened Allocation
  import opened TableImage
  import opened InodeTable
  import opened MetadataTx
  import opened Fsck
  import Dirs = DirectoryTable

  type DirEntry = Dirs.DirEntry

  predicate DistinctIds(inodes: seq<Inode>) {
    forall i, j :: 0 <= i < j < |inodes| ==> inodes[i].id != inodes[j].id
  }

  predicate UniqueKeys(es: seq<DirEntry>) {
    forall i, j :: 0 <= i < j < |es| ==> es[i].parent != es[j].parent || es[i].name != es[j].name
  }

  /** Metadata `check_device` accepts. */
  ghost predicate FsckOk(sb: Superblock, m: Metadata) {
    && ValidGeometry(sb) && |m.owned| == sb.totalBlocks && ValidOwned(m.owned, ReservedBlocks(sb))
    && DistinctIds(m.inodes) && UniqueKeys(m.entries)
    && NamespaceOk(KindMap(m.inodes), m.entries)
    && OwnershipOk(sb, m.owned, m.inodes)
  }

  // ------------------------------------------------------------------------ loading

  method ReadRegion(device: BlockDevice, start: nat, n: nat) returns (r: Result<seq<byte>>)
    requires device.Valid() && start + n <= device.BlockCount() < U64_LIMIT
    ensures r.Ok? && device.disk.pending == [] ==> r.value == Slice(device.disk.durable, start, n)
    ensures r.Ok? ==> |r.value| == n * BLOCK_SIZE
    ensures r.Err? ==> device.faulty
  {
    hide Run;
    var bytes: seq<byte> := [];
    ghost var region := device.disk.durable[start..start + n];
    var i := 0;
    while i < n
      invariant 0 <= i <= n
      invariant |bytes| == i * BLOCK_SIZE
      invariant device.disk.pending == [] ==> bytes == Flatten(region[..i])
    {
      var block := device.ReadBlock(start + i);
      if block.Err? {
        return Err(Other);
      }
      assert region[..i + 1][..i] == region[..i];
      bytes := bytes + block.value;
      i := i + 1;
    }
    assert region[..i] == region;
    return Ok(bytes);
  }

  method LoadRecords<T(!new), K(==, !new)>(device: BlockDevice, crc: Checksum, f: TableFormat<T, K>, start: nat, n: nat)
    returns (r: Result<seq<T>>)
    requires device.Valid() && start + n <= device.BlockCount() < U64_LIMIT && Sound(f)
    ensures r.Ok? && device.disk.pending == [] ==> r == LoadTable(crc, f, device.disk.durable, start, n)
    ensures r.Err? && device.disk.pending == [] ==>
              device.faulty || LoadTable(crc, f, device.disk.durable, start, n).Err?
    ensures r.Ok? ==> Distinct(f.key, r.value)
  {
    hide Parse, Run, Flatten, Image;
    if n * BLOCK_SIZE >= U64_LIMIT {
      return Err(InvalidInput);
    }
    var image := ReadRegion(device, start, n);
    if image.Err? {
      return Err(image.kind);
    }
    r := DecodeTable(crc, f, image.value);
    if r.Ok? {
      ParsedIsCanonical(crc, f, image.value);
    }
  }

  /** What a load through a settled device returned, next to what the disk holds. */
  ghost predicate Loaded<T>(device: BlockDevice, r: Result<T>, stored: Result<T>)
    reads device
  {
    device.disk.pending == [] ==> (r.Ok? ==> r == stored) && (r.Err? ==> device.faulty || stored.Err?)
  }

  function StoredInodes(crc: Checksum, sb: Superblock, blocks: seq<Block>): Result<seq<Inode>>
    requires ValidGeometry(sb) && |blocks| == sb.totalBlocks
  {
    LoadTable(crc, InodeFormat(crc), blocks, sb.inodeStart, sb.inodeBlocks)
  }

  function StoredEntries(crc: Checksum, sb: Superblock, blocks: seq<Block>): Result<seq<DirEntry>>
    requires ValidGeometry(sb) && |blocks| == sb.totalBlocks
  {
    LoadTable(crc, Dirs.DirectoryFormat(crc), blocks, sb.directoryStart, sb.directoryBlocks)
  }

  function StoredOwned(crc: Checksum, sb: Superblock, blocks: seq<Block>): Result<seq<bool>>
    requires ValidGeometry(sb) && |blocks| == sb.totalBlocks
  {
    LoadOwned(crc, sb, Slice(blocks, sb.allocationStart, sb.allocationBlocks))
  }

  method LoadInodes(device: BlockDevice, crc: Checksum, sb: Superblock) returns (r: Result<seq<Inode>>)
    requires device.Valid() && ValidGeometry(sb) && device.BlockCount() == sb.totalBlocks
    ensures Loaded(device, r, StoredInodes(crc, sb, device.disk.durable))
    ensures r.Ok? ==> DistinctIds(r.value)
  {
    hide LoadTable, Run;
    FormatSound(crc);
    r := LoadRecords(device, crc, InodeFormat(crc), sb.inodeStart, sb.inodeBlocks);
    if r.Ok? {
      IdKeys(crc, r.value);
    }
  }

  method LoadEntries(device: BlockDevice, crc: Checksum, sb: Superblock) returns (r: Result<seq<DirEntry>>)
    requires device.Valid() && ValidGeometry(sb) && device.BlockCount() == sb.totalBlocks
    ensures Loaded(device, r, StoredEntries(crc, sb, device.disk.durable))
    ensures r.Ok? ==> UniqueKeys(r.value)
  {
    hide LoadTable, Run;
    Dirs.FormatSound(crc);
    r := LoadRecords(device, crc, Dirs.DirectoryFormat(crc), sb.directoryStart, sb.directoryBlocks);
    if r.Ok? {
      EntryKeys(crc, r.value);
    }
  }

  /** `load_allocator`; the vector is the allocator's state. */
  method LoadAllocator(device: BlockDevice, crc: Checksum, sb: Superblock)
    returns (r: Result<seq<bool>>, a: BlockAllocator?)
    requires device.Valid() && ValidGeometry(sb) && device.BlockCount() == sb.totalBlocks
    ensures Loaded(device, r, StoredOwned(crc, sb, device.disk.durable))
    ensures r.Ok? ==>
              a != null && fresh(a) && a.Valid() && a.owned == r.value && a.reserved == ReservedBlocks(sb)
              && |a.owned| == sb.totalBlocks
  {
    hide Run, ParseAlloc, Bit, Flatten;
    var image := ReadRegion(device, sb.allocationStart, sb.allocationBlocks);
    if image.Err? {
      return Err(image.kind), null;
    }
    var parsed := ParseAlloc(crc, sb, image.value);
    if parsed.Err? {
      return Err(parsed.kind), null;
    }
    ParsedBitmap(crc, sb, image.value);
    a := RebuildAllocator(sb, parsed.value);
    RebuiltIsStored(sb, parsed.value, a.owned);
    return Ok(a.owned), a;
  }

  lemma RebuiltIsStored(sb: Superblock, bitmap: seq<byte>, owned: seq<bool>)
    requires ValidGeometry(sb) && |bitmap| == BitmapLen(sb) && ValidBits(sb, bitmap)
    requires |owned| == sb.totalBlocks && ValidOwned(owned, ReservedBlocks(sb))
    requires forall i :: ReservedBlocks(sb) <= i < sb.totalBlocks ==> owned[i] == Bit(bitmap, i)
    ensures owned == OwnedOf(sb, bitmap)
  {
    hide Bit;
  }

  lemma LoadedParts(crc: Checksum, sb: Superblock, blocks: seq<Block>)
    requires ValidGeometry(sb) && |blocks| == sb.totalBlocks
    ensures LoadMetadata(crc, sb, blocks).Ok? <==>
              StoredOwned(crc, sb, blocks).Ok? && StoredInodes(crc, sb, blocks).Ok?
                  && StoredEntries(crc, sb, blocks).Ok?
    ensures LoadMetadata(crc, sb, blocks).Ok? ==>
              LoadMetadata(crc, sb, blocks).value == Metadata(StoredOwned(crc, sb, blocks).value,
                                                              StoredInodes(crc, sb, blocks).value,
                                                              StoredEntries(crc, sb, blocks).value)
  {
    hide LoadOwned, LoadTable;
  }

  /** Whatever loads could have been stored: its records are valid and its keys unique. */
  lemma LoadedIsRenderable(crc: Checksum, sb: Superblock, blocks: seq<Block>)
    requires ValidGeometry(sb) && |blocks| == sb.totalBlocks && LoadMetadata(crc, sb, blocks).Ok?
    ensures Renderable(crc, sb, LoadMetadata(crc, sb, blocks).value)
  {
    hide Parse, Encodable, Image, Flatten, LoadOwned;
    FormatSound(crc);
    Dirs.FormatSound(crc);
    FlattenLength(blocks[sb.inodeStart..sb.inodeStart + sb.inodeBlocks]);
    FlattenLength(blocks[sb.directoryStart..sb.directoryStart + sb.directoryBlocks]);
    ParsedIsCanonical(crc, InodeFormat(crc), Slice(blocks, sb.inodeStart, sb.inodeBlocks));
    ParsedIsCanonical(crc, Dirs.DirectoryFormat(crc), Slice(blocks, sb.directoryStart, sb.directoryBlocks));
  }

  lemma FlattenLength(blocks: seq<Block>)
    ensures |Flatten(blocks)| == |blocks| * BLOCK_SIZE
  {
  }

  lemma IdKeys(crc: Checksum, inodes: seq<Inode>)
    ensures Distinct(InodeFormat(crc).key, inodes) <==> DistinctIds(inodes)
  {
    var f := InodeFormat(crc);
    assert forall i :: 0 <= i < |inodes| ==> f.key(inodes[i]) == inodes[i].id;
  }

  lemma EntryKeys(crc: Checksum, es: seq<DirEntry>)
    ensures Distinct(Dirs.DirectoryFormat(crc).key, es) <==> UniqueKeys(es)
  {
    var f := Dirs.DirectoryFormat(crc);
    assert forall i :: 0 <= i < |es| ==> f.key(es[i]) == (es[i].parent, es[i].name);
  }

  lemma RenderableKeys(crc: Checksum, sb: Superblock, m: Metadata)
    requires Renderable(crc, sb, m)
    ensures DistinctIds(m.inodes) && UniqueKeys(m.entries)
  {
    hide Distinct, DistinctIds, UniqueKeys;
    IdKeys(crc, m.inodes);
    EntryKeys(crc, m.entries);
  }

  // ------------------------------------------------------------------------ checking

  /** `read_superblock`, on the blocks of a device. */
  function OnDisk(blocks: seq<Block>): (r: Result<Superblock>)
    ensures r.Ok? ==> ValidGeometry(r.value) && r.value.totalBlocks == |blocks|
  {
    if |blocks| == 0 then Err(Other)
    else
      var sb :- Decode(blocks[SUPERBLOCK_BLOCK]);
      if sb.totalBlocks != |blocks| then Err(InvalidData) else Ok(sb)
  }

  method ReadSuperblock(device: BlockDevice) returns (r: Result<Superblock>)
    requires device.Valid()
    ensures r.Ok? ==> ValidGeometry(r.value) && r.value.totalBlocks == device.BlockCount()
    ensures Loaded(device, r, OnDisk(device.disk.durable))
  {
    hide Run, Decode;
    var block := device.ReadBlock(SUPERBLOCK_BLOCK);
    if block.Err? {
      return Err(Other);
    }
    DecodedGeometry(block.value);
    var sb := Decode(block.value);
    if sb.Err? {
      return sb;
    }
    if sb.value.totalBlocks != device.BlockCount() {
      return Err(InvalidData);
    }
    return sb;
  }

  lemma DecodedGeometry(b: Block)
    ensures Decode(b).Ok? ==> ValidGeometry(Decode(b).value)
  {
  }

  datatype FsckReport = FsckReport(totalBlocks: nat, reservedBlocks: nat, dataBlocks: nat, allocatedBlocks: nat,
                                   freeBlocks: nat, inodeRecords: nat, referencedBlocks: nat, directoryEntries: nat,
                                   journalEntries: nat, journalWrites: nat, committedTransactions: nat,
                                   pendingTransaction: Option<TxId>)

  /** The report on a volume with these tables and this journal.  The writes counted are those of the
      committed transactions and of the pending one. */
  function ReportOf(sb: Superblock, m: Metadata, es: seq<Entry>): FsckReport
    requires ValidGeometry(sb) && |m.owned| == sb.totalBlocks && WellFormed(es)
  {
    var reserved, scan := ReservedBlocks(sb), ScanLog(es).value;
    var taken := CountTrue(m.owned[reserved..]);
    FsckReport(sb.totalBlocks, reserved, sb.totalBlocks - reserved, taken, sb.totalBlocks - reserved - taken,
               |m.inodes|, References(m.inodes), |m.entries|,
               |es|, |scan.committed| + |scan.pending|, scan.commits, scan.active)
  }

  /** `audit_journal`: on a log that loaded nothing is left to refuse, and it counts. */
  method AuditJournal(sb: Superblock, es: seq<Entry>, taken: nat, free: nat, inodes: nat, referenced: nat, entries: nat)
    returns (r: Result<FsckReport>)
    requires ValidGeometry(sb)
    ensures r.Ok? <==> Admissible(sb, es) && taken + free == sb.totalBlocks - ReservedBlocks(sb)
    ensures r.Ok? ==>
              var scan := ScanLog(es).value;
              r.value == FsckReport(sb.totalBlocks, ReservedBlocks(sb), sb.totalBlocks - ReservedBlocks(sb), taken,
                  free,
                                    inodes, referenced, entries,
                                    |es|, |scan.committed| + |scan.pending|, scan.commits, scan.active)
  {
    var reserved := ReservedBlocks(sb);
    if taken + free != sb.totalBlocks - reserved {
      return Err(InvalidData);
    }
    var active: Option<TxId>, writes: nat, commits: nat := None, 0, 0;
    var i := 0;
    while i < |es|
      invariant 0 <= i <= |es| && Admissible(sb, es[..i])
      invariant var scan := ScanLog(es[..i]).value;
                && scan.active == active && scan.commits == commits && writes == |scan.committed| + |scan.pending|
                && (active.None? ==> scan.pending == [])
    {
      hide ScanLog;
      var e := es[i];
      assert es[..i + 1] == es[..i] + [e];
      ScanSnoc(es[..i], e);
      if (if e.Begin? then active.Some? else active != Some(e.txid)) {
        RejectedPrefix(es, i + 1);
        return Err(InvalidData);
      }
      if e.Write? && !IsHome(sb, e.block) {
        return Err(InvalidData);
      }
      match e {
        case Begin(t) => active := Some(t);
        case Write(_, _, _) => writes := writes + 1;
        case Commit(_) => active, commits := None, commits + 1;
      }
      i := i + 1;
    }
    assert es[..|es|] == es;
    return Ok(FsckReport(sb.totalBlocks, reserved, sb.totalBlocks - reserved, taken, free,
                         inodes, referenced, entries, |es|, writes, commits, active));
  }

  /** A device `check_device` accepts: its superblock decodes and fits it, its tables load and are
      consistent, and its journal loads. */
  ghost predicate Consistent(crc: Checksum, blocks: seq<Block>) {
    && OnDisk(blocks).Ok?
    && var sb := OnDisk(blocks).value;
       && LoadMetadata(crc, sb, blocks).Ok? && FsckOk(sb, LoadMetadata(crc, sb, blocks).value)
       && Load(crc, sb, blocks).Ok?
  }

  /** The report on such a device. */
  ghost function Report(crc: Checksum, blocks: seq<Block>): FsckReport
    requires Consistent(crc, blocks)
  {
    var sb := OnDisk(blocks).value;
    LoadedLog(crc, sb, blocks);
    ReportOf(sb, LoadMetadata(crc, sb, blocks).value, Load(crc, sb, blocks).value)
  }

  lemma LoadedLog(crc: Checksum, sb: Superblock, blocks: seq<Block>)
    requires Load(crc, sb, blocks).Ok?
    ensures Admissible(sb, Load(crc, sb, blocks).value)
  {
  }

  /** `check_device`: on a settled device it accepts only sound volumes, and without read faults all of
      them; the report is exact. */
  method CheckDevice(device: BlockDevice, crc: Checksum) returns (r: Result<FsckReport>)
    requires device.Valid()
    ensures device.disk.pending == [] && r.Ok? ==>
              Consistent(crc, device.disk.durable) && r.value == Report(crc, device.disk.durable)
    ensures device.disk.pending == [] && r.Err? && !device.faulty ==> !Consistent(crc, device.disk.durable)
  {
    hide Run, Decode, Load, LoadMetadata, FsckOk, ReportOf, ScanLog, CountTrue, Admissible;
    var sb := ReadSuperblock(device);
    if sb.Err? {
      return Err(sb.kind);
    }
    var m := CheckTables(device, crc, sb.value);
    if m.Err? {
      return Err(m.kind);
    }
    var log := LoadJournalImage(device, crc, sb.value);
    if log.Err? {
      return Err(log.kind);
    }
    var (taken, free, inodes, references, entries) := m.value;
    r := AuditJournal(sb.value, log.value, taken, free, inodes, references, entries);
    if device.disk.pending == [] {
      ReportIs(sb.value, LoadMetadata(crc, sb.value, device.disk.durable).value, log.value);
    }
  }

  lemma ReportIs(sb: Superblock, m: Metadata, es: seq<Entry>)
    requires FsckOk(sb, m) && Admissible(sb, es)
    ensures WellFormed(es) && |m.owned| == sb.totalBlocks && ValidGeometry(sb)
    ensures var reserved, scan := ReservedBlocks(sb), ScanLog(es).value;
            var taken := CountTrue(m.owned[reserved..]);
            ReportOf(sb, m, es) ==
            FsckReport(sb.totalBlocks, reserved, sb.totalBlocks - reserved, taken, sb.totalBlocks - reserved - taken,
                       |m.inodes|, References(m.inodes), |m.entries|,
                       |es|, |scan.committed| + |scan.pending|, scan.commits, scan.active)
  {
    hide NamespaceOk, OwnershipOk;
  }

  /** The tables of `check_device`: loaded and audited; the counts for the report. */
  method CheckTables(device: BlockDevice, crc: Checksum, sb: Superblock) returns (r: Result<(nat, nat, nat, nat, nat)>)
    requires device.Valid() && ValidGeometry(sb) && device.BlockCount() == sb.totalBlocks
    ensures r.Ok? ==> r.value.0 + r.value.1 == sb.totalBlocks - ReservedBlocks(sb)
    ensures device.disk.pending == [] && r.Ok? ==>
              && LoadMetadata(crc, sb, device.disk.durable).Ok?
                  && FsckOk(sb, LoadMetadata(crc, sb, device.disk.durable).value)
              && var m := LoadMetadata(crc, sb, device.disk.durable).value;
                 r.value.0 == CountTrue(m.owned[ReservedBlocks(sb)..]) && r.value.2 == |m.inodes| &&
                 r.value.3 == References(m.inodes) && r.value.4 == |m.entries|
    ensures device.disk.pending == [] && r.Err? && !device.faulty && LoadMetadata(crc, sb, device.disk.durable).Ok? ==>
              !FsckOk(sb, LoadMetadata(crc, sb, device.disk.durable).value)
  {
    hide Run, NamespaceOk, OwnershipOk, KindMap, LoadMetadata, StoredInodes, StoredEntries, StoredOwned, Renderable,
      References, CountTrue;
    LoadedParts(crc, sb, device.disk.durable);
    ghost var stored := LoadMetadata(crc, sb, device.disk.durable);
    if stored.Ok? {
      LoadedIsRenderable(crc, sb, device.disk.durable);
      RenderableKeys(crc, sb, stored.value);
      RenderableOwned(crc, sb, stored.value);
    }
    var owned, a := LoadAllocator(device, crc, sb);
    if owned.Err? {
      return Err(owned.kind);
    }
    var inodes := LoadInodes(device, crc, sb);
    if inodes.Err? {
      return Err(inodes.kind);
    }
    var count := AuditOwnership(sb, a.owned, inodes.value);
    if count.Err? {
      return Err(InvalidData);
    }
    var entries := LoadEntries(device, crc, sb);
    if entries.Err? {
      return Err(entries.kind);
    }
    var ok := AuditNamespace(inodes.value, entries.value);
    if !ok {
      return Err(InvalidData);
    }
    a.Accounting();
    return Ok((a.count, a.FreeBlocks(), |inodes.value|, count.value, |entries.value|));
  }

  lemma RenderableOwned(crc: Checksum, sb: Superblock, m: Metadata)
    requires Renderable(crc, sb, m)
    ensures ValidGeometry(sb) && |m.owned| == sb.totalBlocks && ValidOwned(m.owned, ReservedBlocks(sb))
  {
  }

  // ------------------------------------------------------------------------ changing

  predicate SameData(sb: Superblock, a: seq<Block>, b: seq<Block>) {
    |a| == |b| && forall i :: ReservedBlocks(sb) <= i < |a| ==> a[i] == b[i]
  }

  /** `h` holds the metadata `m`, and the data blocks of `g`. */
  ghost predicate Holds(crc: Checksum, sb: Superblock, h: seq<Block>, m: Metadata, g: seq<Block>) {
    && ValidGeometry(sb) && |h| == sb.totalBlocks
    && LoadMetadata(crc, sb, h) == Ok(m) && SameData(sb, h, g)
  }

  /** Whatever a crash leaves of `d` recovers to `m` and the data of `g`. */
  ghost predicate Recovers(crc: Checksum, sb: Superblock, d: Disk, m: Metadata, g: seq<Block>)
    requires Mounted(sb, |d.durable|)
  {
    exists h :: Stands(crc, sb, d, h) && Holds(crc, sb, h, m, g)
  }

  /** The outcome of an attempt to go from (m, g) to (m', g'): after a crash at any point the volume
      recovers to one of the two; on success it is at (m', g') durably and ready for more. */
  ghost predicate Changes(crc: Checksum, sb: Superblock, d: Disk, m: Metadata, g: seq<Block>, m': Metadata,
                          g': seq<Block>, ok: bool)
    requires Mounted(sb, |d.durable|)
  {
    && (Recovers(crc, sb, d, m, g) || Recovers(crc, sb, d, m', g'))
    && (ok ==> Ready(crc, sb, d) && Holds(crc, sb, d.durable, m', g'))
  }

  lemma HoldsStripped(crc: Checksum, sb: Superblock, blocks: seq<Block>, m: Metadata, g: seq<Block>)
    requires Mounted(sb, |blocks|)
    ensures Holds(crc, sb, Strip(sb, blocks), m, g) <==> Holds(crc, sb, blocks, m, g)
  {
    hide LoadMetadata;
    LoadIgnoresJournal(crc, sb, blocks);
    assert forall i :: ReservedBlocks(sb) <= i < |blocks| ==> Strip(sb, blocks)[i] == blocks[i];
  }

  /** A settled transaction changes the volume from what it held to what the new blocks hold. */
  lemma SettledChanges(crc: Checksum, sb: Superblock, d0: Disk, d: Disk, after: seq<Block>, ok: bool,
                       m: Metadata, m': Metadata, g': seq<Block>)
    requires Ready(crc, sb, d0) && |d.durable| == |d0.durable| && Settles(crc, sb, d0, d, after, ok)
    requires LoadMetadata(crc, sb, d0.durable) == Ok(m) && Holds(crc, sb, after, m', g')
    ensures Changes(crc, sb, d, m, d0.durable, m', g', ok)
  {
    hide LoadMetadata, Stands, Quiescent, Strip;
    HoldsStripped(crc, sb, d0.durable, m, d0.durable);
    HoldsStripped(crc, sb, d.durable, m', g');
    assert Holds(crc, sb, Strip(sb, d0.durable), m, d0.durable);
  }

  lemma Unchanged(crc: Checksum, sb: Superblock, d: Disk, m: Metadata, m': Metadata, g': seq<Block>)
    requires Ready(crc, sb, d) && LoadMetadata(crc, sb, d.durable) == Ok(m)
    ensures Recovers(crc, sb, d, m, d.durable)
    ensures Changes(crc, sb, d, m, d.durable, m', g', false)
  {
    hide LoadMetadata, Stands, Quiescent, Strip;
    QuiescentStands(crc, sb, d.durable);
    HoldsStripped(crc, sb, d.durable, m, d.durable);
    assert Holds(crc, sb, Strip(sb, d.durable), m, d.durable);
  }

  /** Replacing the directory table replaces the entries only. */
  lemma EntryImageHolds(crc: Checksum, sb: Superblock, blocks: seq<Block>, m: Metadata, es: seq<DirEntry>)
    requires Mounted(sb, |blocks|) && LoadMetadata(crc, sb, blocks) == Ok(m)
    requires Encodable(Dirs.DirectoryFormat(crc), sb.directoryBlocks * BLOCK_SIZE, es)
    ensures Holds(crc, sb, Overlay(Strip(sb, blocks), sb.directoryStart, EntryImage(crc, sb, es)), m.(entries := es),
              blocks)
  {
    hide LoadOwned, Parse, EntryImage, Flatten, Encodable, Strip, Overlay;
    var before := Strip(sb, blocks);
    var after := Overlay(before, sb.directoryStart, EntryImage(crc, sb, es));
    LoadIgnoresJournal(crc, sb, blocks);
    RegionTooLarge(Dirs.DirectoryFormat(crc), sb.directoryBlocks * BLOCK_SIZE, es);
    OverlayAround(before, sb.directoryStart, EntryImage(crc, sb, es));
    SameSlice(after, before, sb.allocationStart, sb.allocationBlocks);
    SameSlice(after, before, sb.inodeStart, sb.inodeBlocks);
    EntryImageLoads(crc, sb, es);
    StripOutside(sb, blocks);
  }

  lemma OverlayAround(blocks: seq<Block>, lo: nat, image: seq<Block>)
    requires lo + |image| <= |blocks|
    ensures Overlay(blocks, lo, image)[lo..lo + |image|] == image
    ensures forall i :: 0 <= i < |blocks| && !(lo <= i < lo + |image|) ==> Overlay(blocks, lo, image)[i] == blocks[i]
  {
  }

  lemma MetaImageHolds(crc: Checksum, sb: Superblock, blocks: seq<Block>, m: Metadata)
    requires Mounted(sb, |blocks|) && Renderable(crc, sb, m)
    ensures Holds(crc, sb, Overlay(Strip(sb, blocks), sb.allocationStart, MetaImage(crc, sb, m)), m, blocks)
  {
    hide LoadMetadata, Strip, Overlay, Renderable, MetaImage;
    MetaImageLoads(crc, sb, Strip(sb, blocks), m);
    OverlayAround(Strip(sb, blocks), sb.allocationStart, MetaImage(crc, sb, m));
    StripOutside(sb, blocks);
  }
}
