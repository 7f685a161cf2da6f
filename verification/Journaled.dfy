/** The operations that drive a device through the write-ahead log: `journal_region.rs`,
    `recovery.rs`, `journal_checkpoint.rs` and the shared tail of the `*_tx.rs` files. */
module Journaled {
  import opened Bytes
  import opened Blocks
  import opened Results
  import opened Format
  import opened Journal
  import opened JournalCodec
  import opened JournalRegion
  import opened Device
  import opened Crash
  import opened Wal
  import opened Seals

  datatype RecoveryReport = RecoveryReport(committedTransactions: nat, homeWrites: nat)

  /** A device has gone some way, perhaps all, through `ops`. */
  ghost predicate Partway(before: seq<Op>, after: seq<Op>, ops: seq<Op>) {
    before <= after <= before + ops
  }

  predicate JournalSettled(sb: Superblock, d: Disk) {
    forall i :: 0 <= i < |d.pending| ==> !InJournal(sb, d.pending[i].block)
  }

  predicate Storable(crc: Checksum, sb: Superblock, count: nat, es: seq<Entry>) {
    RegionOk(sb, count) && Admissible(sb, es) && Fits(crc, Capacity(sb), es)
  }

  /** Publishes a journal image: every block of the region, header block last, then one flush. */
  method StoreJournalImage(device: BlockDevice, crc: Checksum, sb: Superblock, es: seq<Entry>) returns (r: Result<()>)
    requires device.Valid()
    modifies device
    ensures device.Valid() && device.BlockCount() == old(device.BlockCount())
    ensures r.Ok? ==>
              Storable(crc, sb, device.BlockCount(), es) && device.log == old(device.log) + StoreOps(crc, sb, es)
    ensures Storable(crc, sb, device.BlockCount(), es) ==> Partway(old(device.log), device.log, StoreOps(crc, sb, es))
    ensures !Storable(crc, sb, device.BlockCount(), es) ==> device.log == old(device.log)
    ensures !device.faulty && Storable(crc, sb, device.BlockCount(), es) ==> r.Ok?
  {
    if !RegionOk(sb, device.BlockCount()) {
      return Err(InvalidInput);
    }
    var valid := ValidateEntries(sb, es);
    if !valid {
      return Err(InvalidData);
    }
    var payload := EncodeEntries(crc, es);
    var used := REGION_HEADER + |payload|;
    if used > Capacity(sb) {
      return Err(InvalidInput);
    }
    hide Phase, RegionImage, EncodeStream, Admissible;
    var region := RenderRegion(crc, Capacity(sb), es, payload);
    ghost var ws := StoreWrites(sb, region);
    ghost var base := device.log;
    PhaseParts(base, ws);
    var ok := WriteRegion(device, sb, region);
    if ok {
      ok := device.Flush();
    }
    return if ok then Ok(()) else Err(Other);
  }

  function Splice(buffer: seq<byte>, at: nat, bytes: seq<byte>): (r: seq<byte>)
    requires at + |bytes| <= |buffer|
    ensures |r| == |buffer|
  {
    buffer[..at] + bytes + buffer[at + |bytes|..]
  }

  /** Fills the region buffer field by field. */
  method RenderRegion(crc: Checksum, capacity: nat, es: seq<Entry>, payload: seq<byte>) returns (region: seq<byte>)
    requires payload == EncodeStream(crc, es) && Fits(crc, capacity, es)
    ensures region == RegionImage(crc, capacity, es)
  {
    var used := REGION_HEADER + |payload|;
    region := Zeros(capacity);
    region := Splice(region, 0, REGION_MAGIC);
    region := Splice(region, 4, Le16(REGION_VERSION));
    region := Splice(region, 6, [0, 0]);
    region := Splice(region, 8, Le64(|payload|));
    region := Splice(region, REGION_HEADER, payload);
    RenderedHeader(crc, capacity, payload, region);
    var sum := crc(region[..used]);
    region := Splice(region, REGION_CHECKSUM, Le32(sum));
  }

  lemma RenderedHeader(crc: Checksum, capacity: nat, payload: seq<byte>, region: seq<byte>)
    requires REGION_HEADER + |payload| <= capacity < U64_LIMIT
    requires var r0 := Zeros(capacity);
             var r1 := Splice(r0, 0, REGION_MAGIC);
             var r2 := Splice(r1, 4, Le16(REGION_VERSION));
             var r3 := Splice(r2, 6, [0, 0]);
             var r4 := Splice(r3, 8, Le64(|payload|));
             region == Splice(r4, REGION_HEADER, payload)
    ensures var used := REGION_HEADER + |payload|;
            var bare := RegionPrefix(|payload|) + Zeros(4) + (Zeros(12) + payload);
            && region == bare + Zeros(capacity - used)
            && region[..used] == bare
            && Splice(region, REGION_CHECKSUM, Le32(crc(bare))) ==
               Seal(crc, RegionPrefix(|payload|), Zeros(12) + payload) + Zeros(capacity - used)
  {
    hide Le16, Le64, Le32;
    var used := REGION_HEADER + |payload|;
    var bare := RegionPrefix(|payload|) + Zeros(4) + (Zeros(12) + payload);
    var r0 := Zeros(capacity);
    var r1 := Splice(r0, 0, REGION_MAGIC);
    var r2 := Splice(r1, 4, Le16(REGION_VERSION));
    var r3 := Splice(r2, 6, [0, 0]);
    var r4 := Splice(r3, 8, Le64(|payload|));
    assert r4[..16] == RegionPrefix(|payload|);
    assert r4[16..] == r3[16..] == r2[16..] == r1[16..] == r0[16..];
    assert AllZero(r0[16..]);
    assert region[..16] == r4[..16];
    assert region[16..32] == r4[16..][..16];
    assert region[16..32] == Zeros(4) + Zeros(12);
    assert region[used..] == r4[16..][used - 16..];
    assert region[32..used] == payload;
    AllZeroIsZeros(region[used..]);
    assert region == region[..16] + region[16..32] + region[32..used] + region[used..];
    assert region == bare + Zeros(capacity - used);
    assert region[..used] == bare;
  }

  lemma PhaseParts(base: seq<Op>, ws: seq<HomeWrite>)
    ensures base + Puts(ws) + [Sync] == base + Phase(ws)
    ensures base + Puts(ws) <= base + Phase(ws)
    ensures forall log | Partway(base, log, Puts(ws)) :: Partway(base, log, Phase(ws))
    ensures Partway(base, base + Puts(ws), Phase(ws))
  {
    assert base + Puts(ws) + [Sync] == base + (Puts(ws) + [Sync]);
  }

  /** Tail blocks first; the block with the region header is the last to be issued. */
  method WriteRegion(device: BlockDevice, sb: Superblock, region: seq<byte>) returns (ok: bool)
    requires device.Valid() && RegionOk(sb, device.BlockCount()) && |region| == Capacity(sb)
    modifies device
    ensures device.Valid() && device.BlockCount() == old(device.BlockCount())
    ensures ok ==> device.log == old(device.log) + Puts(StoreWrites(sb, region))
    ensures Partway(old(device.log), device.log, Puts(StoreWrites(sb, region)))
    ensures !device.faulty ==> ok
  {
    hide Run, Chunk, StoreWrites, Puts;
    ghost var ops := Puts(StoreWrites(sb, region));
    ghost var base := device.log;
    var n: int := sb.journalBlocks;
    var index := n - 1;
    while index >= 0
      invariant -1 <= index < n
      invariant device.Valid() && device.BlockCount() == old(device.BlockCount())
      invariant device.log == base + ops[..n - 1 - index]
    {
      StoreWriteAt(sb, region, n - 1 - index);
      TakeSnoc(base, ops, n - 1 - index);
      var done := device.WriteBlock(sb.journalStart + index, Chunk(region, index));
      if !done {
        return false;
      }
      index := index - 1;
    }
    assert ops[..n] == ops;
    return true;
  }

  lemma StoreWriteAt(sb: Superblock, region: seq<byte>, j: nat)
    requires RegionOk(sb, sb.totalBlocks) && |region| == Capacity(sb) && j < sb.journalBlocks
    ensures var index := sb.journalBlocks - 1 - j;
            StoreWrites(sb, region)[j] == HomeWrite(sb.journalStart + index, Chunk(region, index))
  {
  }

  lemma TakeSnoc<T>(base: seq<T>, ops: seq<T>, j: nat)
    requires j < |ops|
    ensures base + ops[..j] + [ops[j]] == base + ops[..j + 1]
    ensures base <= base + ops[..j] <= base + ops
    ensures base <= base + ops[..j + 1] <= base + ops
  {
  }

  /** Reads the region block by block.  With no journal write queued, what it returns is what the
      durable region holds. */
  method LoadJournalImage(device: BlockDevice, crc: Checksum, sb: Superblock) returns (r: Result<seq<Entry>>)
    requires device.Valid()
    ensures JournalSettled(sb, device.disk) ==> r == Load(crc, sb, device.disk.durable) || r == Err(Other)
    ensures !device.faulty && JournalSettled(sb, device.disk) ==> r == Load(crc, sb, device.disk.durable)
    ensures r.Ok? ==> RegionOk(sb, device.BlockCount()) && Admissible(sb, r.value)
  {
    if !RegionOk(sb, device.BlockCount()) {
      return Err(InvalidInput);
    }
    var region: seq<byte> := [];
    ghost var blocks := Region(sb, device.disk.durable);
    ghost var settled := JournalSettled(sb, device.disk);
    var index := 0;
    while index < sb.journalBlocks
      invariant 0 <= index <= sb.journalBlocks
      invariant |region| == index * BLOCK_SIZE
      invariant settled ==> region == Flatten(blocks[..index])
    {
      hide Load, LoadRegion;
      var block := device.ReadBlock(sb.journalStart + index);
      if block.Err? {
        return Err(Other);
      }
      assert settled ==> block.value == blocks[index];
      assert blocks[..index + 1][..index] == blocks[..index];
      region := region + block.value;
      index := index + 1;
    }
    assert blocks[..index] == blocks;
    return LoadRegion(crc, sb, region);
  }

  /** Replays the committed transactions to their home blocks and flushes once, if there was
      anything to replay. */
  method RecoverJournal(device: BlockDevice, crc: Checksum, sb: Superblock) returns (r: Result<RecoveryReport>)
    requires device.Valid()
    modifies device
    ensures device.Valid() && device.BlockCount() == old(device.BlockCount())
    ensures JournalSettled(sb, old(device.disk)) ==>
              match Load(crc, sb, old(device.disk).durable)
              case Err(_) => r.Err? && device.log == old(device.log)
              case Ok(es) =>
                && Partway(old(device.log), device.log, RecoverOps(Committed(es)))
                && (r.Ok? ==> device.log == old(device.log) + RecoverOps(Committed(es))
                              && r.value == RecoveryReport(ScanLog(es).value.commits, |Committed(es)|))
                && (!device.faulty && Mounted(sb, device.BlockCount()) ==> r.Ok?)
  {
    hide Load, LoadRegion, Run, ScanLog, Phase;
    var loaded := LoadJournalImage(device, crc, sb);
    if loaded.Err? {
      return Err(loaded.kind);
    }
    ghost var base, all := device.log, Committed(loaded.value);
    PhaseParts(base, all);
    if Mounted(sb, device.BlockCount()) {
      CommittedAreHome(sb, loaded.value);
      assert InRange(all, device.BlockCount());
    }
    var ok, report := ReplayHome(device, loaded.value);
    if ok && report.homeWrites != 0 {
      ok := device.Flush();
    }
    assert all == [] ==> base + Puts(all) == base + [];
    return if ok then Ok(report) else Err(Other);
  }

  /** The loop of recovery: collect the writes of the open transaction, issue them at its commit. */
  method ReplayHome(device: BlockDevice, es: seq<Entry>) returns (ok: bool, report: RecoveryReport)
    requires device.Valid() && WellFormed(es)
    modifies device
    ensures device.Valid() && device.BlockCount() == old(device.BlockCount())
    ensures Partway(old(device.log), device.log, Puts(Committed(es)))
    ensures ok ==> device.log == old(device.log) + Puts(Committed(es))
    ensures ok ==> report == RecoveryReport(ScanLog(es).value.commits, |Committed(es)|)
    ensures !device.faulty && InRange(Committed(es), device.BlockCount()) ==> ok
  {
    hide Run, Puts;
    ghost var base, all := device.log, Committed(es);
    var pending: seq<HomeWrite> := [];
    report := RecoveryReport(0, 0);
    ghost var s := Scan(None, [], [], 0);
    var i := 0;
    assert Puts([]) == [];
    while i < |es|
      invariant 0 <= i <= |es|
      invariant device.Valid() && device.BlockCount() == old(device.BlockCount())
      invariant ScanLog(es[..i]) == Ok(s)
      invariant s.pending == if s.active.Some? then pending else []
      invariant device.log == base + Puts(s.committed)
      invariant report == RecoveryReport(s.commits, |s.committed|)
    {
      hide ScanLog;
      var e := es[i];
      assert es[..i + 1] == es[..i] + [e];
      ScanSnoc(es[..i], e);
      PrefixWellFormed(es, i + 1);
      CommittedPrefix(es, i + 1);
      // The records are known to be in order: the image was validated when it was loaded.
      match e {
        case Begin(t) =>
          pending := [];
        case Write(t, b, d) =>
          pending := pending + [HomeWrite(b, d)];
        case Commit(t) =>
          PartwayThroughPuts(base, s.committed, pending, all);
          assert forall j :: 0 <= j < |pending| ==> all[|s.committed| + j] == pending[j];
          ok := WriteHome(device, pending);
          if !ok {
            return;
          }
          report := RecoveryReport(report.committedTransactions + 1, report.homeWrites + |pending|);
      }
      s := ScanStep(s, e).value;
      i := i + 1;
    }
    assert es[..i] == es;
    return true, report;
  }

  /** Issues home writes in order, stopping at the first failure. */
  method WriteHome(device: BlockDevice, ws: seq<HomeWrite>) returns (ok: bool)
    requires device.Valid()
    modifies device
    ensures device.Valid() && device.BlockCount() == old(device.BlockCount())
    ensures ok ==> device.log == old(device.log) + Puts(ws)
    ensures Partway(old(device.log), device.log, Puts(ws))
    ensures !device.faulty && InRange(ws, device.BlockCount()) ==> ok
  {
    ghost var base := device.log;
    var j := 0;
    while j < |ws|
      invariant 0 <= j <= |ws|
      invariant device.Valid() && device.BlockCount() == old(device.BlockCount())
      invariant device.log == base + Puts(ws)[..j]
    {
      TakeSnoc(base, Puts(ws), j);
      var done := device.WriteBlock(ws[j].block, ws[j].data);
      if !done {
        return false;
      }
      j := j + 1;
    }
    assert Puts(ws)[..j] == Puts(ws);
    return true;
  }

  lemma {:induction false} CommittedPrefix(es: seq<Entry>, k: nat)
    requires k <= |es| && WellFormed(es) && WellFormed(es[..k])
    ensures Committed(es[..k]) <= Committed(es)
    decreases |es| - k
  {
    if k == |es| {
      assert es[..k] == es;
    } else {
      PrefixWellFormed(es, k + 1);
      CommittedPrefix(es, k + 1);
      assert es[..k + 1] == es[..k] + [es[k]];
      ScanSnoc(es[..k], es[k]);
    }
  }

  lemma PartwayThroughPuts(base: seq<Op>, done: seq<HomeWrite>, now: seq<HomeWrite>, all: seq<HomeWrite>)
    requires done + now <= all
    ensures base + Puts(done) + Puts(now) == base + Puts(done + now)
    ensures forall log | Partway(base + Puts(done), log, Puts(now)) :: Partway(base, log, Puts(all))
  {
    assert Puts(done) + Puts(now) == Puts(done + now);
    assert base + Puts(done) + Puts(now) == base + Puts(done + now);
    assert Puts(done + now) == Puts(all)[..|done + now|];
    assert base + Puts(done + now) <= base + Puts(all);
  }

  // ------------------------------------------------------------------------ checkpoint

  /** Overwrites the journal with zeroes and flushes, unless it is already empty. */
  method CheckpointJournal(device: BlockDevice, crc: Checksum, sb: Superblock) returns (r: Result<bool>)
    requires device.Valid()
    modifies device
    ensures device.Valid() && device.BlockCount() == old(device.BlockCount())
    ensures JournalSettled(sb, old(device.disk)) ==>
              match Load(crc, sb, old(device.disk).durable)
              case Err(_) => r.Err? && device.log == old(device.log)
              case Ok(es) =>
                && Partway(old(device.log), device.log, CheckpointOps(sb, es))
                && (r.Ok? ==> device.log == old(device.log) + CheckpointOps(sb, es) && r.value == (es != []))
                && (!device.faulty ==> r.Ok?)
  {
    hide Load, LoadRegion, Run, Phase;
    var loaded := LoadJournalImage(device, crc, sb);
    if loaded.Err? {
      return Err(loaded.kind);
    }
    ghost var base := device.log;
    if loaded.value == [] {
      assert base + [] == base;
      return Ok(false);
    }
    ghost var ws := CheckpointWrites(sb);
    ghost var ops := Puts(ws);
    PhaseParts(base, ws);
    var offset := 0;
    while offset < sb.journalBlocks
      invariant 0 <= offset <= sb.journalBlocks
      invariant device.Valid() && device.BlockCount() == old(device.BlockCount())
      invariant device.log == base + ops[..offset]
    {
      TakeSnoc(base, ops, offset);
      var done := device.WriteBlock(sb.journalStart + offset, ZERO_BLOCK);
      if !done {
        assert Partway(base, device.log, ops);
        return Err(Other);
      }
      offset := offset + 1;
    }
    assert ops[..offset] == ops;
    var ok := device.Flush();
    return if ok then Ok(true) else Err(Other);
  }

  /** A device part-way through `ops` is in a state one of their prefixes leads to. */
  lemma PartwayRuns(boot: Disk, base: seq<Op>, log: seq<Op>, ops: seq<Op>) returns (k: nat)
    requires Sane(boot) && OpsFit(base, |boot.durable|) && OpsFit(log, |boot.durable|) && OpsFit(ops, |boot.durable|)
    requires Partway(base, log, ops)
    ensures k <= |ops| && log == base + ops[..k]
    ensures Run(boot, log) == Run(Run(boot, base), ops[..k])
  {
    k := |log| - |base|;
    assert log == base + ops[..k];
    RunConcat(boot, base, ops[..k]);
  }

  /** Replays, makes the replay durable, and only then clears the journal. */
  method RecoverJournalAndCheckpoint(device: BlockDevice, crc: Checksum, sb: Superblock)
    returns (r: Result<RecoveryReport>)
    requires device.Valid()
    modifies device
    ensures device.Valid() && device.BlockCount() == old(device.BlockCount())
    ensures Mounted(sb, device.BlockCount()) && old(device.disk).pending == [] ==>
              match Load(crc, sb, old(device.disk).durable)
              case Err(_) => r.Err? && device.log == old(device.log)
              case Ok(es) =>
                && Partway(old(device.log), device.log, RecoveryOps(sb, es, true))
                && (r.Ok? ==> device.log == old(device.log) + RecoveryOps(sb, es, true)
                              && r.value == RecoveryReport(ScanLog(es).value.commits, |Committed(es)|))
                && (!device.faulty ==> r.Ok?)
  {
    hide Load, LoadRegion, Run, RecoverOps, CheckpointOps, ScanLog;
    ghost var base, d := device.log, device.disk;
    r := RecoverJournal(device, crc, sb);
    ghost var known := Mounted(sb, device.BlockCount()) && d.pending == [] && Load(crc, sb, d.durable).Ok?;
    ghost var es := if known then Load(crc, sb, d.durable).value else [];
    ghost var a, b := if known then RecoverOps(Committed(es)) else [], if known then CheckpointOps(sb, es) else [];
    assert base + (a + b) == (base + a) + b;
    if r.Err? {
      return;
    }
    if known {
      RecoverStands(crc, sb, d.durable, Committed(es), 0);
      FullReplay(crc, sb, d.durable);
      RunConcat(device.boot, base, a);
      assert device.disk == Disk(Replayed(crc, sb, d.durable), []);
    }
    var cleared := CheckpointJournal(device, crc, sb);
    if cleared.Err? {
      return Err(cleared.kind);
    }
  }

  // ------------------------------------------------------------------------ a whole transaction

  /** The tail every journaled operation shares: log the changed blocks as one transaction,
      publish it, replay it and -- in most operations -- checkpoint. */
  method Publish(device: BlockDevice, crc: Checksum, sb: Superblock, changed: seq<HomeWrite>, checkpoint: bool)
    returns (r: Result<RecoveryReport>)
    requires device.Valid()
    modifies device
    ensures device.Valid() && device.BlockCount() == old(device.BlockCount())
    ensures changed == [] ==> r == Ok(RecoveryReport(0, 0)) && device.log == old(device.log)
    ensures changed != [] && Mounted(sb, device.BlockCount()) && old(device.disk).pending == [] ==>
              if Publishable(crc, sb, changed) then
                && Partway(old(device.log), device.log, TxOps(crc, sb, changed, checkpoint))
                && (r.Ok? ==> device.log == old(device.log) + TxOps(crc, sb, changed, checkpoint)
                              && r.value == RecoveryReport(1, |changed|))
                && (!device.faulty ==> r.Ok?)
              else r.Err? && device.log == old(device.log)
  {
    if changed == [] {
      return Ok(RecoveryReport(0, 0));
    }
    hide Load, Run, StoreOps, RecoveryOps, TxEntries, ScanLog, Committed, Admissible, Fits;
    var es := LogChanges(changed);
    TxCommits(changed);
    AdmissibleIffHome(sb, changed);
    r := PublishEntries(device, crc, sb, es, checkpoint);
    // The check of the report in `create_tx.rs`, for one transaction of |changed| writes, never fails.
  }

  method PublishEntries(device: BlockDevice, crc: Checksum, sb: Superblock, es: seq<Entry>, checkpoint: bool)
    returns (r: Result<RecoveryReport>)
    requires device.Valid() && WellFormed(es)
    modifies device
    ensures device.Valid() && device.BlockCount() == old(device.BlockCount())
    ensures Mounted(sb, device.BlockCount()) && old(device.disk).pending == [] ==>
              if Storable(crc, sb, device.BlockCount(), es) then
                var ops := StoreOps(crc, sb, es) + RecoveryOps(sb, es, checkpoint);
                && Partway(old(device.log), device.log, ops)
                && (r.Ok? ==> device.log == old(device.log) + ops
                              && r.value == RecoveryReport(ScanLog(es).value.commits, |Committed(es)|))
                && (!device.faulty ==> r.Ok?)
              else r.Err? && device.log == old(device.log)
  {
    hide Load, Run, StoreOps, RecoveryOps, ScanLog, Committed, Admissible, Fits;
    ghost var base, d := device.log, device.disk;
    var stored := StoreJournalImage(device, crc, sb, es);
    ghost var known := Mounted(sb, device.BlockCount()) && d.pending == []
        && Storable(crc, sb, device.BlockCount(), es);
    ghost var a, b := if known then StoreOps(crc, sb, es) else [], if known then RecoveryOps(sb, es, checkpoint)
        else [];
    assert base + (a + b) == (base + a) + b;
    if stored.Err? {
      return Err(stored.kind);
    }
    if known {
      StoredLoads(crc, sb, d.durable, es);
      RunConcat(device.boot, base, a);
    }
    r := RecoverWith(device, crc, sb, checkpoint);
  }

  /** Recovery, followed by a checkpoint when asked for. */
  method RecoverWith(device: BlockDevice, crc: Checksum, sb: Superblock, checkpoint: bool)
    returns (r: Result<RecoveryReport>)
    requires device.Valid()
    modifies device
    ensures device.Valid() && device.BlockCount() == old(device.BlockCount())
    ensures Mounted(sb, device.BlockCount()) && old(device.disk).pending == [] ==>
              match Load(crc, sb, old(device.disk).durable)
              case Err(_) => r.Err? && device.log == old(device.log)
              case Ok(es) =>
                && Partway(old(device.log), device.log, RecoveryOps(sb, es, checkpoint))
                && (r.Ok? ==> device.log == old(device.log) + RecoveryOps(sb, es, checkpoint)
                              && r.value == RecoveryReport(ScanLog(es).value.commits, |Committed(es)|))
                && (!device.faulty ==> r.Ok?)
  {
    hide Load, Run, RecoverOps, CheckpointOps, ScanLog;
    if checkpoint {
      r := RecoverJournalAndCheckpoint(device, crc, sb);
    } else {
      r := RecoverJournal(device, crc, sb);
      assert forall ops: seq<Op> :: ops + [] == ops;
    }
  }

  lemma StoredLoads(crc: Checksum, sb: Superblock, blocks: seq<Block>, es: seq<Entry>)
    requires Mounted(sb, |blocks|) && Admissible(sb, es) && Fits(crc, Capacity(sb), es)
    ensures OpsFit(StoreOps(crc, sb, es), |blocks|)
    ensures var after := Run(Disk(blocks, []), StoreOps(crc, sb, es));
            after.pending == [] && Load(crc, sb, after.durable) == Ok(es)
  {
    hide RegionImage, StoreWrites, Load, Run;
    StoreInstalls(crc, sb, blocks, es);
    PhaseWhole(blocks, StoreWrites(sb, RegionImage(crc, Capacity(sb), es)));
  }

  lemma AdmissibleIffHome(sb: Superblock, changed: seq<HomeWrite>)
    ensures Admissible(sb, TxEntries(changed)) <==> AllHome(sb, changed)
  {
    TxCommits(changed);
    var es := TxEntries(changed);
    if TargetsHome(sb, es) {
      forall i | 0 <= i < |changed| ensures IsHome(sb, changed[i].block) {
        assert es[i + 1] == Write(0, changed[i].block, changed[i].data);
      }
    }
    if AllHome(sb, changed) {
      TxAdmissible(sb, changed);
    }
  }

  method LogChanges(changed: seq<HomeWrite>) returns (es: seq<Entry>)
    ensures es == TxEntries(changed)
  {
    var log := new JournalLog();
    var begun := log.Begin();
    var txid := begun.value;
    var i := 0;
    while i < |changed|
      invariant 0 <= i <= |changed|
      invariant log.Valid() && txid == 0 && log.active == Some(txid)
      invariant log.done == [] && log.open == Some(Txn(txid, changed[..i]))
    {
      var written := log.Write(txid, changed[i].block, changed[i].data);
      assert changed[..i] + [changed[i]] == changed[..i + 1];
      i := i + 1;
    }
    assert changed[..i] == changed;
    var committed := log.Commit(txid);
    assert [] + [Txn(0, changed)] == [Txn(0, changed)];
    assert Log([Txn(0, changed)], None) == DoneLog([Txn(0, changed)]);
    return log.entries;
  }
}
