/** Operations that change a file's blocks: truncation, append, insertion, unlink and overwriting
    rename, on the device (`truncate_tx.rs`, `file_append_batch.rs`, `file_insert.rs`, `file_data.rs`,
    `unlink_tx.rs`, `rename_overwrite_tx.rs`). */
module FileOps {
  import opened Bytes
  import opened Blocks
  import opened Results
  import opened Sequences
  import opened Format
  import opened JournalRegion
  import opened Device
  import opened Crash
  import opened Journaled
  import opened Allocation
  import opened TableImage
  import opened InodeTable
  import opened MetadataTx
  import opened Fsck
  import opened Volume
  import opened Rename
  import opened Ownership

  // ------------------------------------------------------------------------ blocks in bulk

  /** Blocks that can be freed one after the other. */
  predicate Freeable(reserved: nat, owned: seq<bool>, blocks: seq<u64>) {
    NoRepeats(blocks) && forall a :: 0 <= a < |blocks| ==> reserved <= blocks[a] < |owned| && owned[blocks[a]]
  }

  method FreeAll(a: BlockAllocator, blocks: seq<u64>) returns (ok: bool)
    requires a.Valid()
    modifies a
    ensures a.Valid() && |a.owned| == |old(a.owned)|
    ensures ok <==> Freeable(a.reserved, old(a.owned), blocks)
    ensures ok ==> a.owned == Release(old(a.owned), blocks)
  {
    var i := 0;
    while i < |blocks|
      invariant 0 <= i <= |blocks| && a.Valid()
      invariant Freeable(a.reserved, old(a.owned), blocks[..i])
      invariant a.owned == Release(old(a.owned), blocks[..i])
    {
      var freed := a.Free(blocks[i]);
      if freed.Err? {
        assert blocks[i] in blocks[..i] || !(a.reserved <= blocks[i] < |a.owned| && old(a.owned)[blocks[i]]);
        return false;
      }
      i := i + 1;
    }
    assert blocks[..i] == blocks;
    return true;
  }

  /** The lowest unowned block at or above `from`, or the length. */
  function Lowest(owned: seq<bool>, from: nat): (b: nat)
    requires from <= |owned|
    ensures from <= b <= |owned| && (forall i :: from <= i < b ==> owned[i]) && (b < |owned| ==> !owned[b])
    decreases |owned| - from
  {
    if from == |owned| || !owned[from] then from else Lowest(owned, from + 1)
  }

  /** First fit, `n` times. */
  function TakeFree(owned: seq<bool>, reserved: nat, n: nat): (r: Option<seq<u64>>)
    requires reserved <= |owned| < U64_LIMIT
    ensures r.Some? ==> |r.value| == n
  {
    if n == 0 then Some([])
    else
      var taken := TakeFree(owned, reserved, n - 1);
      if taken.None? then None
      else
        var b := Lowest(Claim(owned, taken.value), reserved);
        if b == |owned| then None else Some(taken.value + [b])
  }

  method AllocateAll(a: BlockAllocator, n: nat) returns (r: Option<seq<u64>>)
    requires a.Valid() && |a.owned| < U64_LIMIT
    modifies a
    ensures a.Valid() && |a.owned| == |old(a.owned)|
    ensures r == TakeFree(old(a.owned), a.reserved, n)
    ensures r.Some? ==> a.owned == Claim(old(a.owned), r.value)
  {
    hide CountTrue, TakeFree, Claim, LowestFree, Exhausted;
    var blocks: seq<u64> := [];
    var i := 0;
    TakeNothing(a.owned, a.reserved);
    while i < n
      invariant 0 <= i <= n && a.Valid() && |a.owned| == |old(a.owned)|
      invariant TakeFree(old(a.owned), a.reserved, i) == Some(blocks)
      invariant a.owned == Claim(old(a.owned), blocks)
    {
      var b := a.Allocate();
      TakeNext(old(a.owned), a.reserved, blocks);
      if b.Err? {
        NoneLater(old(a.owned), a.reserved, i + 1, n);
        return None;
      }
      blocks := blocks + [b.value];
      i := i + 1;
    }
    return Some(blocks);
  }

  lemma TakeNothing(owned: seq<bool>, reserved: nat)
    requires reserved <= |owned| < U64_LIMIT
    ensures TakeFree(owned, reserved, 0) == Some([]) && Claim(owned, []) == owned
  {
  }

  /** One more block is the next the allocator finds. */
  lemma TakeNext(owned: seq<bool>, reserved: nat, blocks: seq<u64>)
    requires reserved <= |owned| < U64_LIMIT && TakeFree(owned, reserved, |blocks|) == Some(blocks)
    ensures Exhausted(Claim(owned, blocks), reserved) ==> TakeFree(owned, reserved, |blocks| + 1).None?
    ensures forall b: u64 :: LowestFree(Claim(owned, blocks), reserved, b) ==>
              && TakeFree(owned, reserved, |blocks| + 1) == Some(blocks + [b])
              && Claim(owned, blocks)[b := true] == Claim(owned, blocks + [b])
  {
    var now := Claim(owned, blocks);
    var low := Lowest(now, reserved);
    forall b: u64 | LowestFree(now, reserved, b)
      ensures TakeFree(owned, reserved, |blocks| + 1) == Some(blocks + [b])
      ensures now[b := true] == Claim(owned, blocks + [b])
    {
      assert b == low;
    }
  }

  lemma {:induction false} NoneLater(owned: seq<bool>, reserved: nat, i: nat, n: nat)
    requires i <= n && reserved <= |owned| < U64_LIMIT && TakeFree(owned, reserved, i).None?
    ensures TakeFree(owned, reserved, n).None?
    decreases n - i
  {
    if i < n {
      NoneLater(owned, reserved, i + 1, n);
    }
  }

  /** Free blocks in increasing order, with no free block passed over. */
  predicate LowestBlocks(owned: seq<bool>, reserved: nat, taken: seq<u64>) {
    && (forall a :: 0 <= a < |taken| ==> reserved <= taken[a] < |owned| && !owned[taken[a]])
    && (forall a, b :: 0 <= a < b < |taken| ==> taken[a] < taken[b])
    && (taken != [] ==> forall i :: reserved <= i < taken[|taken| - 1] ==> owned[i] || i in taken)
  }

  lemma {:induction false} TakenAreLowest(owned: seq<bool>, reserved: nat, n: nat)
    requires reserved <= |owned| < U64_LIMIT && TakeFree(owned, reserved, n).Some?
    ensures LowestBlocks(owned, reserved, TakeFree(owned, reserved, n).value)
    decreases n
  {
    if n > 0 {
      hide TakeFree, LowestBlocks;
      LastTaken(owned, reserved, n);
      TakenAreLowest(owned, reserved, n - 1);
      LowestSnoc(owned, reserved, TakeFree(owned, reserved, n - 1).value, TakeFree(owned, reserved, n).value[n - 1]);
    }
  }

  lemma LowestSnoc(owned: seq<bool>, reserved: nat, before: seq<u64>, b: u64)
    requires LowestBlocks(owned, reserved, before) && reserved <= b < |owned| && !owned[b] && b !in before
    requires forall i :: reserved <= i < b ==> owned[i] || i in before
    ensures LowestBlocks(owned, reserved, before + [b])
  {
    var taken := before + [b];
    assert before != [] ==> before[|before| - 1] < b;
    forall a | 0 <= a < |before| ensures taken[a] == before[a] < b {
    }
    forall i | reserved <= i < b ensures owned[i] || i in taken {
    }
  }

  lemma LastTaken(owned: seq<bool>, reserved: nat, n: nat)
    requires n > 0 && reserved <= |owned| < U64_LIMIT && TakeFree(owned, reserved, n).Some?
    ensures TakeFree(owned, reserved, n - 1).Some?
    ensures var before, taken := TakeFree(owned, reserved, n - 1).value, TakeFree(owned, reserved, n).value;
            var b := taken[n - 1];
            && taken == before + [b] && reserved <= b < |owned| && !owned[b] && b !in before
            && forall i :: reserved <= i < b ==> owned[i] || i in before
  {
    var before := TakeFree(owned, reserved, n - 1).value;
    var b := Lowest(Claim(owned, before), reserved);
    assert TakeFree(owned, reserved, n).value == before + [b];
    assert !Claim(owned, before)[b];
    forall i | reserved <= i < b ensures owned[i] || i in before {
      assert Claim(owned, before)[i];
    }
  }

  /** The blocks an allocator can still hand out. */
  ghost function FreeBlocks(owned: seq<bool>, reserved: nat): set<u64>
    requires |owned| < U64_LIMIT
  {
    set b: u64 | reserved <= b < |owned| && !owned[b]
  }

  /** `n` blocks can be taken exactly when at least `n` are free. */
  lemma {:induction false} TakeFreeSucceeds(owned: seq<bool>, reserved: nat, n: nat)
    requires reserved <= |owned| < U64_LIMIT
    ensures TakeFree(owned, reserved, n).Some? <==> n <= |FreeBlocks(owned, reserved)|
    decreases n
  {
    if n > 0 {
      hide TakeFree, LowestBlocks;
      TakeFreeSucceeds(owned, reserved, n - 1);
      TakeStops(owned, reserved, n);
      if TakeFree(owned, reserved, n - 1).Some? {
        var taken := TakeFree(owned, reserved, n - 1).value;
        TakenAreLowest(owned, reserved, n - 1);
        TakenSize(owned, reserved, taken);
        if TakeFree(owned, reserved, n).None? {
          assert FreeBlocks(owned, reserved) == Members(taken);
        } else {
          TakenAreLowest(owned, reserved, n);
          TakenSize(owned, reserved, TakeFree(owned, reserved, n).value);
        }
      }
    }
  }

  lemma TakenSize(owned: seq<bool>, reserved: nat, taken: seq<u64>)
    requires |owned| < U64_LIMIT && LowestBlocks(owned, reserved, taken)
    ensures Members(taken) <= FreeBlocks(owned, reserved)
    ensures |taken| == |Members(taken)| <= |FreeBlocks(owned, reserved)|
  {
    MembersSize(taken);
    SubsetSize(Members(taken), FreeBlocks(owned, reserved));
  }

  /** Taking fails only once every free block is taken. */
  lemma TakeStops(owned: seq<bool>, reserved: nat, n: nat)
    requires n > 0 && reserved <= |owned| < U64_LIMIT
    ensures TakeFree(owned, reserved, n - 1).None? ==> TakeFree(owned, reserved, n).None?
    ensures TakeFree(owned, reserved, n - 1).Some? && TakeFree(owned, reserved, n).None? ==>
              forall b :: b in FreeBlocks(owned, reserved) ==> b in TakeFree(owned, reserved, n - 1).value
  {
    if TakeFree(owned, reserved, n - 1).Some? && TakeFree(owned, reserved, n).None? {
      var taken := TakeFree(owned, reserved, n - 1).value;
      var now := Claim(owned, taken);
      forall b | b in FreeBlocks(owned, reserved) ensures b in taken {
        assert now[b];
      }
    }
  }

  // ------------------------------------------------------------------------ storing

  /** `store_create_metadata_journaled` on a loaded volume. */
  method StoreMetadata(device: BlockDevice, crc: Checksum, sb: Superblock, m': Metadata)
    returns (r: Result<RecoveryReport>)
    requires device.Valid() && ValidGeometry(sb)
    modifies device
    ensures device.Valid() && device.BlockCount() == old(device.BlockCount())
    ensures Ready(crc, sb, old(device.disk)) && LoadMetadata(crc, sb, old(device.disk).durable).Ok? ==>
              Changes(crc, sb, device.disk, LoadMetadata(crc, sb, old(device.disk).durable).value,
                  old(device.disk).durable,
                      m', old(device.disk).durable, r.Ok?)
    ensures Ready(crc, sb, old(device.disk)) && !device.faulty &&
            MetadataFits(crc, sb, old(device.disk).durable, m') ==>
              r.Ok?
  {
    hide Run, Renderable, MetaImage, LoadMetadata, Changes, Recovers, Settles, Overlay, Quiescent, FitsJournal, Diff;
    ghost var d0 := device.disk;
    r := StoreCreateMetadata(device, crc, sb, m');
    if Ready(crc, sb, d0) && LoadMetadata(crc, sb, d0.durable).Ok? {
      ghost var m := LoadMetadata(crc, sb, d0.durable).value;
      if Renderable(crc, sb, m') {
        MetaImageHolds(crc, sb, d0.durable, m');
        SettledChanges(crc, sb, d0, device.disk,
            Overlay(Strip(sb, d0.durable), sb.allocationStart, MetaImage(crc, sb, m')), r.Ok?,
                       m, m', d0.durable);
      } else {
        Unchanged(crc, sb, d0, m, m', d0.durable);
      }
    }
  }

  /** The tables fit their regions, and the changed blocks the journal. */
  predicate MetadataFits(crc: Checksum, sb: Superblock, blocks: seq<Block>, m': Metadata)
    requires Mounted(sb, |blocks|)
  {
    && Renderable(crc, sb, m')
    && FitsJournal(crc, sb, Diff(blocks, sb.allocationStart, MetaImage(crc, sb, m')))
  }

  // ------------------------------------------------------------------------ truncation

  datatype Cut = ToZero | ToBlocks(n: nat) | LastBlock

  /** How many blocks a cut of a file of `len` blocks keeps. */
  function Kept(cut: Cut, len: nat): (r: Result<nat>)
    ensures r.Ok? ==> r.value <= len
  {
    match cut
    case ToZero => Ok(0)
    case ToBlocks(n) => if n > len then Err(InvalidInput) else Ok(n)
    case LastBlock => if len == 0 then Err(InvalidInput) else Ok(len - 1)
  }

  /** The metadata after a truncation, or the refusal. */
  function TruncatePlan(sb: Superblock, m: Metadata, id: u64, cut: Cut): (r: Result<Metadata>) {
    if !IsKind(m.inodes, id, File) then Err(InvalidInput)
    else
      var k := FindInode(m.inodes, id).value;
      var blocks := m.inodes[k].blocks;
      var kept :- Kept(cut, |blocks|);
      if kept == |blocks| then Ok(m)
      else if !Freeable(ReservedBlocks(sb), m.owned, blocks[kept..]) then Err(InvalidData)
      else Ok(Truncated(m, k, kept))
  }

  /** On a consistent volume a truncation is refused only for its arguments, and the result is
      consistent. */
  lemma TruncatePlanKeepsFsck(sb: Superblock, m: Metadata, id: u64, cut: Cut)
    requires FsckOk(sb, m)
    ensures var plan := TruncatePlan(sb, m, id, cut);
            && (plan.Ok? <==>
                IsKind(m.inodes, id, File) && Kept(cut, |m.inodes[FindInode(m.inodes, id).value].blocks|).Ok?)
            && (plan.Ok? ==> FsckOk(sb, plan.value))
  {
    hide FindInode, OwnershipOk, NamespaceOk, Truncated, KindMap;
    if IsKind(m.inodes, id, File) {
      var k := FindInode(m.inodes, id).value;
      var blocks := m.inodes[k].blocks;
      if Kept(cut, |blocks|).Ok? {
        TruncateKeepsFsck(sb, m, k, Kept(cut, |blocks|).value);
        OwnershipByFile(sb, m.owned, m.inodes);
        assert BlocksOk(sb, m.owned, blocks);
        TailFreeable(sb, m.owned, blocks, Kept(cut, |blocks|).value);
      }
    }
  }

  /** What a cut asks of a file of `len` blocks. */
  predicate CanCut(cut: Cut, len: nat) {
    (cut.ToBlocks? ==> cut.n <= len) && (cut.LastBlock? ==> len > 0)
  }

  /** `m'` over `g'` is `m` over `g` with the file `id` cut, the blocks `dropped` free again, and nothing
      else different. */
  ghost predicate CutsFile(m: Metadata, g: seq<Block>, m': Metadata, g': seq<Block>, id: u64, cut: Cut,
                           dropped: seq<u64>) {
    exists k: nat, now ::
      && FileAt(m, k, id) && OnlyFileBecomes(m, g, m', g', k, now)
      && m.inodes[k].blocks == m'.inodes[k].blocks + dropped && m'.owned == Release(m.owned, dropped)
      && IsCut(Contents(g, m.inodes[k].blocks), now, cut)
  }

  /** A cut keeps nothing, the first `n` blocks, or all blocks but the last. */
  predicate IsCut(was: seq<Block>, now: seq<Block>, cut: Cut) {
    && CanCut(cut, |was|)
    && (cut.ToZero? ==> now == [])
    && (cut.ToBlocks? ==> now == was[..cut.n])
    && (cut.LastBlock? ==> now == was[..|was| - 1])
  }

  lemma FileIsFound(m: Metadata, id: u64)
    requires DistinctIds(m.inodes)
    ensures IsKind(m.inodes, id, File) <==> exists k: nat :: FileAt(m, k, id)
    ensures forall k: nat :: FileAt(m, k, id) ==> FindInode(m.inodes, id) == Some(k)
  {
    hide FindInode;
    var found := FindInode(m.inodes, id);
    assert found.Some? && m.inodes[found.value].kind == File ==> FileAt(m, found.value, id);
  }

  /** On a consistent volume a truncation is refused exactly when there is no such file or the file is too
      short; otherwise it cuts that file, and only that file. */
  lemma TruncateIsExact(sb: Superblock, m: Metadata, g: seq<Block>, id: u64, cut: Cut)
    requires FsckOk(sb, m)
    ensures var plan := TruncatePlan(sb, m, id, cut);
            && (plan.Ok? <==> exists k: nat :: FileAt(m, k, id) && CanCut(cut, |m.inodes[k].blocks|))
            && (plan.Ok? ==> exists dropped :: CutsFile(m, g, plan.value, g, id, cut, dropped))
  {
    hide FindInode, Truncated, KindMap, CutsFile, NamespaceOk, OwnershipOk, FileAt, IsKind;
    TruncatePlanKeepsFsck(sb, m, id, cut);
    FileIsFound(m, id);
    if IsKind(m.inodes, id, File) {
      var k := FoundFile(m, id);
      CutOf(m, g, k, id, cut);
    }
  }

  lemma FoundFile(m: Metadata, id: u64) returns (k: nat)
    requires IsKind(m.inodes, id, File)
    ensures FileAt(m, k, id) && FindInode(m.inodes, id) == Some(k)
  {
    k := FindInode(m.inodes, id).value;
  }

  lemma CutOf(m: Metadata, g: seq<Block>, k: nat, id: u64, cut: Cut)
    requires FileAt(m, k, id)
    ensures var blocks := m.inodes[k].blocks;
            var kept := Kept(cut, |blocks|);
            && (kept.Ok? <==> CanCut(cut, |blocks|))
            && (kept.Ok? ==> CutsFile(m, g, Truncated(m, k, kept.value), g, id, cut, blocks[kept.value..]))
            && (kept == Ok(|blocks|) ==> Truncated(m, k, |blocks|) == m)
  {
    hide OnlyFileBecomes, Contents;
    var blocks := m.inodes[k].blocks;
    var kept := Kept(cut, |blocks|);
    if kept == Ok(|blocks|) {
      assert blocks[..|blocks|] == blocks && blocks[|blocks|..] == [];
      assert WithBlocks(m.inodes, k, blocks) == m.inodes;
      ReleaseNothing(m.owned);
    }
    if kept.Ok? {
      var now := Contents(g, blocks)[..kept.value];
      TruncateContents(m, g, k, kept.value);
      assert blocks == blocks[..kept.value] + blocks[kept.value..];
      assert IsCut(Contents(g, blocks), now, cut);
    }
  }

  lemma CutsOn(sb: Superblock, m: Metadata, g: seq<Block>, m': Metadata, g': seq<Block>, h: seq<Block>, id: u64,
               cut: Cut, dropped: seq<u64>)
    requires CutsFile(m, g, m', g', id, cut, dropped) && FsckOk(sb, m') && SameData(sb, h, g')
    ensures CutsFile(m, g, m', h, id, cut, dropped)
  {
    hide FsckOk, Contents, Release, SameData;
    var k: nat, now :|
      && FileAt(m, k, id) && OnlyFileBecomes(m, g, m', g', k, now)
      && m.inodes[k].blocks == m'.inodes[k].blocks + dropped && m'.owned == Release(m.owned, dropped)
      && IsCut(Contents(g, m.inodes[k].blocks), now, cut);
    BecomesOn(sb, m, g, m', g', h, k, now);
  }

  lemma TailFreeable(sb: Superblock, owned: seq<bool>, blocks: seq<u64>, n: nat)
    requires n <= |blocks| && BlocksOk(sb, owned, blocks)
    ensures Freeable(ReservedBlocks(sb), owned, blocks[n..])
  {
    assert forall a :: 0 <= a < |blocks| - n ==> blocks[n..][a] == blocks[n + a] && blocks[n + a] in blocks;
  }

  /** A successful truncation of a consistent volume, read back from the device. */
  ghost predicate Truncates(crc: Checksum, sb: Superblock, m: Metadata, g: seq<Block>, h: seq<Block>, id: u64, cut: Cut,
                            dropped: seq<u64>)
    requires Mounted(sb, |h|)
  {
    var after := LoadMetadata(crc, sb, h);
    after.Ok? && FsckOk(sb, after.value) && CutsFile(m, g, after.value, h, id, cut, dropped)
  }

  lemma TruncateLeaves(crc: Checksum, sb: Superblock, d: Disk, m: Metadata, g: seq<Block>, k: nat, id: u64, cut: Cut)
    requires Mounted(sb, |d.durable|) && FsckOk(sb, m) && FindInode(m.inodes, id) == Some(k) && FileAt(m, k, id)
    requires Planned(crc, sb, d, m, g, TruncatePlan(sb, m, id, cut), true)
    ensures Kept(cut, |m.inodes[k].blocks|).Ok?
    ensures var blocks := m.inodes[k].blocks;
            Truncates(crc, sb, m, g, d.durable, id, cut, blocks[Kept(cut, |blocks|).value..])
  {
    hide FindInode, Truncated, CutsFile, FsckOk, LoadMetadata, Recovers, Quiescent, SameData;
    var blocks := m.inodes[k].blocks;
    var plan := TruncatePlan(sb, m, id, cut);
    TruncatePlanKeepsFsck(sb, m, id, cut);
    CutOf(m, g, k, id, cut);
    CutsOn(sb, m, g, plan.value, g, d.durable, id, cut, blocks[Kept(cut, |blocks|).value..]);
  }

  /** The three truncations: load, cut the list, free what was cut off, store. */
  method Truncate(device: BlockDevice, crc: Checksum, sb: Superblock, id: u64, cut: Cut)
    returns (r: Result<(seq<u64>, RecoveryReport)>)
    requires device.Valid() && ValidGeometry(sb)
    modifies device
    ensures device.Valid() && device.BlockCount() == old(device.BlockCount())
    ensures Ready(crc, sb, old(device.disk)) && LoadMetadata(crc, sb, old(device.disk).durable).Ok? ==>
              var m := LoadMetadata(crc, sb, old(device.disk).durable).value;
              var plan := TruncatePlan(sb, m, id, cut);
              && Planned(crc, sb, device.disk, m, old(device.disk).durable, plan, r.Ok?)
              && (plan.Ok? && !device.faulty && MetadataFits(crc, sb, old(device.disk).durable, plan.value) ==> r.Ok?)
              && (r.Ok? ==> plan.value.owned == Release(m.owned, r.value.0))
              && (r.Ok? && FsckOk(sb, m) ==>
                  Truncates(crc, sb, m, old(device.disk).durable, device.disk.durable, id, cut, r.value.0))
  {
    hide Run, LoadMetadata, StoredInodes, StoredEntries, StoredOwned, FsckOk, Quiescent, Changes, Recovers, Settles,
      FindInode, MetadataFits, Release, WithBlocks, CountTrue, Truncates;
    ghost var d0 := device.disk;
    if device.BlockCount() != sb.totalBlocks {
      return Err(InvalidInput);
    }
    LoadedParts(crc, sb, d0.durable);
    ghost var known := Ready(crc, sb, d0) && LoadMetadata(crc, sb, d0.durable).Ok?;
    ghost var m := if known then LoadMetadata(crc, sb, d0.durable).value else Metadata([], [], []);
    ghost var plan := TruncatePlan(sb, m, id, cut);
    if known {
      NothingPlanned(crc, sb, d0, m, plan);
    }
    ReleaseNothing(m.owned);
    var owned, a := LoadAllocator(device, crc, sb);
    if owned.Err? {
      return Err(owned.kind);
    }
    var inodes := LoadInodes(device, crc, sb);
    if inodes.Err? {
      return Err(inodes.kind);
    }
    var entries := LoadEntries(device, crc, sb);
    if entries.Err? {
      return Err(entries.kind);
    }
    if !IsKind(inodes.value, id, File) {
      return Err(InvalidInput);
    }
    var k := FindInode(inodes.value, id).value;
    var blocks := inodes.value[k].blocks;
    var kept := Kept(cut, |blocks|);
    if kept.Err? {
      return Err(kept.kind);
    }
    if kept.value == |blocks| {
      assert blocks[|blocks|..] == [];
      if known && FsckOk(sb, m) {
        TruncateLeaves(crc, sb, device.disk, m, d0.durable, k, id, cut);
      }
      return Ok(([], RecoveryReport(0, 0)));
    }
    var released := blocks[kept.value..];
    var freed := FreeAll(a, released);
    if !freed {
      return Err(InvalidData);
    }
    var m' := Metadata(a.owned, WithBlocks(inodes.value, k, blocks[..kept.value]), entries.value);
    var stored := StoreMetadata(device, crc, sb, m');
    if stored.Err? {
      return Err(stored.kind);
    }
    if known && FsckOk(sb, m) {
      TruncateLeaves(crc, sb, device.disk, m, d0.durable, k, id, cut);
    }
    return Ok((released, stored.value));
  }

  lemma ReleaseNothing(owned: seq<bool>)
    ensures Release(owned, []) == owned
  {
  }

  /** The outcome of an operation given its plan: refused plans leave the volume as it was. */
  ghost predicate Planned(crc: Checksum, sb: Superblock, d: Disk, m: Metadata, g: seq<Block>, plan: Result<Metadata>,
                          ok: bool)
    requires Mounted(sb, |d.durable|)
  {
    && (plan.Err? ==> !ok && Recovers(crc, sb, d, m, g))
    && (plan.Ok? ==> Changes(crc, sb, d, m, g, plan.value, g, ok))
  }

  lemma NothingPlanned(crc: Checksum, sb: Superblock, d: Disk, m: Metadata, plan: Result<Metadata>)
    requires Ready(crc, sb, d) && LoadMetadata(crc, sb, d.durable) == Ok(m)
    ensures Planned(crc, sb, d, m, d.durable, plan, false)
    ensures plan == Ok(m) ==> Planned(crc, sb, d, m, d.durable, plan, true)
  {
    hide LoadMetadata, Quiescent, Recovers;
    Unchanged(crc, sb, d, m, if plan.Ok? then plan.value else m, d.durable);
  }

  // ------------------------------------------------------------------------ growth

  /** The part of a snapshot an append or insertion rewrites. */
  predicate FileRenderable(crc: Checksum, sb: Superblock, owned: seq<bool>, inodes: seq<Inode>) {
    && ValidGeometry(sb) && |owned| == sb.totalBlocks && ValidOwned(owned, ReservedBlocks(sb))
    && Encodable(InodeFormat(crc), sb.inodeBlocks * BLOCK_SIZE, inodes)
  }

  function FileImage(crc: Checksum, sb: Superblock, owned: seq<bool>, inodes: seq<Inode>): (bs: seq<Block>)
    requires FileRenderable(crc, sb, owned, inodes)
    ensures |bs| == sb.allocationBlocks + sb.inodeBlocks
  {
    OwnedImage(crc, sb, owned) + InodeImage(crc, sb, inodes)
  }

  /** Everything one growing transaction writes. */
  function FileWrites(crc: Checksum, sb: Superblock, blocks: seq<Block>, owned: seq<bool>, inodes: seq<Inode>,
                      ws: seq<HomeWrite>): seq<HomeWrite>
    requires FileRenderable(crc, sb, owned, inodes) && Mounted(sb, |blocks|)
  {
    Diff(blocks, sb.allocationStart, FileImage(crc, sb, owned, inodes)) + ws
  }

  predicate AllData(sb: Superblock, ws: seq<HomeWrite>) {
    forall i :: 0 <= i < |ws| ==> IsData(sb, ws[i].block)
  }

  /** Applying them installs the two tables and the data, and keeps the directory. */
  lemma FileWritesHold(crc: Checksum, sb: Superblock, blocks: seq<Block>, m: Metadata, owned: seq<bool>,
                       inodes: seq<Inode>, ws: seq<HomeWrite>)
    requires Mounted(sb, |blocks|) && LoadMetadata(crc, sb, blocks) == Ok(m) && FileRenderable(crc, sb, owned, inodes)
    requires AllData(sb, ws)
    ensures var changed := FileWrites(crc, sb, blocks, owned, inodes, ws);
            && AllHome(sb, changed) && InRange(changed, |blocks|) && InRange(ws, |blocks|)
            && Holds(crc, sb, Apply(Strip(sb, blocks), changed), Metadata(owned, inodes, m.entries), Apply(blocks, ws))
  {
    hide LoadMetadata, Strip, Overlay, Diff, Apply, FileImage, FileRenderable, Encodable;
    var image := FileImage(crc, sb, owned, inodes);
    var before, diff := Strip(sb, blocks), Diff(blocks, sb.allocationStart, image);
    DiffIsHome(sb, blocks, sb.allocationStart, image);
    ApplyConcat(before, diff, ws);
    var middle := Overlay(before, sb.allocationStart, image);
    DataWrites(sb, middle, ws);
    FileImageLoads(crc, sb, blocks, m, owned, inodes);
    LoadSameTables(crc, sb, middle, Apply(middle, ws));
    OverlayAround(before, sb.allocationStart, image);
    StripOutside(sb, blocks);
    DataAgree(sb, middle, blocks, ws);
  }

  lemma DataWrites(sb: Superblock, blocks: seq<Block>, ws: seq<HomeWrite>)
    requires Mounted(sb, |blocks|) && AllData(sb, ws)
    ensures AllHome(sb, ws) && InRange(ws, |blocks|)
    ensures forall i :: 0 <= i < ReservedBlocks(sb) ==> Apply(blocks, ws)[i] == blocks[i]
  {
    forall i | 0 <= i < ReservedBlocks(sb) ensures Apply(blocks, ws)[i] == blocks[i] {
      ApplyAt(blocks, ws, i);
      NoWriteBelow(sb, ws, i);
    }
  }

  lemma {:induction false} NoWriteBelow(sb: Superblock, ws: seq<HomeWrite>, i: nat)
    requires AllData(sb, ws) && i < ReservedBlocks(sb)
    ensures LastWrite(ws, i).None?
  {
    if ws != [] {
      NoWriteBelow(sb, ws[..|ws| - 1], i);
    }
  }

  lemma DataAgree(sb: Superblock, a: seq<Block>, b: seq<Block>, ws: seq<HomeWrite>)
    requires SameData(sb, a, b) && InRange(ws, |a|)
    ensures SameData(sb, Apply(a, ws), Apply(b, ws))
  {
    forall i | ReservedBlocks(sb) <= i < |a| ensures Apply(a, ws)[i] == Apply(b, ws)[i] {
      ApplyAt(a, ws, i);
      ApplyAt(b, ws, i);
    }
  }

  lemma LoadSameTables(crc: Checksum, sb: Superblock, a: seq<Block>, b: seq<Block>)
    requires ValidGeometry(sb) && |a| == |b| == sb.totalBlocks
    requires forall i :: 0 <= i < ReservedBlocks(sb) ==> a[i] == b[i]
    ensures LoadMetadata(crc, sb, a) == LoadMetadata(crc, sb, b)
  {
    hide LoadOwned, Parse, Flatten;
    SameSlice(a, b, sb.allocationStart, sb.allocationBlocks);
    SameSlice(a, b, sb.inodeStart, sb.inodeBlocks);
    SameSlice(a, b, sb.directoryStart, sb.directoryBlocks);
  }

  lemma OverlayTwo(blocks: seq<Block>, lo: nat, a: seq<Block>, b: seq<Block>)
    requires lo + |a| + |b| <= |blocks|
    ensures var r := Overlay(blocks, lo, a + b); r[lo..lo + |a|] == a && r[lo + |a|..lo + |a| + |b|] == b
  {
  }

  lemma FileImageLoads(crc: Checksum, sb: Superblock, blocks: seq<Block>, m: Metadata, owned: seq<bool>,
                       inodes: seq<Inode>)
    requires Mounted(sb, |blocks|) && LoadMetadata(crc, sb, blocks) == Ok(m) && FileRenderable(crc, sb, owned, inodes)
    ensures LoadMetadata(crc, sb, Overlay(Strip(sb, blocks), sb.allocationStart, FileImage(crc, sb, owned, inodes))) ==
            Ok(Metadata(owned, inodes, m.entries))
  {
    hide LoadOwned, Parse, OwnedImage, InodeImage, Flatten, Encodable, Strip, Overlay;
    var before, image := Strip(sb, blocks), FileImage(crc, sb, owned, inodes);
    var after := Overlay(before, sb.allocationStart, image);
    LoadIgnoresJournal(crc, sb, blocks);
    RegionTooLarge(InodeFormat(crc), sb.inodeBlocks * BLOCK_SIZE, inodes);
    OverlayAround(before, sb.allocationStart, image);
    OverlayTwo(before, sb.allocationStart, OwnedImage(crc, sb, owned), InodeImage(crc, sb, inodes));
    SameSlice(after, before, sb.directoryStart, sb.directoryBlocks);
    OwnedImageLoads(crc, sb, owned);
    InodeImageLoads(crc, sb, inodes);
  }

  /** Renders allocator and inode table, collects what changed, adds the data blocks, and publishes
      it all as one transaction. */
  method StoreFile(device: BlockDevice, crc: Checksum, sb: Superblock, owned: seq<bool>, inodes: seq<Inode>,
                   ws: seq<HomeWrite>)
    returns (r: Result<RecoveryReport>)
    requires device.Valid() && ValidGeometry(sb) && device.BlockCount() == sb.totalBlocks && AllData(sb, ws)
    modifies device
    ensures device.Valid() && device.BlockCount() == old(device.BlockCount())
    ensures Ready(crc, sb, old(device.disk)) && LoadMetadata(crc, sb, old(device.disk).durable).Ok? ==>
              var m := LoadMetadata(crc, sb, old(device.disk).durable).value;
              && InRange(ws, |old(device.disk).durable|)
              && Changes(crc, sb, device.disk, m, old(device.disk).durable,
                         Metadata(owned, inodes, m.entries), Apply(old(device.disk).durable, ws), r.Ok?)
    ensures Ready(crc, sb, old(device.disk)) && !device.faulty &&
            FileFits(crc, sb, old(device.disk).durable, owned, inodes, ws) ==>
              r.Ok?
  {
    hide Run, FileRenderable, LoadMetadata, Changes, Recovers, Settles, Overlay, Quiescent, FitsJournal, Diff, Apply,
      Strip, HoldsExactly;
    ghost var d0 := device.disk;
    ghost var known := Ready(crc, sb, d0) && LoadMetadata(crc, sb, d0.durable).Ok?;
    ghost var m := if known then LoadMetadata(crc, sb, d0.durable).value else Metadata([], [], []);
    DataInRange(sb, ws);
    if known {
      Unchanged(crc, sb, d0, m, Metadata(owned, inodes, m.entries), Apply(d0.durable, ws));
    }
    var capture := new CaptureDevice();
    var ok := RenderFile(capture, crc, sb, owned, inodes);
    if !ok {
      return Err(InvalidInput);
    }
    var changed := CollectFile(capture, device, sb, FileImage(crc, sb, owned, inodes));
    if changed.Err? {
      return Err(changed.kind);
    }
    if known {
      FileWritesHold(crc, sb, d0.durable, m, owned, inodes, ws);
    }
    if Ready(crc, sb, d0) {
      FileWritesHome(crc, sb, d0.durable, owned, inodes, ws);
    }
    r := PublishWrites(device, crc, sb, changed.value + ws, true);
    if known {
      SettledChanges(crc, sb, d0, device.disk, Apply(Strip(sb, d0.durable), changed.value + ws), r.Ok?,
                     m, Metadata(owned, inodes, m.entries), Apply(d0.durable, ws));
    }
  }

  lemma DataInRange(sb: Superblock, ws: seq<HomeWrite>)
    requires AllData(sb, ws)
    ensures InRange(ws, sb.totalBlocks)
  {
  }

  lemma FileWritesHome(crc: Checksum, sb: Superblock, blocks: seq<Block>, owned: seq<bool>, inodes: seq<Inode>,
                       ws: seq<HomeWrite>)
    requires Mounted(sb, |blocks|) && FileRenderable(crc, sb, owned, inodes) && AllData(sb, ws)
    ensures AllHome(sb, FileWrites(crc, sb, blocks, owned, inodes, ws))
  {
    hide Diff, FileImage, FileRenderable;
    DiffIsHome(sb, blocks, sb.allocationStart, FileImage(crc, sb, owned, inodes));
  }

  /** The tables fit their regions, and everything to be written the journal. */
  predicate FileFits(crc: Checksum, sb: Superblock, blocks: seq<Block>, owned: seq<bool>, inodes: seq<Inode>,
                     ws: seq<HomeWrite>)
    requires Mounted(sb, |blocks|)
  {
    FileRenderable(crc, sb, owned, inodes) && FitsJournal(crc, sb, FileWrites(crc, sb, blocks, owned, inodes, ws))
  }

  method RenderFile(capture: CaptureDevice, crc: Checksum, sb: Superblock, owned: seq<bool>, inodes: seq<Inode>)
    returns (ok: bool)
    requires ValidGeometry(sb) && capture.blocks == map[]
    modifies capture
    ensures ok <==> FileRenderable(crc, sb, owned, inodes)
    ensures ok ==> HoldsExactly(capture.blocks, sb.allocationStart, FileImage(crc, sb, owned, inodes))
  {
    hide Encodable, Image, AllocImage, Parse, Chunks, HoldsImage, BitmapOf;
    ok := RenderOwned(capture, crc, sb, owned);
    if !ok {
      return;
    }
    InodeTable.FormatSound(crc);
    ok := RenderTable(capture, crc, InodeFormat(crc), inodes, sb.inodeStart, sb.inodeBlocks, sb.allocationStart,
        OwnedImage(crc, sb, owned));
  }

  method CollectFile(capture: CaptureDevice, device: BlockDevice, sb: Superblock, ghost image: seq<Block>)
    returns (r: Result<seq<HomeWrite>>)
    requires device.Valid() && ValidGeometry(sb) && device.BlockCount() == sb.totalBlocks
    requires |image| == sb.allocationBlocks + sb.inodeBlocks && HoldsExactly(capture.blocks, sb.allocationStart, image)
    modifies capture
    ensures r.Ok? ==> capture.blocks == map[]
    ensures r.Ok? && device.disk.pending == [] ==> r.value == Diff(device.disk.durable, sb.allocationStart, image)
    ensures !device.faulty ==> r.Ok?
  {
    hide Diff, Run, HoldsImage;
    ghost var n: nat := sb.allocationBlocks;
    r := CollectRegion(capture, device, sb.allocationStart, sb.allocationBlocks, [], image);
    if r.Err? {
      return;
    }
    DiffSplit(device.disk.durable, sb.allocationStart, n, image, []);
    r := CollectRegion(capture, device, sb.inodeStart, sb.inodeBlocks, r.value, image[n..]);
    assert image[n..][..sb.inodeBlocks] == image[n..] && image[n..][sb.inodeBlocks..] == [];
    assert [] + Diff(device.disk.durable, sb.allocationStart, image) ==
        Diff(device.disk.durable, sb.allocationStart, image);
  }

  /** Where the new blocks go, and which: at the end of the list, or before a given index. */
  function GrowPlan(sb: Superblock, m: Metadata, id: u64, at: Option<nat>, n: nat): (r: Result<(Metadata, seq<u64>)>)
    requires ReservedBlocks(sb) <= |m.owned| < U64_LIMIT
  {
    if n == 0 || !IsKind(m.inodes, id, File) then Err(InvalidInput)
    else
      var k := FindInode(m.inodes, id).value;
      var len := |m.inodes[k].blocks|;
      var p := if at.Some? then at.value else len;
      if p > len then Err(InvalidInput)
      else
        var extra := TakeFree(m.owned, ReservedBlocks(sb), n);
        if extra.None? then Err(InvalidInput) else Ok((Grown(m, k, p, extra.value), extra.value))
  }

  lemma GrowPlanKeepsFsck(sb: Superblock, m: Metadata, id: u64, at: Option<nat>, n: nat)
    requires FsckOk(sb, m) && ReservedBlocks(sb) <= |m.owned| < U64_LIMIT && GrowPlan(sb, m, id, at, n).Ok?
    ensures FsckOk(sb, GrowPlan(sb, m, id, at, n).value.0)
    ensures Unowned(sb, m.owned, GrowPlan(sb, m, id, at, n).value.1)
  {
    hide FindInode, OwnershipOk, NamespaceOk, Grown, KindMap, TakeFree;
    var extra := TakeFree(m.owned, ReservedBlocks(sb), n).value;
    TakenAreLowest(m.owned, ReservedBlocks(sb), n);
    var k := FindInode(m.inodes, id).value;
    GrowKeepsFsck(sb, m, k, if at.Some? then at.value else |m.inodes[k].blocks|, extra);
  }

  /** `m'` over `g'` is `m` over `g` with `data` put into the file `id`, at the end or before block `at`, on the
      lowest free blocks `extra`, and nothing else different. */
  ghost predicate GrowsFile(sb: Superblock, m: Metadata, g: seq<Block>, m': Metadata, g': seq<Block>, id: u64,
                            at: Option<nat>, data: seq<Block>, extra: seq<u64>) {
    exists k: nat, now ::
      && FileAt(m, k, id) && OnlyFileBecomes(m, g, m', g', k, now)
      && |extra| == |data| && LowestBlocks(m.owned, ReservedBlocks(sb), extra) && m'.owned == Claim(m.owned, extra)
      && IsInsertion(Contents(g, m.inodes[k].blocks), now, at, data)
  }

  /** Appending goes after the last block, insertion before block `at`. */
  predicate IsInsertion(was: seq<Block>, now: seq<Block>, at: Option<nat>, data: seq<Block>) {
    && (at.None? ==> now == was + data)
    && (at.Some? ==> at.value <= |was| && now == was[..at.value] + data + was[at.value..])
  }

  /** Whether there is such a file, long enough for the position, and room for `n` more blocks. */
  ghost predicate CanGrow(sb: Superblock, m: Metadata, id: u64, at: Option<nat>, n: nat)
    requires |m.owned| < U64_LIMIT
  {
    && n > 0 && n <= |FreeBlocks(m.owned, ReservedBlocks(sb))|
    && exists k: nat :: FileAt(m, k, id) && (at.Some? ==> at.value <= |m.inodes[k].blocks|)
  }

  /** On a consistent volume growth is refused exactly for an empty request, a missing file, a position past
      the end or too little room; otherwise it puts the data where it was asked to, in that file only. */
  lemma GrowIsExact(sb: Superblock, m: Metadata, g: seq<Block>, id: u64, at: Option<nat>, data: seq<Block>)
    requires FsckOk(sb, m) && ReservedBlocks(sb) <= |m.owned| < U64_LIMIT && |g| == sb.totalBlocks
    ensures var plan := GrowPlan(sb, m, id, at, |data|);
            && (plan.Ok? <==> CanGrow(sb, m, id, at, |data|))
            && (plan.Ok? ==>
                  && |plan.value.1| == |data| && InRange(Zip(plan.value.1, data), |g|)
                  && GrowsFile(sb, m, g, plan.value.0, Apply(g, Zip(plan.value.1, data)), id, at, data, plan.value.1))
  {
    hide FindInode, KindMap, NamespaceOk, OwnershipOk, FileAt, IsKind, TakeFree, Grown, GrowsFile, FreeBlocks, Zip,
      Apply, InRange;
    FileIsFound(m, id);
    TakeFreeSucceeds(m.owned, ReservedBlocks(sb), |data|);
    if IsKind(m.inodes, id, File) {
      var k := FoundFile(m, id);
      if GrowPlan(sb, m, id, at, |data|).Ok? {
        GrowthOf(sb, m, g, k, id, at, data);
      }
    }
  }

  lemma GrowthOf(sb: Superblock, m: Metadata, g: seq<Block>, k: nat, id: u64, at: Option<nat>, data: seq<Block>)
    requires FsckOk(sb, m) && ReservedBlocks(sb) <= |m.owned| < U64_LIMIT && |g| == sb.totalBlocks
    requires FileAt(m, k, id) && FindInode(m.inodes, id) == Some(k) && GrowPlan(sb, m, id, at, |data|).Ok?
    ensures var (m', extra) := GrowPlan(sb, m, id, at, |data|).value;
            && |extra| == |data| && InRange(Zip(extra, data), |g|)
            && GrowsFile(sb, m, g, m', Apply(g, Zip(extra, data)), id, at, data, extra)
  {
    hide FindInode, FsckOk, TakeFree, Apply, OnlyFileBecomes, Contents, LowestBlocks, Zip, InRange, Unowned,
      IsInsertion, Claim;
    var (m', extra) := GrowPlan(sb, m, id, at, |data|).value;
    var was := Contents(g, m.inodes[k].blocks);
    var p := if at.Some? then at.value else |was|;
    GrowPlanKeepsFsck(sb, m, id, at, |data|);
    TakenAreLowest(m.owned, ReservedBlocks(sb), |data|);
    UnownedInRange(sb, m, g, extra, data);
    GrowBecomes(sb, m, g, k, p, extra, data);
    Inserted(was, at, data);
  }

  lemma Inserted(was: seq<Block>, at: Option<nat>, data: seq<Block>)
    requires at.Some? ==> at.value <= |was|
    ensures var p := if at.Some? then at.value else |was|; IsInsertion(was, was[..p] + data + was[p..], at, data)
  {
  }

  lemma UnownedInRange(sb: Superblock, m: Metadata, g: seq<Block>, extra: seq<u64>, data: seq<Block>)
    requires FsckOk(sb, m) && |g| == sb.totalBlocks && Unowned(sb, m.owned, extra) && |extra| == |data|
    ensures InRange(Zip(extra, data), |g|)
  {
    hide NamespaceOk, OwnershipOk, KindMap;
  }

  lemma GrowsOn(sb: Superblock, m: Metadata, g: seq<Block>, m': Metadata, g': seq<Block>, h: seq<Block>, id: u64,
                at: Option<nat>, data: seq<Block>, extra: seq<u64>)
    requires GrowsFile(sb, m, g, m', g', id, at, data, extra) && FsckOk(sb, m') && SameData(sb, h, g')
    ensures GrowsFile(sb, m, g, m', h, id, at, data, extra)
  {
    hide FsckOk, Contents, Claim, SameData, LowestBlocks, OnlyFileBecomes;
    var k: nat, now :|
      && FileAt(m, k, id) && OnlyFileBecomes(m, g, m', g', k, now)
      && |extra| == |data| && LowestBlocks(m.owned, ReservedBlocks(sb), extra) && m'.owned == Claim(m.owned, extra)
      && IsInsertion(Contents(g, m.inodes[k].blocks), now, at, data);
    BecomesOn(sb, m, g, m', g', h, k, now);
  }

  /** What a growing operation leaves, given its plan and the new data. */
  ghost predicate Grows(crc: Checksum, sb: Superblock, d: Disk, m: Metadata, g: seq<Block>,
                        plan: Result<(Metadata, seq<u64>)>, data: seq<Block>, ok: bool)
    requires Mounted(sb, |d.durable|)
  {
    && (plan.Err? ==> !ok && Recovers(crc, sb, d, m, g))
    && (plan.Ok? ==>
          && |plan.value.1| == |data| && InRange(Zip(plan.value.1, data), |g|)
          && Changes(crc, sb, d, m, g, plan.value.0, Apply(g, Zip(plan.value.1, data)), ok))
  }

  predicate GrowFits(crc: Checksum, sb: Superblock, g: seq<Block>, plan: Result<(Metadata, seq<u64>)>, data: seq<Block>)
    requires Mounted(sb, |g|)
  {
    && plan.Ok? && |plan.value.1| == |data|
    && FileFits(crc, sb, g, plan.value.0.owned, plan.value.0.inodes, Zip(plan.value.1, data))
  }

  lemma NothingGrown(crc: Checksum, sb: Superblock, d: Disk, m: Metadata, id: u64, at: Option<nat>, data: seq<Block>)
    requires Ready(crc, sb, d) && LoadMetadata(crc, sb, d.durable) == Ok(m)
    ensures |m.owned| == sb.totalBlocks && ReservedBlocks(sb) <= |m.owned| < U64_LIMIT
    ensures Grows(crc, sb, d, m, d.durable, GrowPlan(sb, m, id, at, |data|), data, false)
  {
    hide Quiescent, Recovers, LoadMetadata, Apply, Grown, TakeFree;
    LoadedIsRenderable(crc, sb, d.durable);
    RenderableOwned(crc, sb, m);
    var plan := GrowPlan(sb, m, id, at, |data|);
    if plan.Ok? {
      TakenAreLowest(m.owned, ReservedBlocks(sb), |data|);
      Unchanged(crc, sb, d, m, plan.value.0, Apply(d.durable, Zip(plan.value.1, data)));
    } else {
      Unchanged(crc, sb, d, m, m, d.durable);
    }
  }

  /** A successful append or insertion on a consistent volume, read back from the device. */
  ghost predicate Extends(crc: Checksum, sb: Superblock, m: Metadata, g: seq<Block>, h: seq<Block>, id: u64,
                          at: Option<nat>, data: seq<Block>, extra: seq<u64>)
    requires Mounted(sb, |h|)
  {
    var after := LoadMetadata(crc, sb, h);
    after.Ok? && FsckOk(sb, after.value) && GrowsFile(sb, m, g, after.value, h, id, at, data, extra)
  }

  lemma GrowthLeaves(crc: Checksum, sb: Superblock, d: Disk, m: Metadata, g: seq<Block>, id: u64, at: Option<nat>,
                     data: seq<Block>)
    requires Mounted(sb, |d.durable|) && FsckOk(sb, m) && ReservedBlocks(sb) <= |m.owned| < U64_LIMIT
    requires |g| == sb.totalBlocks && Grows(crc, sb, d, m, g, GrowPlan(sb, m, id, at, |data|), data, true)
    ensures var plan := GrowPlan(sb, m, id, at, |data|);
            plan.Ok? && Extends(crc, sb, m, g, d.durable, id, at, data, plan.value.1)
  {
    hide GrowsFile, FsckOk, LoadMetadata, Recovers, Quiescent, SameData, GrowPlan, CanGrow, Apply, InRange, Zip;
    var plan := GrowPlan(sb, m, id, at, |data|);
    GrowPlanKeepsFsck(sb, m, id, at, |data|);
    GrowIsExact(sb, m, g, id, at, data);
    GrowsOn(sb, m, g, plan.value.0, Apply(g, Zip(plan.value.1, data)), d.durable, id, at, data, plan.value.1);
  }

  /** Append (`at` absent) and insertion: allocate, put the blocks in the list, and publish tables and
      data together. */
  method AddBlocks(device: BlockDevice, crc: Checksum, sb: Superblock, id: u64, at: Option<nat>, data: seq<Block>)
    returns (r: Result<(seq<u64>, RecoveryReport)>)
    requires device.Valid() && ValidGeometry(sb)
    modifies device
    ensures device.Valid() && device.BlockCount() == old(device.BlockCount())
    ensures Ready(crc, sb, old(device.disk)) && LoadMetadata(crc, sb, old(device.disk).durable).Ok? ==>
              var m := LoadMetadata(crc, sb, old(device.disk).durable).value;
              && ReservedBlocks(sb) <= |m.owned| < U64_LIMIT
              && var plan := GrowPlan(sb, m, id, at, |data|);
                 && Grows(crc, sb, device.disk, m, old(device.disk).durable, plan, data, r.Ok?)
                 && (r.Ok? ==> r.value.0 == plan.value.1)
                 && (!device.faulty && GrowFits(crc, sb, old(device.disk).durable, plan, data) ==> r.Ok?)
                 && (r.Ok? && FsckOk(sb, m) ==>
                     Extends(crc, sb, m, old(device.disk).durable, device.disk.durable, id, at, data, r.value.0))
  {
    hide Run, LoadMetadata, StoredInodes, StoredEntries, StoredOwned, FsckOk, Quiescent, Changes, Recovers, Settles,
      FindInode, FileFits, Claim, WithBlocks, CountTrue, TakeFree, Apply, Extends;
    ghost var d0 := device.disk;
    if data == [] || device.BlockCount() != sb.totalBlocks {
      if Ready(crc, sb, d0) && LoadMetadata(crc, sb, d0.durable).Ok? {
        NothingGrown(crc, sb, d0, LoadMetadata(crc, sb, d0.durable).value, id, at, data);
      }
      return Err(InvalidInput);
    }
    LoadedParts(crc, sb, d0.durable);
    ghost var known := Ready(crc, sb, d0) && LoadMetadata(crc, sb, d0.durable).Ok?;
    ghost var m := if known then LoadMetadata(crc, sb, d0.durable).value else Metadata([], [], []);
    if known {
      NothingGrown(crc, sb, d0, m, id, at, data);
    }
    var owned, a := LoadAllocator(device, crc, sb);
    if owned.Err? {
      return Err(owned.kind);
    }
    var inodes := LoadInodes(device, crc, sb);
    if inodes.Err? {
      return Err(inodes.kind);
    }
    if !IsKind(inodes.value, id, File) {
      return Err(InvalidInput);
    }
    var k := FindInode(inodes.value, id).value;
    var blocks := inodes.value[k].blocks;
    var p := if at.Some? then at.value else |blocks|;
    if p > |blocks| {
      return Err(InvalidInput);
    }
    var extra := AllocateAll(a, |data|);
    if extra.None? {
      return Err(InvalidInput);
    }
    TakenAreLowest(owned.value, ReservedBlocks(sb), |data|);
    TakenAreData(sb, owned.value, extra.value, data);
    var grown := WithBlocks(inodes.value, k, blocks[..p] + extra.value + blocks[p..]);
    var stored := StoreFile(device, crc, sb, a.owned, grown, Zip(extra.value, data));
    if stored.Err? {
      return Err(stored.kind);
    }
    if known && FsckOk(sb, m) {
      GrowthLeaves(crc, sb, device.disk, m, d0.durable, id, at, data);
    }
    return Ok((extra.value, stored.value));
  }

  lemma TakenAreData(sb: Superblock, owned: seq<bool>, extra: seq<u64>, data: seq<Block>)
    requires |owned| == sb.totalBlocks && |extra| == |data| && LowestBlocks(owned, ReservedBlocks(sb), extra)
    ensures AllData(sb, Zip(extra, data))
  {
  }
}
