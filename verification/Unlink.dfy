/** Validating and storing an unlink (`unlink_tx.rs`). */
module Unlink {
  import opened Bytes
  import opened Results
  import opened Sequences
  import opened Format
  import opened Device
  import opened Crash
  import opened Journaled
  import opened Allocation
  import opened InodeTable
  import opened MetadataTx
  import opened Fsck
  import opened Volume
  import opened Ownership
  import opened Overwrite
  import opened FileOps

  // ------------------------------------------------------------------------ snapshots as maps and sets

  function ById(inodes: seq<Inode>): (r: map<u64, Inode>) {
    if inodes == [] then map[] else ById(inodes[..|inodes| - 1])[inodes[|inodes| - 1].id := inodes[|inodes| - 1]]
  }

  lemma ByIdSnoc(inodes: seq<Inode>)
    requires inodes != []
    ensures var n := |inodes| - 1; ById(inodes) == ById(inodes[..n])[inodes[n].id := inodes[n]]
    ensures var n := |inodes| - 1; ById(inodes).Keys == ById(inodes[..n]).Keys + {inodes[n].id}
  {
  }

  lemma IdsSnoc(inodes: seq<Inode>)
    requires inodes != []
    ensures var n := |inodes| - 1; DistinctIds(inodes) <==>
              DistinctIds(inodes[..n]) && !HasId(inodes[..n], inodes[n].id)
    ensures var n := |inodes| - 1; forall x :: HasId(inodes, x) <==> HasId(inodes[..n], x) || x == inodes[n].id
  {
    var n := |inodes| - 1;
    var rest := inodes[..n];
    assert forall i :: 0 <= i < n ==> inodes[i] == rest[i];
    forall x ensures HasId(inodes, x) <==> HasId(rest, x) || x == inodes[n].id {
    }
  }

  /** The map is as large as the list exactly when the ids are distinct. */
  lemma {:induction false} ByIdSize(inodes: seq<Inode>)
    ensures forall x :: x in ById(inodes) <==> HasId(inodes, x)
    ensures |ById(inodes)| <= |inodes|
    ensures |ById(inodes)| == |inodes| <==> DistinctIds(inodes)
  {
    if inodes != [] {
      hide ById, HasId, DistinctIds;
      ByIdSnoc(inodes);
      IdsSnoc(inodes);
      ByIdSize(inodes[..|inodes| - 1]);
      assert |ById(inodes)| == |ById(inodes).Keys|;
    }
  }

  /** With distinct ids the map holds the list. */
  lemma {:induction false} ByIdHolds(inodes: seq<Inode>)
    requires DistinctIds(inodes)
    ensures forall i :: i in inodes ==> i.id in ById(inodes) && ById(inodes)[i.id] == i
    ensures forall x :: x in ById(inodes) ==> ById(inodes)[x] in inodes && ById(inodes)[x].id == x
  {
    if inodes != [] {
      hide ById, DistinctIds;
      var n := |inodes| - 1;
      ByIdSnoc(inodes);
      IdsSnoc(inodes);
      ByIdHolds(inodes[..n]);
      assert inodes == inodes[..n] + [inodes[n]];
      forall i | i in inodes[..n] ensures i.id != inodes[n].id {
        var k :| 0 <= k < n && inodes[..n][k] == i;
        assert HasId(inodes[..n], i.id);
      }
    }
  }

  function EntrySet(es: seq<DirEntry>): set<DirEntry> {
    set e | e in es
  }

  lemma {:induction false} EntrySetSize(es: seq<DirEntry>)
    ensures |EntrySet(es)| <= |es|
    ensures |EntrySet(es)| == |es| <==> NoRepeats(es)
  {
    if es != [] {
      var n := |es| - 1;
      EntrySetSize(es[..n]);
      assert es == es[..n] + [es[n]];
      assert EntrySet(es) == EntrySet(es[..n]) + {es[n]};
    }
  }

  lemma SizeOne<T>(s: set<T>, x: T)
    requires x in s
    ensures |s| == 1 <==> s == {x}
  {
    assert |s - {x}| == |s| - 1;
    if |s| == 1 {
      assert s - {x} == {};
    }
  }

  // ------------------------------------------------------------------------ validation

  /** Exactly the blocks of `gone` are released. */
  method ReleasesExactly(reserved: nat, current: seq<bool>, desired: seq<bool>, gone: seq<u64>) returns (ok: bool)
    requires |current| == |desired| && ValidOwned(current, reserved) && ValidOwned(desired, reserved)
    requires |current| < U64_LIMIT
    ensures ok <==> desired == Release(current, gone) &&
                    forall x :: x in gone ==> reserved <= x < |current| && current[x]
  {
    var freed: set<u64> := {};
    var block := reserved;
    while block < |current|
      invariant reserved <= block <= |current|
      invariant forall x: u64 :: x in freed <==> reserved <= x < block && current[x] && !desired[x]
      invariant forall i :: reserved <= i < block ==> current[i] || !desired[i]
    {
      if current[block] && !desired[block] {
        freed := freed + {block};
      } else if !current[block] && desired[block] {
        assert Release(current, gone)[block] == false;
        return false;
      }
      block := block + 1;
    }
    ok := freed == set x | x in gone;
    ReleasedIs(reserved, current, desired, gone, freed);
  }

  lemma ReleasedIs(reserved: nat, current: seq<bool>, desired: seq<bool>, gone: seq<u64>, freed: set<u64>)
    requires |current| == |desired| && ValidOwned(current, reserved) && ValidOwned(desired, reserved)
    requires |current| < U64_LIMIT
    requires forall x: u64 :: x in freed <==> reserved <= x < |current| && current[x] && !desired[x]
    requires forall i :: reserved <= i < |current| ==> current[i] || !desired[i]
    ensures freed == (set x | x in gone) <==> desired == Release(current, gone) && forall x :: x in gone ==>
              reserved <= x < |current| && current[x]
  {
    var all := set x | x in gone;
    var released := Release(current, gone);
    if freed == all {
      assert forall x :: x in gone ==> x in all;
      forall i | 0 <= i < |current| ensures desired[i] == released[i] {
        var x: u64 := i;
        assert x in all <==> x in gone;
        assert i < reserved || (x in freed <==> current[x] && !desired[x]);
      }
    }
    if desired == released && forall x :: x in gone ==> reserved <= x < |current| && current[x] {
      forall x: u64 ensures x in freed <==> x in all {
        if reserved <= x < |current| {
          assert released[x] == (current[x] && x !in gone);
        }
      }
    }
  }

  /** `validate_unlink_transition` on loaded tables: accepts exactly the desired allocator, inodes and
      entries that are one unlink away, in the volume's own geometry. */
  method ValidateUnlink(sb: Superblock, m: Metadata, desired: BlockAllocator, inodes: seq<Inode>,
                        entries: seq<DirEntry>)
    returns (ok: bool)
    requires ValidGeometry(sb) && |m.owned| == sb.totalBlocks && ValidOwned(m.owned, ReservedBlocks(sb))
    requires desired.Valid() && DistinctIds(m.inodes) && NoRepeats(m.entries)
    ensures ok <==> desired.reserved == ReservedBlocks(sb) && UnlinksTo(sb, m, Metadata(desired.owned, inodes, entries))
  {
    hide IsUnlink, ValidOwned;
    var m' := Metadata(desired.owned, inodes, entries);
    UnlinkNeeds(sb, m, m');
    if |m.owned| != |desired.owned| || desired.reserved != ReservedBlocks(sb) {
      return false;
    }
    ok := ValidateSnapshots(sb, m, m');
  }

  ghost predicate UnlinksTo(sb: Superblock, m: Metadata, m': Metadata) {
    exists gone, e :: IsUnlink(sb, m, m', gone, e)
  }

  /** Snapshots of one geometry: accepts exactly the pairs that differ by one unlink. */
  method ValidateSnapshots(sb: Superblock, m: Metadata, m': Metadata) returns (ok: bool)
    requires ValidGeometry(sb) && |m.owned| == sb.totalBlocks && ValidOwned(m.owned, ReservedBlocks(sb))
    requires |m'.owned| == |m.owned| && ValidOwned(m'.owned, ReservedBlocks(sb)) && DistinctIds(m.inodes)
    requires NoRepeats(m.entries)
    ensures ok <==> exists gone, e :: IsUnlink(sb, m, m', gone, e)
  {
    hide IsUnlink, ById, ValidOwned, HasId;
    UnlinkNeeds(sb, m, m');
    var current, desired := ById(m.inodes), ById(m'.inodes);
    ByIdSize(m.inodes);
    ByIdSize(m'.inodes);
    if |current| != |m.inodes| || |desired| != |m'.inodes| {
      return false;
    }
    var removed := set x | x in current && x !in desired;
    UnlinkRemovesOne(sb, m, m', removed);
    SurvivorsKept(sb, m, m');
    if |removed| != 1 || !(forall x | x in desired :: x in current && current[x] == desired[x]) {
      return false;
    }
    var id :| id in removed;
    SizeOne(removed, id);
    if id == ROOT {
      NotTheRoot(sb, m, m');
      return false;
    }
    ByIdHolds(m.inodes);
    SameInodes(m.inodes, m'.inodes, current[id]);
    ok := ValidateEntries(sb, m, m', current[id]);
  }

  /** What every unlink satisfies, whatever it removes. */
  lemma UnlinkNeeds(sb: Superblock, m: Metadata, m': Metadata)
    ensures (exists gone, e :: IsUnlink(sb, m, m', gone, e)) ==>
              |m.owned| == |m'.owned| && DistinctIds(m'.inodes) && NoRepeats(m'.entries)
  {
  }

  lemma UnlinkRemovesOne(sb: Superblock, m: Metadata, m': Metadata, removed: set<u64>)
    requires DistinctIds(m.inodes) && DistinctIds(m'.inodes)
    requires forall x :: x in removed <==> HasId(m.inodes, x) && !HasId(m'.inodes, x)
    ensures forall gone, e :: IsUnlink(sb, m, m', gone, e) ==> removed == {gone.id} && |removed| == 1
  {
    forall gone, e | IsUnlink(sb, m, m', gone, e) ensures removed == {gone.id} {
      var k :| 0 <= k < |m.inodes| && m.inodes[k] == gone;
      assert HasId(m.inodes, gone.id);
      assert forall i :: 0 <= i < |m'.inodes| ==> m'.inodes[i] in m'.inodes;
      assert !HasId(m'.inodes, gone.id);
      forall x | HasId(m.inodes, x) && x != gone.id ensures HasId(m'.inodes, x) {
        var i :| 0 <= i < |m.inodes| && m.inodes[i].id == x;
        assert m.inodes[i] in m.inodes && m.inodes[i] in m'.inodes;
      }
    }
  }

  lemma SurvivorsKept(sb: Superblock, m: Metadata, m': Metadata)
    requires DistinctIds(m.inodes) && DistinctIds(m'.inodes)
    ensures (exists gone, e :: IsUnlink(sb, m, m', gone, e)) ==>
              forall x :: x in ById(m'.inodes) ==> x in ById(m.inodes) && ById(m.inodes)[x] == ById(m'.inodes)[x]
  {
    hide ById;
    if gone, e :| IsUnlink(sb, m, m', gone, e) {
      ByIdHolds(m.inodes);
      ByIdHolds(m'.inodes);
    }
  }

  lemma NotTheRoot(sb: Superblock, m: Metadata, m': Metadata)
    ensures forall gone, e :: IsUnlink(sb, m, m', gone, e) ==> gone.id != ROOT
  {
  }

  lemma SameInodes(before: seq<Inode>, after: seq<Inode>, gone: Inode)
    requires DistinctIds(before) && DistinctIds(after) && gone in before
    requires forall x :: x in ById(after) ==> x in ById(before) && ById(before)[x] == ById(after)[x]
    requires forall x :: x == gone.id <==> x in ById(before) && x !in ById(after)
    ensures forall i :: i in after <==> i in before && i != gone
  {
    hide ById;
    ByIdHolds(before);
    ByIdHolds(after);
    forall i | i in before && i != gone ensures i in after {
      assert ById(before)[gone.id] == gone && ById(before)[i.id] == i;
    }
  }

  /** The checks on entries and blocks, once the removed inode is known. */
  method ValidateEntries(sb: Superblock, m: Metadata, m': Metadata, gone: Inode) returns (ok: bool)
    requires ValidGeometry(sb) && |m.owned| == |m'.owned| == sb.totalBlocks
    requires ValidOwned(m.owned, ReservedBlocks(sb)) && ValidOwned(m'.owned, ReservedBlocks(sb))
    requires DistinctIds(m.inodes) && DistinctIds(m'.inodes) && NoRepeats(m.entries) && gone in m.inodes
    requires gone.id != ROOT
    requires forall i :: i in m'.inodes <==> i in m.inodes && i != gone
    ensures ok <==> exists gone, e :: IsUnlink(sb, m, m', gone, e)
  {
    hide IsUnlink, Release, CountTarget, ValidOwned, DistinctIds;
    var id := gone.id;
    var before, after := EntrySet(m.entries), EntrySet(m'.entries);
    EntrySetSize(m.entries);
    EntrySetSize(m'.entries);
    UnlinkNeeds(sb, m, m');
    if |before| != |m.entries| || |after| != |m'.entries| {
      return false;
    }
    var dropped := before - after;
    OneEntryDropped(sb, m, m');
    if !(after <= before) || |dropped| != 1 {
      return false;
    }
    var e :| e in dropped;
    SizeOne(dropped, e);
    var count := CountTarget(m.entries, id);
    OnlyReference(m.entries, e, id);
    var shape := && e.target == id && count == 1
                 && (forall f | f in m'.entries :: f.target != id && f.parent != id)
                 && (gone.kind.Directory? ==> forall f | f in m.entries :: f.parent != id);
    var freed := ReleasesExactly(ReservedBlocks(sb), m.owned, m'.owned, gone.blocks);
    RemovalDecides(sb, m, m', gone, e);
    return shape && freed;
  }

  lemma OneEntryDropped(sb: Superblock, m: Metadata, m': Metadata)
    ensures (exists gone, e :: IsUnlink(sb, m, m', gone, e)) ==>
              EntrySet(m'.entries) <= EntrySet(m.entries) && |EntrySet(m.entries) - EntrySet(m'.entries)| == 1
  {
    if gone, e :| IsUnlink(sb, m, m', gone, e) {
      assert EntrySet(m.entries) - EntrySet(m'.entries) == {e};
    }
  }

  /** One reference counted is one entry, when no entry is listed twice. */
  lemma OnlyReference(es: seq<DirEntry>, e: DirEntry, id: u64)
    requires NoRepeats(es) && e in es
    ensures e.target == id ==> (CountTarget(es, id) == 1 <==> forall f :: f in es && f.target == id ==> f == e)
  {
    hide CountTarget;
    if e.target == id {
      var d :| 0 <= d < |es| && es[d] == e;
      CountTargetOne(es, id, d);
      assert (forall j :: 0 <= j < |es| && es[j].target == id ==> j == d) <==>
          forall f :: f in es && f.target == id ==> f == e by {
        forall j | 0 <= j < |es| ensures es[j] in es {
        }
      }
    }
  }

  /** With the removed inode and entry determined, the remaining checks decide. */
  lemma RemovalDecides(sb: Superblock, m: Metadata, m': Metadata, gone: Inode, e: DirEntry)
    requires DistinctIds(m'.inodes) && NoRepeats(m'.entries) && ValidGeometry(sb) && |m.owned| == sb.totalBlocks
    requires gone in m.inodes && gone.id != ROOT && e in m.entries
    requires forall i :: i in m'.inodes <==> i in m.inodes && i != gone
    requires EntrySet(m'.entries) <= EntrySet(m.entries) && EntrySet(m.entries) - EntrySet(m'.entries) == {e}
    ensures (exists gone, e :: IsUnlink(sb, m, m', gone, e)) <==>
              && e.target == gone.id && (forall f :: f in m.entries && f.target == gone.id ==> f == e)
              && (forall f :: f in m'.entries ==> f.target != gone.id && f.parent != gone.id)
              && (gone.kind.Directory? ==> forall f :: f in m.entries ==> f.parent != gone.id)
              && m'.owned == Release(m.owned, gone.blocks)
              && (forall x :: x in gone.blocks ==> ReservedBlocks(sb) <= x < |m.owned| && m.owned[x])
  {
    hide Release;
    var before, after := EntrySet(m.entries), EntrySet(m'.entries);
    forall f ensures f in m'.entries <==> f in m.entries && f != e {
      assert (f in m'.entries <==> f in after) && (f in m.entries <==> f in before);
      assert f in before - after <==> f == e;
    }
    if gone2, e2 :| IsUnlink(sb, m, m', gone2, e2) {
      assert gone2 !in m'.inodes && gone2 == gone;
      assert e2 !in m'.entries && e2 == e;
    } else {
      assert !IsUnlink(sb, m, m', gone, e);
    }
  }

  // ------------------------------------------------------------------------ storing

  /** `store_unlink_metadata_journaled`: snapshots that are not one unlink away from the volume are
      refused; otherwise it moves there atomically, and stays consistent. */
  method StoreUnlink(device: BlockDevice, crc: Checksum, sb: Superblock, desired: BlockAllocator, inodes: seq<Inode>,
                     entries: seq<DirEntry>)
    returns (r: Result<RecoveryReport>)
    requires device.Valid() && ValidGeometry(sb) && desired.Valid()
    modifies device
    ensures device.Valid() && device.BlockCount() == old(device.BlockCount())
    ensures Ready(crc, sb, old(device.disk)) && LoadMetadata(crc, sb, old(device.disk).durable).Ok? ==>
              var m, m' :=
                  LoadMetadata(crc, sb, old(device.disk).durable).value, Metadata(desired.owned, inodes, entries);
              var legal := desired.reserved == ReservedBlocks(sb) && UnlinksTo(sb, m, m');
              && (!legal ==> r.Err? && Recovers(crc, sb, device.disk, m, old(device.disk).durable))
              && (legal ==>
                  Changes(crc, sb, device.disk, m, old(device.disk).durable, m', old(device.disk).durable, r.Ok?))
              && (legal && FsckOk(sb, m) ==> FsckOk(sb, m'))
              && (legal && !device.faulty && MetadataFits(crc, sb, old(device.disk).durable, m') ==> r.Ok?)
  {
    hide Run, LoadMetadata, StoredInodes, StoredEntries, StoredOwned, FsckOk, Quiescent, Changes, Recovers, Settles,
      MetadataFits, IsUnlink, Renderable, CountTrue;
    ghost var d0 := device.disk;
    var m' := Metadata(desired.owned, inodes, entries);
    if device.BlockCount() != sb.totalBlocks {
      return Err(InvalidInput);
    }
    LoadedParts(crc, sb, d0.durable);
    ghost var known := Ready(crc, sb, d0) && LoadMetadata(crc, sb, d0.durable).Ok?;
    ghost var m := if known then LoadMetadata(crc, sb, d0.durable).value else Metadata([], [], []);
    if known {
      Unchanged(crc, sb, d0, m, m', d0.durable);
      UnlinkPreserves(sb, m, m');
    }
    var owned, a := LoadAllocator(device, crc, sb);
    if owned.Err? {
      return Err(owned.kind);
    }
    var current := LoadInodes(device, crc, sb);
    if current.Err? {
      return Err(current.kind);
    }
    var listed := LoadEntries(device, crc, sb);
    if listed.Err? {
      return Err(listed.kind);
    }
    var ok := ValidateUnlink(sb, Metadata(a.owned, current.value, listed.value), desired, inodes, entries);
    if !ok {
      return Err(InvalidInput);
    }
    r := StoreMetadata(device, crc, sb, m');
  }

  lemma UnlinkPreserves(sb: Superblock, m: Metadata, m': Metadata)
    ensures FsckOk(sb, m) && (exists gone, e :: IsUnlink(sb, m, m', gone, e)) ==> FsckOk(sb, m')
  {
    hide FsckOk, IsUnlink;
    if FsckOk(sb, m) {
      if gone, e :| IsUnlink(sb, m, m', gone, e) {
        UnlinkKeepsFsck(sb, m, m', gone, e);
      }
    }
  }
}
