/** Renaming one entry (`rename_tx.rs`). */
module Rename {
  import opened Bytes
  import opened Blocks
  import opened Results
  import opened Graph
  import opened Format
  import opened Device
  import opened Crash
  import opened Journaled
  import opened InodeTable
  import opened DirectoryTable
  import opened TableImage
  import opened MetadataTx
  import opened Fsck
  import opened Namespace
  import opened Volume

  // ------------------------------------------------------------------------ searches

  /** `iter().position` of a key. */
  function FindEntry(es: seq<DirEntry>, parent: u64, name: seq<byte>): (r: Option<nat>)
    ensures r.Some? ==> r.value < |es| && es[r.value].parent == parent && es[r.value].name == name
    ensures r.None? ==> forall i :: 0 <= i < |es| ==> es[i].parent != parent || es[i].name != name
  {
    if es == [] then None
    else
      var first := FindEntry(es[..|es| - 1], parent, name);
      if first.Some? then first
      else if es[|es| - 1].parent == parent && es[|es| - 1].name == name then Some(|es| - 1)
      else None
  }

  /** `iter().find` of an inode. */
  function FindInode(inodes: seq<Inode>, id: u64): (r: Option<nat>)
    ensures r.Some? ==> r.value < |inodes| && inodes[r.value].id == id
    ensures r.None? ==> forall i :: 0 <= i < |inodes| ==> inodes[i].id != id
  {
    if inodes == [] then None
    else
      var first := FindInode(inodes[..|inodes| - 1], id);
      if first.Some? then first else if inodes[|inodes| - 1].id == id then Some(|inodes| - 1) else None
  }

  predicate IsKind(inodes: seq<Inode>, id: u64, kind: InodeKind) {
    var i := FindInode(inodes, id);
    i.Some? && inodes[i.value].kind == kind
  }

  /** With unique ids a search and the kind map agree. */
  lemma {:induction false} KindIsFound(inodes: seq<Inode>, id: u64)
    requires DistinctIds(inodes)
    ensures id in KindMap(inodes) <==> FindInode(inodes, id).Some?
    ensures id in KindMap(inodes) ==> KindMap(inodes)[id] == inodes[FindInode(inodes, id).value].kind
  {
    if inodes != [] {
      var n := |inodes| - 1;
      KindIsFound(inodes[..n], id);
      if inodes[n].id == id {
        assert FindInode(inodes[..n], id).None?;
      }
    }
  }

  lemma KindsAreFound(inodes: seq<Inode>)
    requires DistinctIds(inodes)
    ensures forall id :: IsDir(KindMap(inodes), id) <==> IsKind(inodes, id, Directory)
    ensures forall id :: id in KindMap(inodes) <==> FindInode(inodes, id).Some?
  {
    hide KindMap, FindInode;
    forall id
      ensures IsDir(KindMap(inodes), id) <==> IsKind(inodes, id, Directory)
      ensures id in KindMap(inodes) <==> FindInode(inodes, id).Some?
    {
      KindIsFound(inodes, id);
    }
  }

  // ------------------------------------------------------------------------ the cycle test

  function EdgesExcept(es: seq<DirEntry>, k: nat): Edges {
    set i | 0 <= i < |es| && i != k :: (es[i].parent, es[i].target)
  }

  method BuildChildren(es: seq<DirEntry>, source: nat) returns (children: Adjacency)
    ensures Lists(children, EdgesExcept(es, source))
  {
    children := map[];
    var i := 0;
    while i < |es|
      invariant 0 <= i <= |es|
      invariant Lists(children, EdgesExcept(es[..i], source))
    {
      ExceptSnoc(es, i, source);
      if i != source {
        var e := es[i];
        ghost var before := children;
        children := children[e.parent := (if e.parent in children then children[e.parent] else []) + [e.target]];
        AdjacencyGrows(before, children, e.parent, e.target);
      }
      i := i + 1;
    }
    assert es[..i] == es;
  }

  lemma ExceptSnoc(es: seq<DirEntry>, i: nat, k: nat)
    requires i < |es|
    ensures EdgesExcept(es[..i + 1], k) ==
            EdgesExcept(es[..i], k) + if i == k then {} else {(es[i].parent, es[i].target)}
  {
    var a := EdgesExcept(es[..i + 1], k);
    var b := EdgesExcept(es[..i], k) + if i == k then {} else {(es[i].parent, es[i].target)};
    forall e | e in a ensures e in b {
      var j :| 0 <= j < i + 1 && j != k && e == (es[..i + 1][j].parent, es[..i + 1][j].target);
      if j < i {
        assert e == (es[..i][j].parent, es[..i][j].target);
      }
    }
    forall e | e in b ensures e in a {
      if e in EdgesExcept(es[..i], k) {
        var j :| 0 <= j < i && j != k && e == (es[..i][j].parent, es[..i][j].target);
        assert e == (es[..i + 1][j].parent, es[..i + 1][j].target);
      } else {
        assert e == (es[..i + 1][i].parent, es[..i + 1][i].target);
      }
    }
  }

  /** The worklist reports a cycle exactly when the new parent lies at or below the target once the
      moved entry is taken away. */
  method WouldCreateCycle(es: seq<DirEntry>, source: nat, target: u64, newParent: u64) returns (cycle: bool)
    ensures cycle <==> Reach(EdgesExcept(es, source), target, newParent)
  {
    hide Reach, EdgesExcept;
    ghost var g := EdgesExcept(es, source);
    ReachSelf(g, target);
    if target == newParent {
      return true;
    }
    var children := BuildChildren(es, source);
    var pending := [target];
    var seen: set<u64> := {};
    ghost var universe := AllTargets(es, target);
    TargetsClosed(es, source, target);
    while pending != []
      invariant seen <= universe && newParent !in seen
      invariant forall x :: x in pending ==> x in universe && Reach(g, target, x)
      invariant target in seen || target in pending
      invariant forall a: u64, b: u64 :: a in seen && (a, b) in g ==> b in seen || b in pending
      decreases universe - seen, |pending|
    {
      var inode := pending[|pending| - 1];
      ghost var before := pending;
      pending := pending[..|pending| - 1];
      assert forall x :: x in before <==> x == inode || x in pending;
      if inode in seen {
        continue;
      }
      seen := seen + {inode};
      if inode == newParent {
        return true;
      }
      if inode in children {
        forall b | b in children[inode] ensures b in universe && Reach(g, target, b) {
          assert Adjacent(children, inode, b);
          ReachEdge(g, inode, b);
          ReachTrans(g, target, inode, b);
        }
        pending := pending + children[inode];
      }
      assert forall b: u64 :: (inode, b) in g ==> Adjacent(children, inode, b);
    }
    if Reach(g, target, newParent) {
      ReachStaysInside(g, seen, target, newParent);
    }
    return false;
  }

  function AllTargets(es: seq<DirEntry>, target: u64): set<u64> {
    {target} + set i | 0 <= i < |es| :: es[i].target
  }

  lemma TargetsClosed(es: seq<DirEntry>, source: nat, target: u64)
    ensures Closed(EdgesExcept(es, source), AllTargets(es, target))
  {
  }

  // ------------------------------------------------------------------------ the transition

  /** The entry table after a rename, or the refusal. */
  ghost function Renamed(inodes: seq<Inode>, es: seq<DirEntry>, oldParent: u64, oldName: seq<byte>, newParent: u64,
                         newName: seq<byte>)
    : (r: Result<seq<DirEntry>>)
  {
    if !IsKind(inodes, oldParent, Directory) || !IsKind(inodes, newParent, Directory) then Err(InvalidInput)
    else
      var source := FindEntry(es, oldParent, oldName);
      if source.None? then Err(InvalidInput)
      else
        var k, target := source.value, es[source.value].target;
        var moved := DirEntry(newParent, target, newName);
        if target == ROOT then Err(InvalidInput)
        else if oldParent == newParent && oldName == newName then Ok(es)
        else if FindEntry(es, newParent, newName).Some? then Err(InvalidInput)
        else if !ValidEntry(moved) || FindInode(inodes, target).None? then Err(InvalidInput)
        else if IsKind(inodes, target, Directory) && Reach(EdgesExcept(es, k), target, newParent) then Err(InvalidInput)
        else Ok(es[k := moved])
  }

  lemma SplitEdges(es: seq<DirEntry>, k: nat, e: DirEntry)
    requires k < |es|
    ensures EdgeSet(es) == EdgesExcept(es, k) + {(es[k].parent, es[k].target)}
    ensures EdgeSet(es[k := e]) == EdgesExcept(es, k) + {(e.parent, e.target)}
  {
    var es' := es[k := e];
    assert es'[k] == e && forall i :: 0 <= i < |es| && i != k ==> es'[i] == es[i];
    forall x | x in EdgesExcept(es, k) ensures x in EdgeSet(es') {
      var i :| 0 <= i < |es| && i != k && x == (es[i].parent, es[i].target);
      assert x == (es'[i].parent, es'[i].target);
    }
    assert (e.parent, e.target) == (es'[k].parent, es'[k].target);
    forall x | x in EdgeSet(es') && x != (e.parent, e.target) ensures x in EdgesExcept(es, k) {
      var i :| 0 <= i < |es| && x == (es'[i].parent, es'[i].target);
      assert x == (es[i].parent, es[i].target);
    }
  }

  /** A path between directories stays among directories. */
  lemma PathOfDirs(kinds: Kinds, g: Edges, f: Edges, a: u64, b: u64)
    requires Reach(f, a, b) && f <= g && IsDir(kinds, b)
    requires forall x, y :: (x, y) in g ==> IsDir(kinds, x)
    ensures Reach(DirOnly(kinds, g), a, b)
  {
    var p :| Joins(f, p, a, b);
    forall i | 0 <= i < |p| - 1 ensures (p[i], p[i + 1]) in DirOnly(kinds, g) {
      assert (p[i], p[i + 1]) in f;
      if i + 1 < |p| - 1 {
        assert (p[i + 1], p[i + 2]) in f;
      }
    }
    assert Joins(DirOnly(kinds, g), p, a, b);
  }

  /** Moving a directory below itself is never legal, so the refusal is exact. */
  lemma MoveBelowItself(kinds: Kinds, f: Edges, np: u64, t: u64)
    requires IsDir(kinds, t) && Reach(f, t, np)
    ensures !GraphOk(kinds, f + {(np, t)})
  {
    hide Reach, ReachPlus;
    var g := f + {(np, t)};
    if GraphOk(kinds, g) {
      assert (np, t) in g;
      PathOfDirs(kinds, g, f, t, np);
      ReachEdge(DirOnly(kinds, g), np, t);
      ReachTrans(DirOnly(kinds, g), t, np, t);
    }
  }

  lemma KeysAfter(es: seq<DirEntry>, k: nat, e: DirEntry)
    requires k < |es| && UniqueKeys(es) && (es[k].parent != e.parent || es[k].name != e.name)
    ensures UniqueKeys(es[k := e]) <==> FindEntry(es, e.parent, e.name).None?
  {
    hide FindEntry;
    var es' := es[k := e];
    if FindEntry(es, e.parent, e.name).Some? {
      var i := FindEntry(es, e.parent, e.name).value;
      assert es'[i] == es[i] && es'[k] == e;
      assert i < k || k < i;
    }
  }

  /** From any consistent volume, a well-formed rename is accepted exactly when the resulting volume
      is consistent, and the result is the table with that one entry replaced. */
  lemma RenameIsExact(sb: Superblock, m: Metadata, k: nat, newParent: u64, newName: seq<byte>)
    requires FsckOk(sb, m) && k < |m.entries|
    requires var e := m.entries[k];
             && e.target != ROOT && (e.parent != newParent || e.name != newName)
             && ValidEntry(DirEntry(newParent, e.target, newName))
    ensures var e := m.entries[k];
            var after := m.entries[k := DirEntry(newParent, e.target, newName)];
            var r := Renamed(m.inodes, m.entries, e.parent, e.name, newParent, newName);
            && (r.Ok? <==> FsckOk(sb, m.(entries := after)))
            && (r.Ok? ==> r.value == after)
  {
    hide Reach, Acyclic, KindMap, FindEntry, FindInode, EdgeSet, EdgesExcept, NamespaceOk, GraphOk, OwnershipOk,
      ValidEntry;
    var e := m.entries[k];
    var moved := DirEntry(newParent, e.target, newName);
    var kinds, after, f := KindMap(m.inodes), m.entries[k := moved], EdgesExcept(m.entries, k);
    KindsAreFound(m.inodes);
    SplitEdges(m.entries, k, moved);
    LegalIsGraph(kinds, m.entries);
    LegalIsGraph(kinds, after);
    LegalEntry(kinds, m.entries, k);
    assert FindEntry(m.entries, e.parent, e.name) == Some(k);
    KeysAfter(m.entries, k, moved);
    MoveIsExact(kinds, f, e.parent, newParent, e.target);
  }

  lemma LegalEntry(kinds: Kinds, es: seq<DirEntry>, k: nat)
    requires NamespaceOk(kinds, es) && k < |es|
    ensures IsDir(kinds, es[k].parent) && es[k].target in kinds
  {
  }

  lemma MoveIsExact(kinds: Kinds, f: Edges, op: u64, np: u64, t: u64)
    requires GraphOk(kinds, f + {(op, t)}) && t in kinds
    ensures GraphOk(kinds, f + {(np, t)}) <==> IsDir(kinds, np) && !(IsDir(kinds, t) && Reach(f, t, np))
  {
    hide Reach, Acyclic;
    if IsDir(kinds, np) && !(IsDir(kinds, t) && Reach(f, t, np)) {
      MoveEdge(kinds, f, op, np, t);
    } else if IsDir(kinds, t) && Reach(f, t, np) {
      MoveBelowItself(kinds, f, np, t);
    } else {
      assert (np, t) in f + {(np, t)};
    }
  }

  lemma RenameKeepsFsck(sb: Superblock, m: Metadata, oldParent: u64, oldName: seq<byte>, newParent: u64,
                        newName: seq<byte>)
    requires FsckOk(sb, m) && Renamed(m.inodes, m.entries, oldParent, oldName, newParent, newName).Ok?
    ensures FsckOk(sb, m.(entries := Renamed(m.inodes, m.entries, oldParent, oldName, newParent, newName).value))
  {
    hide Reach, FindEntry, FindInode, EdgesExcept, NamespaceOk, OwnershipOk, ValidEntry;
    var k := FindEntry(m.entries, oldParent, oldName).value;
    if oldParent != newParent || oldName != newName {
      RenameIsExact(sb, m, k, newParent, newName);
    }
  }

  predicate KeyAt(es: seq<DirEntry>, k: nat, parent: u64, name: seq<byte>) {
    k < |es| && es[k].parent == parent && es[k].name == name
  }

  /** `after` is the table of `m` with the entry under the old key, and only it, put under the new key.  The
      entry is not the root's, the new key is well formed unless it is the old one, and the volume stays
      consistent. */
  ghost predicate MovesEntry(sb: Superblock, m: Metadata, oldParent: u64, oldName: seq<byte>, newParent: u64,
                             newName: seq<byte>, after: seq<DirEntry>) {
    exists k: nat ::
      && KeyAt(m.entries, k, oldParent, oldName) && m.entries[k].target != ROOT
      && var moved := DirEntry(newParent, m.entries[k].target, newName);
         && after == m.entries[k := moved]
         && (moved == m.entries[k] || ValidEntry(moved)) && FsckOk(sb, m.(entries := after))
  }

  lemma KeyIsFound(es: seq<DirEntry>, parent: u64, name: seq<byte>)
    requires UniqueKeys(es)
    ensures forall k: nat :: KeyAt(es, k, parent, name) <==> FindEntry(es, parent, name) == Some(k)
  {
    hide FindEntry;
    var found := FindEntry(es, parent, name);
    forall k: nat | KeyAt(es, k, parent, name) ensures found == Some(k) {
      assert found.Some?;
      assert k == found.value;
    }
  }

  /** On a consistent volume every request has one answer: the move, when there is a legal one, and otherwise
      a refusal. */
  lemma RenameDecides(sb: Superblock, m: Metadata, oldParent: u64, oldName: seq<byte>, newParent: u64,
                      newName: seq<byte>, after: seq<DirEntry>)
    requires FsckOk(sb, m)
    ensures Renamed(m.inodes, m.entries, oldParent, oldName, newParent, newName) == Ok(after) <==>
            MovesEntry(sb, m, oldParent, oldName, newParent, newName, after)
  {
    hide Reach, KindMap, FindEntry, FindInode, EdgesExcept, NamespaceOk, OwnershipOk, ValidEntry, Renamed, KeyAt,
      IsKind;
    var found := FindEntry(m.entries, oldParent, oldName);
    KeyIsFound(m.entries, oldParent, oldName);
    RenameStart(m.inodes, m.entries, oldParent, oldName, newParent, newName);
    if found.Some? {
      assert KeyAt(m.entries, found.value, oldParent, oldName);
      RenameFound(sb, m, found.value, newParent, newName, after);
    }
  }

  lemma RenameStart(inodes: seq<Inode>, es: seq<DirEntry>, oldParent: u64, oldName: seq<byte>, newParent: u64,
                    newName: seq<byte>)
    ensures FindEntry(es, oldParent, oldName).None? ==>
              Renamed(inodes, es, oldParent, oldName, newParent, newName).Err?
  {
  }

  lemma RenameFound(sb: Superblock, m: Metadata, k: nat, newParent: u64, newName: seq<byte>, after: seq<DirEntry>)
    requires FsckOk(sb, m) && k < |m.entries|
    ensures var e := m.entries[k];
            var moved := DirEntry(newParent, e.target, newName);
            Renamed(m.inodes, m.entries, e.parent, e.name, newParent, newName) == Ok(after) <==>
              && e.target != ROOT && after == m.entries[k := moved] && (moved == e || ValidEntry(moved))
              && FsckOk(sb, m.(entries := after))
  {
    hide Reach, KindMap, FindEntry, FindInode, EdgesExcept, NamespaceOk, OwnershipOk, ValidEntry, IsKind;
    var e := m.entries[k];
    var moved := DirEntry(newParent, e.target, newName);
    KeyIsFound(m.entries, e.parent, e.name);
    assert KeyAt(m.entries, k, e.parent, e.name);
    if moved == e {
      assert m.entries[k := moved] == m.entries;
      ParentIsDirectory(sb, m, k);
    } else if e.target != ROOT && ValidEntry(moved) {
      RenameIsExact(sb, m, k, newParent, newName);
    }
  }

  lemma ParentIsDirectory(sb: Superblock, m: Metadata, k: nat)
    requires FsckOk(sb, m) && k < |m.entries|
    ensures IsKind(m.inodes, m.entries[k].parent, Directory)
  {
    hide KindMap, OwnershipOk, IsKind;
    KindsAreFound(m.inodes);
  }

  // ------------------------------------------------------------------------ on the device

  /** Decides a rename; the result is `Renamed`, so on a consistent volume the one legal move. */
  method PlanRename(inodes: seq<Inode>, es: seq<DirEntry>, oldParent: u64, oldName: seq<byte>, newParent: u64,
                    newName: seq<byte>)
    returns (r: Result<seq<DirEntry>>)
    ensures r == Renamed(inodes, es, oldParent, oldName, newParent, newName)
    ensures (forall k: nat :: !KeyAt(es, k, oldParent, oldName)) ==> r.Err?
    ensures forall sb, m, after :: FsckOk(sb, m) && m.inodes == inodes && m.entries == es ==>
              (r == Ok(after) <==> MovesEntry(sb, m, oldParent, oldName, newParent, newName, after))
  {
    hide Reach, FindInode, EdgesExcept, ValidEntry, FindEntry, FsckOk, MovesEntry, KindMap;
    forall sb, m, after | FsckOk(sb, m) && m.inodes == inodes && m.entries == es
      ensures Renamed(inodes, es, oldParent, oldName, newParent, newName) == Ok(after) <==>
              MovesEntry(sb, m, oldParent, oldName, newParent, newName, after)
    {
      RenameDecides(sb, m, oldParent, oldName, newParent, newName, after);
    }
    if !IsKind(inodes, oldParent, Directory) || !IsKind(inodes, newParent, Directory) {
      return Err(InvalidInput);
    }
    var source := FindEntry(es, oldParent, oldName);
    if source.None? {
      return Err(InvalidInput);
    }
    var k, target := source.value, es[source.value].target;
    assert KeyAt(es, k, oldParent, oldName);
    if target == ROOT {
      return Err(InvalidInput);
    }
    if oldParent == newParent && oldName == newName {
      return Ok(es);
    }
    var clash := FindEntry(es, newParent, newName);
    if clash.Some? && clash.value != k {
      return Err(InvalidInput);
    }
    var moved := DirEntry(newParent, target, newName);
    if !ValidEntry(moved) || FindInode(inodes, target).None? {
      return Err(InvalidInput);
    }
    if IsKind(inodes, target, Directory) {
      var cycle := WouldCreateCycle(es, k, target, newParent);
      if cycle {
        return Err(InvalidInput);
      }
    }
    return Ok(es[k := moved]);
  }

  /** `rename_entry_journaled`: the volume moves atomically to the renamed entry table, or stays;
      from a consistent volume every crash recovers to a consistent one. */
  method RenameEntry(device: BlockDevice, crc: Checksum, sb: Superblock, oldParent: u64, oldName: seq<byte>,
                     newParent: u64, newName: seq<byte>)
    returns (r: Result<RecoveryReport>)
    requires device.Valid() && ValidGeometry(sb)
    modifies device
    ensures device.Valid() && device.BlockCount() == old(device.BlockCount())
    ensures Ready(crc, sb, old(device.disk)) && LoadMetadata(crc, sb, old(device.disk).durable).Ok? ==>
              var m := LoadMetadata(crc, sb, old(device.disk).durable).value;
              RenamesTo(crc, sb, device.disk, m, old(device.disk).durable,
                        Renamed(m.inodes, m.entries, oldParent, oldName, newParent, newName), r.Ok?)
    ensures Ready(crc, sb, old(device.disk)) && LoadMetadata(crc, sb, old(device.disk).durable).Ok?
              && !device.faulty ==>
              var m := LoadMetadata(crc, sb, old(device.disk).durable).value;
              var planned := Renamed(m.inodes, m.entries, oldParent, oldName, newParent, newName);
              planned.Ok? && EntriesFit(crc, sb, old(device.disk).durable, planned.value) ==> r.Ok?
    ensures Ready(crc, sb, old(device.disk)) && LoadMetadata(crc, sb, old(device.disk).durable).Ok? ==>
              var m := LoadMetadata(crc, sb, old(device.disk).durable).value;
              r.Ok? && FsckOk(sb, m) ==>
                exists after ::
                  && MovesEntry(sb, m, oldParent, oldName, newParent, newName, after)
                  && Holds(crc, sb, device.disk.durable, m.(entries := after), old(device.disk).durable)
  {
    hide Run, Encodable, EntryImage, LoadMetadata, StoredInodes, StoredEntries, Renamed, FsckOk, Quiescent,
      Changes, Recovers, Settles, Overlay, Renderable, FitsJournal, Diff, MovesEntry, Holds;
    ghost var d0 := device.disk;
    if device.BlockCount() != sb.totalBlocks {
      return Err(InvalidInput);
    }
    LoadedParts(crc, sb, d0.durable);
    ghost var known := Ready(crc, sb, d0) && LoadMetadata(crc, sb, d0.durable).Ok?;
    ghost var m := if known then LoadMetadata(crc, sb, d0.durable).value else Metadata([], [], []);
    ghost var after := Renamed(m.inodes, m.entries, oldParent, oldName, newParent, newName);
    if FsckOk(sb, m) && after.Ok? {
      RenameDecides(sb, m, oldParent, oldName, newParent, newName, after.value);
    }
    if known {
      StayedPut(crc, sb, d0, m, after);
    }
    var inodes := LoadInodes(device, crc, sb);
    if inodes.Err? {
      return Err(inodes.kind);
    }
    var entries := LoadEntries(device, crc, sb);
    if entries.Err? {
      return Err(entries.kind);
    }
    var desired := PlanRename(inodes.value, entries.value, oldParent, oldName, newParent, newName);
    if desired.Err? {
      return Err(desired.kind);
    }
    if oldParent == newParent && oldName == newName {
      NothingRenamed(inodes.value, entries.value, oldParent, oldName);
      if known {
        RenamesHolds(crc, sb, device.disk, m, d0.durable, after);
      }
      return Ok(RecoveryReport(0, 0));
    }
    r := StoreDirectoryTable(device, crc, sb, desired.value);
    if known && Encodable(DirectoryFormat(crc), sb.directoryBlocks * BLOCK_SIZE, desired.value) {
      MovedOver(crc, sb, d0, device.disk, m, desired.value, after, r.Ok?);
    }
    if known && r.Ok? {
      RenamesHolds(crc, sb, device.disk, m, d0.durable, after);
    }
  }

  lemma RenamesHolds(crc: Checksum, sb: Superblock, d: Disk, m: Metadata, g: seq<Block>, planned: Result<seq<DirEntry>>)
    requires Mounted(sb, |d.durable|) && RenamesTo(crc, sb, d, m, g, planned, true)
    ensures planned.Ok? && Holds(crc, sb, d.durable, m.(entries := planned.value), g)
  {
  }

  /** The table region can hold the entries, and the journal the blocks they change. */
  predicate EntriesFit(crc: Checksum, sb: Superblock, blocks: seq<Block>, es: seq<DirEntry>)
    requires Mounted(sb, |blocks|)
  {
    && Encodable(DirectoryFormat(crc), sb.directoryBlocks * BLOCK_SIZE, es)
    && FitsJournal(crc, sb, Diff(blocks, sb.directoryStart, EntryImage(crc, sb, es)))
  }

  /** What a rename attempt leaves, given the planned result. */
  ghost predicate RenamesTo(crc: Checksum, sb: Superblock, d: Disk, m: Metadata, g: seq<Block>,
                            planned: Result<seq<DirEntry>>, ok: bool)
    requires Mounted(sb, |d.durable|)
  {
    && (planned.Err? ==> !ok && Recovers(crc, sb, d, m, g))
    && (planned.Ok? ==> Changes(crc, sb, d, m, g, m.(entries := planned.value), g, ok))
  }

  lemma NothingRenamed(inodes: seq<Inode>, es: seq<DirEntry>, parent: u64, name: seq<byte>)
    ensures Renamed(inodes, es, parent, name, parent, name).Ok? ==>
              Renamed(inodes, es, parent, name, parent, name).value == es
  {
  }

  lemma StayedPut(crc: Checksum, sb: Superblock, d: Disk, m: Metadata, planned: Result<seq<DirEntry>>)
    requires Ready(crc, sb, d) && LoadMetadata(crc, sb, d.durable) == Ok(m)
    ensures RenamesTo(crc, sb, d, m, d.durable, planned, false)
    ensures planned.Ok? && planned.value == m.entries ==> RenamesTo(crc, sb, d, m, d.durable, planned, true)
  {
    hide LoadMetadata, Quiescent, Recovers;
    Unchanged(crc, sb, d, m, if planned.Ok? then m.(entries := planned.value) else m, d.durable);
  }

  lemma MovedOver(crc: Checksum, sb: Superblock, d0: Disk, d: Disk, m: Metadata, es: seq<DirEntry>,
                  planned: Result<seq<DirEntry>>, ok: bool)
    requires Ready(crc, sb, d0) && |d.durable| == |d0.durable| && LoadMetadata(crc, sb, d0.durable) == Ok(m)
    requires planned == Ok(es)
    requires Encodable(DirectoryFormat(crc), sb.directoryBlocks * BLOCK_SIZE, es)
    requires Atomic(crc, sb, d0, d, sb.directoryStart, EntryImage(crc, sb, es), ok)
    ensures RenamesTo(crc, sb, d, m, d0.durable, planned, ok)
  {
    hide LoadMetadata, Quiescent, Settles, Overlay, Strip, Encodable, EntryImage, Changes, Recovers, Holds;
    EntryImageHolds(crc, sb, d0.durable, m, es);
    SettledChanges(crc, sb, d0, d, Overlay(Strip(sb, d0.durable), sb.directoryStart, EntryImage(crc, sb, es)), ok,
                   m, m.(entries := es), d0.durable);
  }

  /** Whatever a rename attempt on a consistent volume leaves behind recovers to a consistent one. */
  lemma RenameRecoversConsistent(crc: Checksum, sb: Superblock, d: Disk, m: Metadata, g: seq<Block>, oldParent: u64,
                                 oldName: seq<byte>,
                                 newParent: u64, newName: seq<byte>, ok: bool)
    requires Mounted(sb, |d.durable|) && FsckOk(sb, m)
    requires RenamesTo(crc, sb, d, m, g, Renamed(m.inodes, m.entries, oldParent, oldName, newParent, newName), ok)
    ensures exists m' :: FsckOk(sb, m') && Recovers(crc, sb, d, m', g)
  {
    hide Recovers, FsckOk, Renamed;
    var planned := Renamed(m.inodes, m.entries, oldParent, oldName, newParent, newName);
    if planned.Ok? {
      RenameKeepsFsck(sb, m, oldParent, oldName, newParent, newName);
    }
  }
}
