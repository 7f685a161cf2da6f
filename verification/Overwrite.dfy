/** Renaming a file over another one (`rename_overwrite_tx.rs`). */
module Overwrite {
  import opened Bytes
  import opened Blocks
  import opened Results
  import opened Graph
  import opened Format
  import opened Device
  import opened Crash
  import opened Journaled
  import opened Allocation
  import opened TableImage
  import opened InodeTable
  import opened DirectoryTable
  import opened MetadataTx
  import opened Fsck
  import opened Namespace
  import opened Volume
  import opened Rename
  import opened Ownership
  import opened Wal
  import opened FileOps

  // ------------------------------------------------------------------------ entries

  /** The source entry takes the destination's key, and the destination entry goes. */
  function Replaced(es: seq<DirEntry>, s: nat, d: nat): (r: seq<DirEntry>)
    requires s < |es| && d < |es|
  {
    var moved := es[s := DirEntry(es[d].parent, es[s].target, es[d].name)];
    moved[..d] + moved[d + 1..]
  }

  lemma ReplacedKeys(es: seq<DirEntry>, s: nat, d: nat)
    requires s < |es| && d < |es| && s != d && UniqueKeys(es)
    ensures UniqueKeys(Replaced(es, s, d))
  {
    var r := Replaced(es, s, d);
    var moved := es[s := DirEntry(es[d].parent, es[s].target, es[d].name)];
    forall i, j | 0 <= i < j < |r| ensures r[i].parent != r[j].parent || r[i].name != r[j].name {
      var i', j' := if i < d then i else i + 1, if j < d then j else j + 1;
      assert r[i] == moved[i'] && r[j] == moved[j'] && i' < j' && i' != d && j' != d;
      assert forall k: nat :: k < |es| && k != d ==> k == s || es[k].parent != es[d].parent || es[k].name != es[d].name;
    }
  }

  function EdgesBeside(es: seq<DirEntry>, s: nat, d: nat): Edges {
    set i | 0 <= i < |es| && i != s && i != d :: (es[i].parent, es[i].target)
  }

  lemma ReplacedEdges(es: seq<DirEntry>, s: nat, d: nat)
    requires s < |es| && d < |es| && s != d
    ensures EdgeSet(es) == EdgesBeside(es, s, d) + {(es[s].parent, es[s].target)} + {(es[d].parent, es[d].target)}
    ensures EdgeSet(Replaced(es, s, d)) == EdgesBeside(es, s, d) + {(es[d].parent, es[s].target)}
  {
    var r := Replaced(es, s, d);
    var at := (i: int) => if i < d then i else i - 1;
    assert r[at(s)] == DirEntry(es[d].parent, es[s].target, es[d].name);
    forall e | e in EdgesBeside(es, s, d) ensures e in EdgeSet(r) {
      var i :| 0 <= i < |es| && i != s && i != d && e == (es[i].parent, es[i].target);
      assert r[at(i)] == es[i];
    }
    forall e | e in EdgeSet(r) ensures e in EdgesBeside(es, s, d) + {(es[d].parent, es[s].target)} {
      var i :| 0 <= i < |r| && e == (r[i].parent, r[i].target);
      var i' := if i < d then i else i + 1;
      assert i' != d && (i' != s ==> r[i] == es[i']);
    }
  }

  // ------------------------------------------------------------------------ the graph

  /** Over the only link of a file: that file goes. */
  lemma OverOnlyLink(kinds: Kinds, f: Edges, op: u64, np: u64, src: u64, dst: u64)
    requires GraphOk(kinds, f + {(op, src)} + {(np, dst)}) && src != dst
    requires src in kinds && kinds[src].File? && dst in kinds && kinds[dst].File?
    requires forall q :: (q, dst) !in f
    ensures GraphOk(kinds - {dst}, f + {(np, src)})
  {
    hide Reach, Acyclic;
    var g := f + {(op, src)} + {(np, dst)};
    assert (np, dst) in g;
    DropLeaf(kinds, g, dst);
    assert Without(g, dst) == f + {(op, src)};
    MoveEdge(kinds - {dst}, f, op, np, src);
  }

  /** Over one of several links of a file: that file stays, by its other links. */
  lemma OverOneLink(kinds: Kinds, f: Edges, op: u64, np: u64, src: u64, dst: u64, q: u64)
    requires GraphOk(kinds, f + {(op, src)} + {(np, dst)}) && src != dst && (q, dst) in f
    requires src in kinds && kinds[src].File? && dst in kinds && kinds[dst].File?
    ensures GraphOk(kinds, f + {(np, src)})
  {
    hide Reach, Acyclic;
    assert (np, dst) in f + {(op, src)} + {(np, dst)};
    DropLink(kinds, f + {(op, src)}, np, dst, q);
    MoveEdge(kinds, f, op, np, src);
  }

  // ------------------------------------------------------------------------ the transition

  function CountTarget(es: seq<DirEntry>, x: u64): (n: nat) {
    if es == [] then 0 else CountTarget(es[..|es| - 1], x) + if es[|es| - 1].target == x then 1 else 0
  }

  lemma {:induction false} CountTargetOne(es: seq<DirEntry>, x: u64, d: nat)
    requires d < |es| && es[d].target == x
    ensures CountTarget(es, x) >= 1
    ensures CountTarget(es, x) == 1 <==> forall j :: 0 <= j < |es| && es[j].target == x ==> j == d
  {
    var n := |es| - 1;
    if d == n {
      CountTargetNone(es[..n], x);
    } else {
      CountTargetOne(es[..n], x, d);
      assert forall j :: 0 <= j < n ==> es[..n][j] == es[j];
    }
  }

  lemma {:induction false} CountTargetNone(es: seq<DirEntry>, x: u64)
    ensures CountTarget(es, x) == 0 <==> forall j :: 0 <= j < |es| ==> es[j].target != x
  {
    if es != [] {
      CountTargetNone(es[..|es| - 1], x);
    }
  }

  function Retain(inodes: seq<Inode>, x: u64): (r: seq<Inode>) {
    if inodes == [] then []
    else
      var n := |inodes| - 1;
      Retain(inodes[..n], x) + if inodes[n].id == x then [] else [inodes[n]]
  }

  lemma {:induction false} Retained(inodes: seq<Inode>, x: u64)
    ensures forall i :: i in Retain(inodes, x) <==> i in inodes && i.id != x
    ensures DistinctIds(inodes) ==> DistinctIds(Retain(inodes, x))
  {
    if inodes != [] {
      var n := |inodes| - 1;
      Retained(inodes[..n], x);
      assert inodes == inodes[..n] + [inodes[n]];
    }
  }

  /** What an overwriting rename makes of the metadata, or the refusal.  `None` means nothing to do. */
  function Overwritten(m: Metadata, oldParent: u64, oldName: seq<byte>, newParent: u64, newName: seq<byte>,
                       linked: bool)
    : (r: Result<Option<Metadata>>)
  {
    var source, dest := FindEntry(m.entries, oldParent, oldName), FindEntry(m.entries, newParent, newName);
    if !IsKind(m.inodes, oldParent, Directory) || !IsKind(m.inodes, newParent, Directory) then Err(InvalidInput)
    else if source.None? || dest.None? then Err(InvalidInput)
    else if source.value == dest.value then Ok(None)
    else
      var src, dst := m.entries[source.value].target, m.entries[dest.value].target;
      var links := CountTarget(m.entries, dst);
      if src == dst || !IsKind(m.inodes, src, File) || !IsKind(m.inodes, dst, File) then Err(InvalidInput)
      else if linked then
        if links < 2 then Err(InvalidInput)
        else Ok(Some(m.(entries := Replaced(m.entries, source.value, dest.value))))
      else if links != 1 then Err(InvalidInput)
      else
        Ok(Some(Metadata(Release(m.owned, m.inodes[FindInode(m.inodes, dst).value].blocks), Retain(m.inodes, dst),
                         Replaced(m.entries, source.value, dest.value))))
  }

  lemma FoundKind(inodes: seq<Inode>, x: u64, kind: InodeKind)
    requires DistinctIds(inodes) && IsKind(inodes, x, kind)
    ensures x in KindMap(inodes) && KindMap(inodes)[x] == kind
  {
    hide KindMap, FindInode;
    KindIsFound(inodes, x);
  }

  /** An accepted overwrite of either sort keeps the volume consistent. */
  lemma OverwriteKeepsFsck(sb: Superblock, m: Metadata, oldParent: u64, oldName: seq<byte>, newParent: u64,
                           newName: seq<byte>, linked: bool)
    requires FsckOk(sb, m)
    requires Overwritten(m, oldParent, oldName, newParent, newName, linked).Ok?
    requires Overwritten(m, oldParent, oldName, newParent, newName, linked).value.Some?
    ensures FsckOk(sb, Overwritten(m, oldParent, oldName, newParent, newName, linked).value.value)
  {
    hide KindMap, FindInode, FindEntry, NamespaceOk, OwnershipOk, Replaced, Retain, CountTarget, EdgeSet, EdgesBeside,
      IsKind, Release;
    var s, d := FindEntry(m.entries, oldParent, oldName).value, FindEntry(m.entries, newParent, newName).value;
    var es, kinds, src, dst := m.entries, KindMap(m.inodes), m.entries[s].target, m.entries[d].target;
    FoundKind(m.inodes, src, File);
    FoundKind(m.inodes, dst, File);
    ReplacedKeys(es, s, d);
    ReplacedEdges(es, s, d);
    LegalIsGraph(kinds, es);
    CountTargetOne(es, dst, d);
    if linked {
      OneLinkLeft(kinds, es, s, d);
    } else {
      OnlyLinkGone(sb, m, s, d);
    }
  }

  lemma OneLinkLeft(kinds: Kinds, es: seq<DirEntry>, s: nat, d: nat)
    requires s < |es| && d < |es| && s != d && NamespaceOk(kinds, es) && es[s].target != es[d].target
    requires es[s].target in kinds && kinds[es[s].target].File? && es[d].target in kinds && kinds[es[d].target].File?
    requires exists j :: 0 <= j < |es| && es[j].target == es[d].target && j != d
    ensures NamespaceOk(kinds, Replaced(es, s, d))
  {
    hide NamespaceOk, Replaced, GraphOk;
    var j :| 0 <= j < |es| && es[j].target == es[d].target && j != d;
    assert (es[j].parent, es[j].target) in EdgesBeside(es, s, d);
    ReplacedEdges(es, s, d);
    LegalIsGraph(kinds, es);
    OverOneLink(kinds, EdgesBeside(es, s, d), es[s].parent, es[d].parent, es[s].target, es[d].target, es[j].parent);
    LegalIsGraph(kinds, Replaced(es, s, d));
  }

  lemma OnlyLinkGone(sb: Superblock, m: Metadata, s: nat, d: nat)
    requires FsckOk(sb, m) && s < |m.entries| && d < |m.entries| && s != d && m.entries[s].target != m.entries[d].target
    requires IsKind(m.inodes, m.entries[s].target, File) && IsKind(m.inodes, m.entries[d].target, File)
    requires forall j :: 0 <= j < |m.entries| && m.entries[j].target == m.entries[d].target ==> j == d
    ensures var dst := m.entries[d].target;
            FsckOk(sb, Metadata(Release(m.owned, m.inodes[FindInode(m.inodes, dst).value].blocks),
                Retain(m.inodes, dst), Replaced(m.entries, s, d)))
  {
    hide KindMap, FindInode, NamespaceOk, OwnershipOk, Replaced, GraphOk, EdgeSet, IsKind, FilesOk, Retain;
    var es, kinds, src, dst := m.entries, KindMap(m.inodes), m.entries[s].target, m.entries[d].target;
    var gone := GoneInode(m.inodes, dst);
    FoundKind(m.inodes, src, File);
    FoundKind(m.inodes, dst, File);
    ReplacedKeys(es, s, d);
    ReplacedEdges(es, s, d);
    LegalIsGraph(kinds, es);
    OverOnlyLink(kinds, EdgesBeside(es, s, d), es[s].parent, es[d].parent, src, dst);
    KindsWithout(m.inodes, Retain(m.inodes, dst), gone);
    LegalIsGraph(kinds - {dst}, Replaced(es, s, d));
    OwnershipByFile(sb, m.owned, m.inodes);
    FilesSubset(sb, m.owned, m.inodes, Retain(m.inodes, dst), gone);
    OwnershipByFile(sb, Release(m.owned, gone.blocks), Retain(m.inodes, dst));
  }

  /** With unique ids, dropping an id drops one inode. */
  lemma GoneInode(inodes: seq<Inode>, x: u64) returns (gone: Inode)
    requires DistinctIds(inodes) && (exists kind :: IsKind(inodes, x, kind))
    ensures FindInode(inodes, x).Some? && gone == inodes[FindInode(inodes, x).value] && gone in inodes && gone.id == x
    ensures DistinctIds(Retain(inodes, x)) && forall i :: i in Retain(inodes, x) <==> i in inodes && i != gone
  {
    hide FindInode, Retain;
    Retained(inodes, x);
    var k := FindInode(inodes, x).value;
    gone := inodes[k];
    assert forall i :: i in inodes && i.id == x ==> i == gone;
  }

  // ------------------------------------------------------------------------ on the device

  /** What an overwrite of entry `d` by entry `s` is meant to leave, in either form. */
  function OverwriteResult(m: Metadata, s: nat, d: nat, linked: bool): Metadata
    requires s < |m.entries| && d < |m.entries| && IsKind(m.inodes, m.entries[d].target, File)
  {
    var es, dst := Replaced(m.entries, s, d), m.entries[d].target;
    if linked then m.(entries := es)
    else Metadata(Release(m.owned, m.inodes[FindInode(m.inodes, dst).value].blocks), Retain(m.inodes, dst), es)
  }

  lemma FoundAt(es: seq<DirEntry>, k: nat)
    requires UniqueKeys(es) && k < |es|
    ensures FindEntry(es, es[k].parent, es[k].name) == Some(k)
  {
    hide FindEntry;
    var r := FindEntry(es, es[k].parent, es[k].name);
    assert r.Some?;
    assert r.value == k;
  }

  /** A file whose last link is taken while it stays is out of reach. */
  lemma UnlinkedIsLost(kinds: Kinds, es: seq<DirEntry>, s: nat, d: nat)
    requires s < |es| && d < |es| && s != d && NamespaceOk(kinds, es) && es[s].target != es[d].target
    requires es[d].target in kinds && kinds[es[d].target].File?
    requires forall j :: 0 <= j < |es| && es[j].target == es[d].target ==> j == d
    ensures !NamespaceOk(kinds, Replaced(es, s, d))
  {
    hide Reach, Acyclic, Replaced;
    var dst, g := es[d].target, EdgeSet(Replaced(es, s, d));
    ReplacedEdges(es, s, d);
    assert forall p :: (p, dst) !in g;
    var others := kinds.Keys - {dst};
    assert Closed(g, others) by {
      forall a, b | a in others && (a, b) in g ensures b in others {
        assert b != dst && (b == es[s].target || (a, b) in EdgeSet(es));
      }
    }
    if Reach(g, ROOT, dst) {
      ReachStaysInside(g, others, ROOT, dst);
    }
  }

  /** A file that goes while another entry still names it leaves that entry dangling. */
  lemma LinkDangles(kinds: Kinds, es: seq<DirEntry>, s: nat, d: nat, j: nat)
    requires s < |es| && d < |es| && j < |es| && s != d && j != d && es[j].target == es[d].target != es[s].target
    requires es[d].target !in kinds
    ensures !NamespaceOk(kinds, Replaced(es, s, d))
  {
    hide Reach, Acyclic;
    var r, at := Replaced(es, s, d), if j < d then j else j - 1;
    assert j != s && r[at] == es[j];
  }

  /** On a consistent volume, overwriting the entry of one file by that of another is accepted exactly
      when the outcome is consistent: for the releasing form when the overwritten link is the only
      one, for the linked form when it is not. */
  lemma OverwriteIsExact(sb: Superblock, m: Metadata, s: nat, d: nat, linked: bool)
    requires FsckOk(sb, m) && s < |m.entries| && d < |m.entries| && s != d
    requires m.entries[s].target != m.entries[d].target
    requires IsKind(m.inodes, m.entries[s].target, File) && IsKind(m.inodes, m.entries[d].target, File)
    ensures var src, dst := m.entries[s], m.entries[d];
            var plan := Overwritten(m, src.parent, src.name, dst.parent, dst.name, linked);
            && (plan.Ok? <==> FsckOk(sb, OverwriteResult(m, s, d, linked)))
            && (plan.Ok? ==> plan == Ok(Some(OverwriteResult(m, s, d, linked))))
            && (plan.Ok? <==> if linked then CountTarget(m.entries, dst.target) >= 2
                              else CountTarget(m.entries, dst.target) == 1)
  {
    hide KindMap, FindInode, FindEntry, NamespaceOk, OwnershipOk, Replaced, Retain, CountTarget, IsKind, Release;
    var es, src, dst := m.entries, m.entries[s], m.entries[d];
    FoundAt(es, s);
    FoundAt(es, d);
    ParentIsDirectory(sb, m, s);
    ParentIsDirectory(sb, m, d);
    CountTargetOne(es, dst.target, d);
    var plan := Overwritten(m, src.parent, src.name, dst.parent, dst.name, linked);
    if plan.Ok? {
      OverwriteKeepsFsck(sb, m, src.parent, src.name, dst.parent, dst.name, linked);
    } else {
      RefusedIsBroken(sb, m, s, d, linked);
    }
  }

  /** With the wrong number of links the outcome is not consistent. */
  lemma RefusedIsBroken(sb: Superblock, m: Metadata, s: nat, d: nat, linked: bool)
    requires FsckOk(sb, m) && s < |m.entries| && d < |m.entries| && s != d
    requires m.entries[s].target != m.entries[d].target && IsKind(m.inodes, m.entries[d].target, File)
    requires linked <==> forall j :: 0 <= j < |m.entries| && m.entries[j].target == m.entries[d].target ==> j == d
    ensures !FsckOk(sb, OverwriteResult(m, s, d, linked))
  {
    hide KindMap, FindInode, NamespaceOk, OwnershipOk, Replaced, Retain, IsKind, Release;
    var es, dst := m.entries, m.entries[d].target;
    FoundKind(m.inodes, dst, File);
    if linked {
      UnlinkedIsLost(KindMap(m.inodes), es, s, d);
    } else {
      var j :| 0 <= j < |es| && es[j].target == dst && j != d;
      var gone := GoneInode(m.inodes, dst);
      KindsWithout(m.inodes, Retain(m.inodes, dst), gone);
      LinkDangles(KindMap(Retain(m.inodes, dst)), es, s, d, j);
    }
  }

  /** Two files, one of which takes the other's entry.  In the linked form the other file has one more entry
      somewhere, and otherwise it has none. */
  ghost predicate CanOverwrite(m: Metadata, s: nat, d: nat, linked: bool) {
    && s < |m.entries| && d < |m.entries| && m.entries[s].target != m.entries[d].target
    && (exists i: nat :: FileAt(m, i, m.entries[s].target)) && (exists i: nat :: FileAt(m, i, m.entries[d].target))
    && (linked <==> exists j :: 0 <= j < |m.entries| && j != d && m.entries[j].target == m.entries[d].target)
  }

  /** The entries after: those two replaced by one that joins the source's target to the destination's key.  The
      file that lost its only entry is gone, with its blocks, and no other. */
  ghost predicate IsOverwrite(m: Metadata, m': Metadata, s: nat, d: nat, linked: bool)
    requires s < |m.entries| && d < |m.entries|
  {
    var src, dst := m.entries[s], m.entries[d];
    && UniqueKeys(m'.entries)
    && (forall e :: e in m'.entries <==>
          (e in m.entries && e != src && e != dst) || e == DirEntry(dst.parent, src.target, dst.name))
    && (linked ==> m'.inodes == m.inodes && m'.owned == m.owned)
    && (!linked ==>
          && DistinctIds(m'.inodes) && (forall i :: i in m'.inodes <==> i in m.inodes && i.id != dst.target)
          && forall i :: i in m.inodes && i.id == dst.target ==> m'.owned == Release(m.owned, i.blocks))
  }

  /** What a request to rename over an existing name comes to. */
  ghost predicate Overwrites(m: Metadata, m': Metadata, oldParent: u64, oldName: seq<byte>, newParent: u64,
                             newName: seq<byte>, linked: bool) {
    exists s: nat, d: nat ::
      && KeyAt(m.entries, s, oldParent, oldName) && KeyAt(m.entries, d, newParent, newName)
      && if s == d then m' == m else CanOverwrite(m, s, d, linked) && IsOverwrite(m, m', s, d, linked)
  }

  lemma ReplacedAt(es: seq<DirEntry>, s: nat, d: nat, i: nat)
    requires s < |es| && d < |es| && i < |es| && i != d
    ensures |Replaced(es, s, d)| == |es| - 1
    ensures Replaced(es, s, d)[if i < d then i else i - 1] ==
            if i == s then DirEntry(es[d].parent, es[s].target, es[d].name) else es[i]
  {
  }

  lemma ReplacedMembers(es: seq<DirEntry>, s: nat, d: nat)
    requires s < |es| && d < |es| && s != d && UniqueKeys(es)
    ensures forall e :: e in Replaced(es, s, d) <==>
              (e in es && e != es[s] && e != es[d]) || e == DirEntry(es[d].parent, es[s].target, es[d].name)
  {
    hide Replaced;
    var r, moved := Replaced(es, s, d), DirEntry(es[d].parent, es[s].target, es[d].name);
    ReplacedAt(es, s, d, s);
    forall e | e in es && e != es[s] && e != es[d] ensures e in r {
      var i :| 0 <= i < |es| && es[i] == e;
      ReplacedAt(es, s, d, i);
    }
    forall e | e in r && e != moved ensures e in es && e != es[s] && e != es[d] {
      var i :| 0 <= i < |r| && r[i] == e;
      ReplacedAt(es, s, d, if i < d then i else i + 1);
    }
  }

  /** On a consistent volume every request has an exact answer: it is accepted exactly when both names exist and
      are the same entry or name two files with the right number of links, and then does just that. */
  lemma OverwriteDecides(sb: Superblock, m: Metadata, oldParent: u64, oldName: seq<byte>, newParent: u64,
                         newName: seq<byte>, linked: bool)
    requires FsckOk(sb, m)
    ensures var plan := OverwritePlan(m, oldParent, oldName, newParent, newName, linked);
            && (plan.Ok? <==> exists s: nat, d: nat ::
                  && KeyAt(m.entries, s, oldParent, oldName) && KeyAt(m.entries, d, newParent, newName)
                  && (s == d || CanOverwrite(m, s, d, linked)))
            && (plan.Ok? ==> Overwrites(m, plan.value, oldParent, oldName, newParent, newName, linked))
  {
    hide KindMap, FindInode, FindEntry, NamespaceOk, OwnershipOk, KeyAt, IsKind, CanOverwrite, IsOverwrite, Overwritten;
    var source, dest := FindEntry(m.entries, oldParent, oldName), FindEntry(m.entries, newParent, newName);
    KeyIsFound(m.entries, oldParent, oldName);
    KeyIsFound(m.entries, newParent, newName);
    OverwriteStart(m, oldParent, oldName, newParent, newName, linked);
    if source.Some? && dest.Some? {
      var s, d := source.value, dest.value;
      assert KeyAt(m.entries, s, oldParent, oldName) && KeyAt(m.entries, d, newParent, newName);
      ParentIsDirectory(sb, m, s);
      ParentIsDirectory(sb, m, d);
      if s != d {
        OverwriteFound(sb, m, s, d, linked);
      }
    }
  }

  lemma OverwriteStart(m: Metadata, oldParent: u64, oldName: seq<byte>, newParent: u64, newName: seq<byte>,
                       linked: bool)
    ensures var source, dest := FindEntry(m.entries, oldParent, oldName), FindEntry(m.entries, newParent, newName);
            var plan := Overwritten(m, oldParent, oldName, newParent, newName, linked);
            && (source.None? || dest.None? ==> plan.Err?)
            && (source.Some? && source == dest && IsKind(m.inodes, oldParent, Directory) &&
                IsKind(m.inodes, newParent, Directory) ==>
                  plan == Ok(None))
  {
    hide FindEntry, IsKind;
  }

  lemma OverwriteFound(sb: Superblock, m: Metadata, s: nat, d: nat, linked: bool)
    requires FsckOk(sb, m) && s < |m.entries| && d < |m.entries| && s != d
    ensures var src, dst := m.entries[s], m.entries[d];
            var plan := Overwritten(m, src.parent, src.name, dst.parent, dst.name, linked);
            && (plan.Ok? <==> CanOverwrite(m, s, d, linked))
            && (plan.Ok? ==> plan.value.Some? && IsOverwrite(m, plan.value.value, s, d, linked))
  {
    hide KindMap, FindInode, FindEntry, NamespaceOk, OwnershipOk, Replaced, Retain, CountTarget, IsKind, Release;
    var src, dst := m.entries[s], m.entries[d];
    FoundAt(m.entries, s);
    FoundAt(m.entries, d);
    ParentIsDirectory(sb, m, s);
    ParentIsDirectory(sb, m, d);
    CountTargetOne(m.entries, dst.target, d);
    FileIsFound(m, src.target);
    FileIsFound(m, dst.target);
    if IsKind(m.inodes, dst.target, File) {
      ReplacedKeys(m.entries, s, d);
      ReplacedMembers(m.entries, s, d);
      var gone := GoneInode(m.inodes, dst.target);
    }
  }

  /** The desired entry list, built in one pass. */
  method ReplaceEntries(es: seq<DirEntry>, s: nat, d: nat) returns (out: seq<DirEntry>)
    requires s < |es| && d < |es| && s != d
    ensures out == Replaced(es, s, d)
  {
    var replacement := DirEntry(es[d].parent, es[s].target, es[d].name);
    ghost var moved := es[s := replacement];
    out := [];
    var i := 0;
    while i < |es|
      invariant 0 <= i <= |es|
      invariant out == if i <= d then moved[..i] else moved[..d] + moved[d + 1..i]
    {
      if i != d {
        out := out + [if i == s then replacement else es[i]];
      }
      i := i + 1;
    }
  }

  /** Recovery and checkpoint of a settled volume leave what it stands for. */
  method SettleJournal(device: BlockDevice, crc: Checksum, sb: Superblock) returns (r: Result<RecoveryReport>)
    requires device.Valid()
    modifies device
    ensures device.Valid() && device.BlockCount() == old(device.BlockCount())
    ensures Ready(crc, sb, old(device.disk)) ==>
              && Settles(crc, sb, old(device.disk), device.disk, Strip(sb, old(device.disk).durable), r.Ok?)
              && (!device.faulty ==> r.Ok?)
  {
    hide Run, Stands, Load, RecoveryOps, Strip, Abs;
    ghost var d0, base := device.disk, device.log;
    r := RecoverJournalAndCheckpoint(device, crc, sb);
    if Ready(crc, sb, d0) {
      RecoverySettles(crc, sb, device.boot, base, device.log, r.Ok?);
    }
  }

  lemma RecoverySettles(crc: Checksum, sb: Superblock, boot: Disk, base: seq<Op>, log: seq<Op>, ok: bool)
    requires Sane(boot) && OpsFit(base, |boot.durable|) && OpsFit(log, |boot.durable|)
    requires Ready(crc, sb, Run(boot, base))
    requires var es := Load(crc, sb, Run(boot, base).durable).value;
             Partway(base, log, RecoveryOps(sb, es, true)) && (ok ==> log == base + RecoveryOps(sb, es, true))
    ensures Settles(crc, sb, Run(boot, base), Run(boot, log), Strip(sb, Run(boot, base).durable), ok)
  {
    hide Run, Stands, Load, RecoveryOps, Strip, Abs;
    var d0 := Run(boot, base);
    var es := Load(crc, sb, d0.durable).value;
    var ops := RecoveryOps(sb, es, true);
    RecoveryStands(crc, sb, d0.durable, es, true, 0);
    var k := PartwayRuns(boot, base, log, ops);
    RecoveryStands(crc, sb, d0.durable, es, true, k);
    assert d0 == Disk(d0.durable, []);
    if ok {
      assert ops[..k] == ops;
    }
  }

  lemma RecoversSameData(crc: Checksum, sb: Superblock, d: Disk, m: Metadata, g: seq<Block>, g': seq<Block>)
    requires Mounted(sb, |d.durable|) && Recovers(crc, sb, d, m, g) && SameData(sb, g, g')
    ensures Recovers(crc, sb, d, m, g')
  {
    hide Stands, LoadMetadata;
    var h :| Stands(crc, sb, d, h) && Holds(crc, sb, h, m, g);
    assert Holds(crc, sb, h, m, g');
  }

  /** The directory table alone, then a checkpoint. */
  method StoreLinked(device: BlockDevice, crc: Checksum, sb: Superblock, es: seq<DirEntry>)
    returns (r: Result<RecoveryReport>)
    requires device.Valid() && ValidGeometry(sb)
    modifies device
    ensures device.Valid() && device.BlockCount() == old(device.BlockCount())
    ensures Ready(crc, sb, old(device.disk)) && LoadMetadata(crc, sb, old(device.disk).durable).Ok? ==>
              var m := LoadMetadata(crc, sb, old(device.disk).durable).value;
              Changes(crc, sb, device.disk, m, old(device.disk).durable, m.(entries := es), old(device.disk).durable,
                  r.Ok?)
    ensures Ready(crc, sb, old(device.disk)) && !device.faulty && EntriesFit(crc, sb, old(device.disk).durable, es) ==>
              r.Ok?
  {
    hide Run, Encodable, EntryImage, LoadMetadata, Quiescent, Recovers, Settles, Overlay, FitsJournal, Diff, Strip;
    ghost var d0 := device.disk;
    ghost var known := Ready(crc, sb, d0) && LoadMetadata(crc, sb, d0.durable).Ok?;
    ghost var m := if known then LoadMetadata(crc, sb, d0.durable).value else Metadata([], [], []);
    if known {
      Unchanged(crc, sb, d0, m, m.(entries := es), d0.durable);
    }
    r := StoreDirectoryTable(device, crc, sb, es);
    ghost var d1 := device.disk;
    if known && Encodable(DirectoryFormat(crc), sb.directoryBlocks * BLOCK_SIZE, es) {
      MovedOver(crc, sb, d0, d1, m, es, Ok(es), r.Ok?);
    }
    if r.Err? {
      return;
    }
    if Ready(crc, sb, d0) {
      AtomicReady(crc, sb, d0, d1, sb.directoryStart, EntryImage(crc, sb, es));
    }
    var settled := SettleJournal(device, crc, sb);
    if known {
      HoldsStripped(crc, sb, d1.durable, m.(entries := es), d1.durable);
      SettledChanges(crc, sb, d1, device.disk, Strip(sb, d1.durable), settled.Ok?, m.(entries := es),
          m.(entries := es), d1.durable);
      RecoversSameData(crc, sb, device.disk, m.(entries := es), d1.durable, d0.durable);
    }
    if settled.Err? {
      return Err(settled.kind);
    }
  }

  lemma AtomicReady(crc: Checksum, sb: Superblock, d0: Disk, d: Disk, lo: nat, desired: seq<Block>)
    requires Ready(crc, sb, d0) && lo + |desired| <= |d0.durable| == |d.durable|
    requires Atomic(crc, sb, d0, d, lo, desired, true)
    ensures Ready(crc, sb, d)
  {
  }

  /** The searches and checks of an overwriting rename: a refusal, nothing to do, or the two entries. */
  method DecideOverwrite(owned: seq<bool>, inodes: seq<Inode>, es: seq<DirEntry>, oldParent: u64, oldName: seq<byte>,
                         newParent: u64, newName: seq<byte>, linked: bool)
    returns (r: Result<Option<(nat, nat)>>)
    ensures var plan := Overwritten(Metadata(owned, inodes, es), oldParent, oldName, newParent, newName, linked);
            && (r.Err? <==> plan.Err?) && (r == Ok(None) <==> plan == Ok(None))
            && (r.Ok? && r.value.Some? ==>
                  var (s, d) := r.value.value;
                  && s < |es| && d < |es| && s != d && IsKind(inodes, es[d].target, File)
                  && plan == Ok(Some(if linked then Metadata(owned, inodes, Replaced(es, s, d))
                                     else Metadata(Release(owned, inodes[FindInode(inodes, es[d].target).value].blocks),
                                                   Retain(inodes, es[d].target), Replaced(es, s, d)))))
  {
    hide FindInode, FindEntry, Release, Replaced, Retain, CountTarget;
    if !IsKind(inodes, oldParent, Directory) || !IsKind(inodes, newParent, Directory) {
      return Err(InvalidInput);
    }
    var source, dest := FindEntry(es, oldParent, oldName), FindEntry(es, newParent, newName);
    if source.None? || dest.None? {
      return Err(InvalidInput);
    }
    if source.value == dest.value {
      return Ok(None);
    }
    var src, dst := es[source.value].target, es[dest.value].target;
    if src == dst || !IsKind(inodes, src, File) || !IsKind(inodes, dst, File) {
      return Err(InvalidInput);
    }
    var links := CountTarget(es, dst);
    if if linked then links < 2 else links != 1 {
      return Err(InvalidInput);
    }
    return Ok(Some((source.value, dest.value)));
  }

  /** What a successful overwriting rename has made of a consistent volume, read back from the device. */
  ghost predicate OverwriteLeft(crc: Checksum, sb: Superblock, m: Metadata, g: seq<Block>, h: seq<Block>,
                                oldParent: u64, oldName: seq<byte>, newParent: u64, newName: seq<byte>, linked: bool) {
    exists m' :: Overwrites(m, m', oldParent, oldName, newParent, newName, linked) && Holds(crc, sb, h, m', g)
  }

  lemma OverwriteLeaves(crc: Checksum, sb: Superblock, d: Disk, m: Metadata, g: seq<Block>, oldParent: u64,
                        oldName: seq<byte>, newParent: u64, newName: seq<byte>, linked: bool)
    requires Mounted(sb, |d.durable|) && FsckOk(sb, m)
    requires Planned(crc, sb, d, m, g, OverwritePlan(m, oldParent, oldName, newParent, newName, linked), true)
    ensures OverwriteLeft(crc, sb, m, g, d.durable, oldParent, oldName, newParent, newName, linked)
  {
    hide FsckOk, Overwrites, OverwritePlan, Recovers, Quiescent, Holds, CanOverwrite;
    OverwriteDecides(sb, m, oldParent, oldName, newParent, newName, linked);
  }

  /** `rename_overwrite_file_impl`: refuses an inconsistent volume outright, and otherwise moves it
      atomically to the planned metadata or leaves it. */
  method RenameOverwrite(device: BlockDevice, crc: Checksum, sb: Superblock, oldParent: u64, oldName: seq<byte>,
                         newParent: u64, newName: seq<byte>, linked: bool)
    returns (r: Result<RecoveryReport>)
    requires device.Valid() && ValidGeometry(sb)
    modifies device
    ensures device.Valid() && device.BlockCount() == old(device.BlockCount())
    ensures Ready(crc, sb, old(device.disk)) && LoadMetadata(crc, sb, old(device.disk).durable).Ok? ==>
              var m := LoadMetadata(crc, sb, old(device.disk).durable).value;
              var plan := OverwritePlan(m, oldParent, oldName, newParent, newName, linked);
              && (r.Ok? ==> Consistent(crc, old(device.disk).durable))
              && (!Consistent(crc, old(device.disk).durable) ==> device.disk == old(device.disk))
              && Planned(crc, sb, device.disk, m, old(device.disk).durable, plan, r.Ok?)
              && (Consistent(crc, old(device.disk).durable) && OnDisk(old(device.disk).durable) == Ok(sb) ==>
                    && FsckOk(sb, m)
                    && (plan.Ok? && !device.faulty &&
                        OverwriteFits(crc, sb, old(device.disk).durable, plan.value, linked) ==>
                          r.Ok?))
              && (r.Ok? && OnDisk(old(device.disk).durable) == Ok(sb) ==>
                    OverwriteLeft(crc, sb, m, old(device.disk).durable, device.disk.durable, oldParent, oldName,
                                  newParent, newName, linked))
  {
    hide Run, LoadMetadata, StoredInodes, StoredEntries, StoredOwned, FsckOk, Quiescent, Changes, Recovers, Settles,
      Consistent, OnDisk, Report,
      FindInode, MetadataFits, EntriesFit, Release, Replaced, Retain, CountTrue, Overwritten, OverwriteLeft;
    ghost var d0 := device.disk;
    if Ready(crc, sb, d0) {
      ConsistentIs(crc, sb, d0.durable);
    }
    var checked := CheckDevice(device, crc);
    if checked.Err? {
      if Ready(crc, sb, d0) && LoadMetadata(crc, sb, d0.durable).Ok? {
        var m := LoadMetadata(crc, sb, d0.durable).value;
        NothingPlanned(crc, sb, d0, m, OverwritePlan(m, oldParent, oldName, newParent, newName, linked));
      }
      return Err(checked.kind);
    }
    if device.BlockCount() != sb.totalBlocks {
      return Err(InvalidInput);
    }
    LoadedParts(crc, sb, d0.durable);
    ghost var known := Ready(crc, sb, d0) && LoadMetadata(crc, sb, d0.durable).Ok?;
    ghost var m := if known then LoadMetadata(crc, sb, d0.durable).value else Metadata([], [], []);
    ghost var plan := OverwritePlan(m, oldParent, oldName, newParent, newName, linked);
    if known {
      NothingPlanned(crc, sb, d0, m, plan);
      Unchanged(crc, sb, d0, m, m, d0.durable);
    }
    var owned, a := LoadAllocator(device, crc, sb);
    if owned.Err? {
      return Err(owned.kind);
    }
    var inodes := LoadInodes(device, crc, sb);
    if inodes.Err? {
      return Err(inodes.kind);
    }
    var entries := LoadEntries(device, crc, sb);
    if entries.Err? {
      return Err(entries.kind);
    }
    var decision :=
        DecideOverwrite(owned.value, inodes.value, entries.value, oldParent, oldName, newParent, newName, linked);
    if decision.Err? {
      return Err(decision.kind);
    }
    if decision.value.None? {
      if known && OnDisk(d0.durable) == Ok(sb) {
        OverwriteLeaves(crc, sb, device.disk, m, d0.durable, oldParent, oldName, newParent, newName, linked);
      }
      return Ok(RecoveryReport(0, 0));
    }
    var (source, dest) := decision.value.value;
    var dst := entries.value[dest].target;
    // The replacement entry joins an existing target to an existing key, so it always encodes.
    var desired := ReplaceEntries(entries.value, source, dest);
    if linked {
      r := StoreLinked(device, crc, sb, desired);
      if known && OnDisk(d0.durable) == Ok(sb) && r.Ok? {
        OverwriteLeaves(crc, sb, device.disk, m, d0.durable, oldParent, oldName, newParent, newName, linked);
      }
      return;
    }
    var blocks := inodes.value[FindInode(inodes.value, dst).value].blocks;
    if known && OnDisk(d0.durable) == Ok(sb) {
      FileFreeable(sb, m, FindInode(inodes.value, dst).value);
    }
    var freed := FreeAll(a, blocks);
    if !freed {
      return Err(InvalidInput);
    }
    r := StoreMetadata(device, crc, sb, Metadata(a.owned, Retain(inodes.value, dst), desired));
    if known && OnDisk(d0.durable) == Ok(sb) && r.Ok? {
      OverwriteLeaves(crc, sb, device.disk, m, d0.durable, oldParent, oldName, newParent, newName, linked);
    }
  }

  lemma ConsistentIs(crc: Checksum, sb: Superblock, blocks: seq<Block>)
    requires ValidGeometry(sb) && |blocks| == sb.totalBlocks
    ensures Consistent(crc, blocks) && OnDisk(blocks) == Ok(sb) ==>
              LoadMetadata(crc, sb, blocks).Ok? && FsckOk(sb, LoadMetadata(crc, sb, blocks).value)
  {
  }

  lemma FileFreeable(sb: Superblock, m: Metadata, k: nat)
    requires FsckOk(sb, m) && k < |m.inodes|
    ensures Freeable(ReservedBlocks(sb), m.owned, m.inodes[k].blocks)
  {
    OwnershipByFile(sb, m.owned, m.inodes);
    TailFreeable(sb, m.owned, m.inodes[k].blocks, 0);
    assert m.inodes[k].blocks[0..] == m.inodes[k].blocks;
  }

  function OverwritePlan(m: Metadata, oldParent: u64, oldName: seq<byte>, newParent: u64, newName: seq<byte>,
                         linked: bool): Result<Metadata> {
    match Overwritten(m, oldParent, oldName, newParent, newName, linked)
    case Err(kind) => Err(kind)
    case Ok(None) => Ok(m)
    case Ok(Some(m')) => Ok(m')
  }

  predicate OverwriteFits(crc: Checksum, sb: Superblock, blocks: seq<Block>, m': Metadata, linked: bool)
    requires Mounted(sb, |blocks|)
  {
    if linked then EntriesFit(crc, sb, blocks, m'.entries) else MetadataFits(crc, sb, blocks, m')
  }
}
