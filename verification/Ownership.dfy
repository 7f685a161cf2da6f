/** What file growth, truncation, unlink and overwriting rename do to metadata, and why each keeps a
    volume consistent. */
module Ownership {
  import opened Bytes
  import opened Blocks
  import opened Sequences
  import opened Graph
  import opened Format
  import opened Allocation
  import opened InodeTable
  import opened MetadataTx
  import opened Fsck
  import opened Namespace
  import opened Volume
  import opened Rename

  // ------------------------------------------------------------------------ ownership by file

  ghost predicate BlocksOk(sb: Superblock, owned: seq<bool>, blocks: seq<u64>) {
    NoRepeats(blocks) && forall x :: x in blocks ==> Allocated(sb, owned, x)
  }

  ghost predicate Disjoint(a: Inode, b: Inode) {
    forall x :: x in a.blocks ==> x !in b.blocks
  }

  ghost predicate FilesOk(sb: Superblock, owned: seq<bool>, inodes: seq<Inode>) {
    && (forall i :: 0 <= i < |inodes| ==> BlocksOk(sb, owned, inodes[i].blocks))
    && (forall i, j :: 0 <= i < |inodes| && 0 <= j < |inodes| && i != j ==> Disjoint(inodes[i], inodes[j]))
  }

  /** The audit's condition, file by file. */
  lemma OwnershipByFile(sb: Superblock, owned: seq<bool>, inodes: seq<Inode>)
    ensures OwnershipOk(sb, owned, inodes) <==> FilesOk(sb, owned, inodes)
  {
    if OwnershipOk(sb, owned, inodes) {
      OwnershipGivesFiles(sb, owned, inodes);
    }
    if FilesOk(sb, owned, inodes) {
      FilesGiveOwnership(sb, owned, inodes);
    }
  }

  lemma OwnershipGivesFiles(sb: Superblock, owned: seq<bool>, inodes: seq<Inode>)
    requires OwnershipOk(sb, owned, inodes)
    ensures FilesOk(sb, owned, inodes)
  {
    forall i | 0 <= i < |inodes| ensures BlocksOk(sb, owned, inodes[i].blocks) {
      var blocks := inodes[i].blocks;
      assert forall a :: 0 <= a < |blocks| ==> Slot(inodes, i, a);
    }
    forall i, j, x | 0 <= i < |inodes| && 0 <= j < |inodes| && i != j && x in inodes[i].blocks
      ensures x !in inodes[j].blocks
    {
      var a :| 0 <= a < |inodes[i].blocks| && inodes[i].blocks[a] == x;
      assert Slot(inodes, i, a) && forall b :: 0 <= b < |inodes[j].blocks| ==> Slot(inodes, j, b);
    }
  }

  lemma FilesGiveOwnership(sb: Superblock, owned: seq<bool>, inodes: seq<Inode>)
    requires FilesOk(sb, owned, inodes)
    ensures OwnershipOk(sb, owned, inodes)
  {
    forall i, a, j, b | Slot(inodes, i, a) && Slot(inodes, j, b) && inodes[i].blocks[a] == inodes[j].blocks[b]
      ensures i == j && a == b
    {
      assert inodes[i].blocks[a] in inodes[i].blocks && inodes[j].blocks[b] in inodes[j].blocks;
      assert i != j ==> Disjoint(inodes[i], inodes[j]);
      assert i == j ==> BlocksOk(sb, owned, inodes[i].blocks);
    }
    forall i, a | Slot(inodes, i, a) ensures Allocated(sb, owned, inodes[i].blocks[a]) {
      assert BlocksOk(sb, owned, inodes[i].blocks) && inodes[i].blocks[a] in inodes[i].blocks;
    }
  }

  /** The blocks some inode lists. */
  ghost function Listed(inodes: seq<Inode>): set<u64> {
    set i, b | 0 <= i < |inodes| && b in inodes[i].blocks :: b
  }

  /** The references the audit counts are the blocks in use. */
  lemma {:induction false} ReferencesCount(sb: Superblock, owned: seq<bool>, inodes: seq<Inode>)
    requires OwnershipOk(sb, owned, inodes)
    ensures References(inodes) == |Listed(inodes)|
  {
    OwnershipByFile(sb, owned, inodes);
    ListedSize(sb, owned, inodes);
  }

  lemma {:induction false} ListedSize(sb: Superblock, owned: seq<bool>, inodes: seq<Inode>)
    requires FilesOk(sb, owned, inodes)
    ensures References(inodes) == |Listed(inodes)|
  {
    if inodes == [] {
      assert Listed(inodes) == {};
    } else {
      hide FilesOk, Listed;
      var n := |inodes| - 1;
      FewerFiles(sb, owned, inodes);
      ListedSize(sb, owned, inodes[..n]);
      MembersSize(inodes[n].blocks);
      ListedSnoc(inodes);
      ListedApart(sb, owned, inodes);
    }
  }

  lemma ListedApart(sb: Superblock, owned: seq<bool>, inodes: seq<Inode>)
    requires FilesOk(sb, owned, inodes) && inodes != []
    ensures var n := |inodes| - 1; Listed(inodes[..n]) !! Members(inodes[n].blocks)
  {
    hide BlocksOk;
    var n := |inodes| - 1;
    forall b | b in Listed(inodes[..n]) ensures b !in inodes[n].blocks {
      var i :| 0 <= i < n && b in inodes[..n][i].blocks;
      assert Disjoint(inodes[i], inodes[n]);
    }
  }

  lemma FewerFiles(sb: Superblock, owned: seq<bool>, inodes: seq<Inode>)
    requires FilesOk(sb, owned, inodes) && inodes != []
    ensures FilesOk(sb, owned, inodes[..|inodes| - 1]) && NoRepeats(inodes[|inodes| - 1].blocks)
  {
    assert BlocksOk(sb, owned, inodes[|inodes| - 1].blocks);
  }

  lemma ListedSnoc(inodes: seq<Inode>)
    requires inodes != []
    ensures var n := |inodes| - 1; Listed(inodes) == Listed(inodes[..n]) + Members(inodes[n].blocks)
  {
    var n := |inodes| - 1;
    forall b | b in Listed(inodes[..n]) ensures b in Listed(inodes) {
      var i :| 0 <= i < n && b in inodes[..n][i].blocks;
      assert b in inodes[i].blocks;
    }
    forall b | b in Listed(inodes) ensures b in Listed(inodes[..n]) + Members(inodes[n].blocks) {
      var i :| 0 <= i < |inodes| && b in inodes[i].blocks;
      assert i < n ==> b in inodes[..n][i].blocks;
    }
  }

  // ------------------------------------------------------------------------ one file's blocks

  function Release(owned: seq<bool>, blocks: seq<u64>): (r: seq<bool>)
    ensures |r| == |owned|
  {
    seq(|owned|, i requires 0 <= i < |owned| => owned[i] && i !in blocks)
  }

  function Claim(owned: seq<bool>, blocks: seq<u64>): (r: seq<bool>)
    ensures |r| == |owned|
  {
    seq(|owned|, i requires 0 <= i < |owned| => owned[i] || i in blocks)
  }

  function WithBlocks(inodes: seq<Inode>, k: nat, blocks: seq<u64>): (r: seq<Inode>)
    requires k < |inodes|
    ensures |r| == |inodes|
  {
    inodes[k := inodes[k].(blocks := blocks)]
  }

  lemma {:induction false} SameKinds(inodes: seq<Inode>, k: nat, blocks: seq<u64>)
    requires k < |inodes|
    ensures KindMap(WithBlocks(inodes, k, blocks)) == KindMap(inodes)
  {
    hide KindMap, HasId;
    var n := |inodes| - 1;
    var after := WithBlocks(inodes, k, blocks);
    KindSnoc(inodes);
    KindSnoc(after);
    if k == n {
      assert after[..n] == inodes[..n];
    } else {
      SameKinds(inodes[..n], k, blocks);
      assert after[..n] == WithBlocks(inodes[..n], k, blocks);
    }
  }

  lemma KindSnoc(inodes: seq<Inode>)
    requires inodes != []
    ensures var n := |inodes| - 1; KindMap(inodes) == KindMap(inodes[..n])[inodes[n].id := inodes[n].kind]
  {
  }

  /** Giving one file another block list keeps the volume consistent, when the new list and the new
      ownership vector agree with it and with every other file. */
  lemma ReblockKeepsFsck(sb: Superblock, m: Metadata, k: nat, blocks: seq<u64>, owned: seq<bool>)
    requires FsckOk(sb, m) && k < |m.inodes|
    requires |owned| == |m.owned| && ValidOwned(owned, ReservedBlocks(sb)) && BlocksOk(sb, owned, blocks)
    requires forall j :: 0 <= j < |m.inodes| && j != k ==> BlocksOk(sb, owned, m.inodes[j].blocks)
    requires forall j, x :: 0 <= j < |m.inodes| && j != k && x in m.inodes[j].blocks ==> x !in blocks
    ensures FsckOk(sb, Metadata(owned, WithBlocks(m.inodes, k, blocks), m.entries))
  {
    hide NamespaceOk, KindMap, OwnershipOk, BlocksOk;
    var after := WithBlocks(m.inodes, k, blocks);
    SameKinds(m.inodes, k, blocks);
    OwnershipByFile(sb, m.owned, m.inodes);
    OwnershipByFile(sb, owned, after);
    forall i, j | 0 <= i < |after| && 0 <= j < |after| && i != j ensures Disjoint(after[i], after[j]) {
      assert Disjoint(m.inodes[i], m.inodes[j]);
    }
  }

  /** Truncation: the dropped tail is released, and only it. */
  function Truncated(m: Metadata, k: nat, n: nat): (r: Metadata)
    requires k < |m.inodes| && n <= |m.inodes[k].blocks|
  {
    var blocks := m.inodes[k].blocks;
    Metadata(Release(m.owned, blocks[n..]), WithBlocks(m.inodes, k, blocks[..n]), m.entries)
  }

  lemma TruncateKeepsFsck(sb: Superblock, m: Metadata, k: nat, n: nat)
    requires FsckOk(sb, m) && k < |m.inodes| && n <= |m.inodes[k].blocks|
    ensures FsckOk(sb, Truncated(m, k, n))
  {
    hide NamespaceOk, KindMap, OwnershipOk;
    var blocks := m.inodes[k].blocks;
    var kept, dropped := blocks[..n], blocks[n..];
    var owned := Release(m.owned, dropped);
    OwnershipByFile(sb, m.owned, m.inodes);
    SplitList(blocks, n);
    assert BlocksOk(sb, m.owned, blocks);
    forall j | 0 <= j < |m.inodes| && j != k ensures BlocksOk(sb, owned, m.inodes[j].blocks) {
      assert BlocksOk(sb, m.owned, m.inodes[j].blocks) && Disjoint(m.inodes[j], m.inodes[k]);
    }
    forall j, x | 0 <= j < |m.inodes| && j != k && x in m.inodes[j].blocks ensures x !in kept {
      assert Disjoint(m.inodes[j], m.inodes[k]);
    }
    ReblockKeepsFsck(sb, m, k, kept, owned);
  }

  lemma SplitList(blocks: seq<u64>, n: nat)
    requires n <= |blocks|
    ensures forall x :: x in blocks <==> x in blocks[..n] || x in blocks[n..]
    ensures NoRepeats(blocks) ==> NoRepeats(blocks[..n]) && forall x :: x in blocks[..n] ==> x !in blocks[n..]
  {
    assert blocks == blocks[..n] + blocks[n..];
  }

  /** Growth: fresh blocks go into the list at `p`, and become owned. */
  function Grown(m: Metadata, k: nat, p: nat, extra: seq<u64>): (r: Metadata)
    requires k < |m.inodes| && p <= |m.inodes[k].blocks|
  {
    var blocks := m.inodes[k].blocks;
    Metadata(Claim(m.owned, extra), WithBlocks(m.inodes, k, blocks[..p] + extra + blocks[p..]), m.entries)
  }

  /** Distinct data blocks nobody owns. */
  predicate Unowned(sb: Superblock, owned: seq<bool>, extra: seq<u64>) {
    NoRepeats(extra) && forall a :: 0 <= a < |extra| ==> ReservedBlocks(sb) <= extra[a] < |owned| && !owned[extra[a]]
  }

  lemma GrowKeepsFsck(sb: Superblock, m: Metadata, k: nat, p: nat, extra: seq<u64>)
    requires FsckOk(sb, m) && k < |m.inodes| && p <= |m.inodes[k].blocks| && Unowned(sb, m.owned, extra)
    ensures FsckOk(sb, Grown(m, k, p, extra))
  {
    hide NamespaceOk, KindMap, OwnershipOk;
    var was := m.inodes[k].blocks;
    var blocks := was[..p] + extra + was[p..];
    var owned := Claim(m.owned, extra);
    OwnershipByFile(sb, m.owned, m.inodes);
    assert BlocksOk(sb, m.owned, was);
    ListInsert(was, p, extra);
    assert BlocksOk(sb, owned, blocks);
    forall j | 0 <= j < |m.inodes| && j != k ensures BlocksOk(sb, owned, m.inodes[j].blocks) {
      assert BlocksOk(sb, m.owned, m.inodes[j].blocks);
    }
    forall j, x | 0 <= j < |m.inodes| && j != k && x in m.inodes[j].blocks ensures x !in blocks {
      assert Disjoint(m.inodes[j], m.inodes[k]) && BlocksOk(sb, m.owned, m.inodes[j].blocks);
    }
    ReblockKeepsFsck(sb, m, k, blocks, owned);
  }

  lemma ListInsert(was: seq<u64>, p: nat, extra: seq<u64>)
    requires p <= |was|
    ensures var blocks := was[..p] + extra + was[p..];
            && (forall x :: x in blocks <==> x in was || x in extra)
            && (NoRepeats(was) && NoRepeats(extra) && (forall a :: 0 <= a < |extra| ==> extra[a] !in was) ==>
                NoRepeats(blocks))
  {
    assert was == was[..p] + was[p..];
    var blocks := was[..p] + extra + was[p..];
    if NoRepeats(was) && NoRepeats(extra) && (forall a :: 0 <= a < |extra| ==> extra[a] !in was) {
      var n := |extra|;
      forall i, j | 0 <= i < j < |blocks| ensures blocks[i] != blocks[j] {
        assert j < p || j >= p + n ==> blocks[j] == was[if j < p then j else j - n];
        assert i < p || i >= p + n ==> blocks[i] == was[if i < p then i else i - n];
        assert p <= i < p + n ==> blocks[i] == extra[i - p];
        assert p <= j < p + n ==> blocks[j] == extra[j - p];
      }
    }
  }

  // ------------------------------------------------------------------------ file contents

  /** The data blocks of a file, in order; a block that is not on the device counts as zeros. */
  function Contents(g: seq<Block>, blocks: seq<u64>): (r: seq<Block>)
    ensures |r| == |blocks|
  {
    seq(|blocks|, a requires 0 <= a < |blocks| => if blocks[a] < |g| then g[blocks[a]] else ZERO_BLOCK)
  }

  function Zip(blocks: seq<u64>, data: seq<Block>): (ws: seq<HomeWrite>)
    requires |blocks| == |data|
    ensures |ws| == |blocks| && forall a :: 0 <= a < |blocks| ==> ws[a] == HomeWrite(blocks[a], data[a])
  {
    seq(|blocks|, a requires 0 <= a < |blocks| => HomeWrite(blocks[a], data[a]))
  }

  /** Writing distinct blocks sets each to its data and leaves the rest. */
  lemma {:induction false} ZipApplies(g: seq<Block>, blocks: seq<u64>, data: seq<Block>)
    requires |blocks| == |data| && NoRepeats(blocks) && InRange(Zip(blocks, data), |g|)
    ensures forall a :: 0 <= a < |blocks| ==> blocks[a] < |g| && Apply(g, Zip(blocks, data))[blocks[a]] == data[a]
    ensures forall b :: 0 <= b < |g| && b !in blocks ==> Apply(g, Zip(blocks, data))[b] == g[b]
  {
    var ws := Zip(blocks, data);
    if blocks != [] {
      var n := |blocks| - 1;
      assert ws[..n] == Zip(blocks[..n], data[..n]);
      ZipApplies(g, blocks[..n], data[..n]);
      forall b | 0 <= b < |g| && b !in blocks ensures b !in blocks[..n] {
      }
      assert ws[n].block < |g|;
      assert forall a :: 0 <= a < n ==> blocks[..n][a] == blocks[a];
    }
  }

  lemma InVolume(sb: Superblock, m: Metadata, j: nat)
    requires FsckOk(sb, m) && j < |m.inodes|
    ensures forall a :: 0 <= a < |m.inodes[j].blocks| ==>
              m.inodes[j].blocks[a] < sb.totalBlocks && m.owned[m.inodes[j].blocks[a]]
  {
    OwnershipByFile(sb, m.owned, m.inodes);
    assert BlocksOk(sb, m.owned, m.inodes[j].blocks);
  }

  /** Growing a file inserts the new data in its contents and leaves every other file's alone. */
  lemma GrowContents(sb: Superblock, m: Metadata, g: seq<Block>, k: nat, p: nat, extra: seq<u64>, data: seq<Block>,
                     j: nat)
    requires FsckOk(sb, m) && k < |m.inodes| && p <= |m.inodes[k].blocks| && j < |m.inodes|
    requires Unowned(sb, m.owned, extra) && |extra| == |data| && |g| == sb.totalBlocks && InRange(Zip(extra, data), |g|)
    ensures var was, now :=
              Contents(g, m.inodes[j].blocks),
              Contents(Apply(g, Zip(extra, data)), Grown(m, k, p, extra).inodes[j].blocks);
            now == if j == k then was[..p] + data + was[p..] else was
  {
    hide Apply, FsckOk, Zip, Contents, Claim;
    InVolume(sb, m, j);
    ZipApplies(g, extra, data);
    var blocks, g' := m.inodes[j].blocks, Apply(g, Zip(extra, data));
    assert forall a :: 0 <= a < |blocks| ==> blocks[a] !in extra;
    if j == k {
      InsertedContents(g, g', blocks, p, extra, data);
    } else {
      SameContents(g, g', blocks);
    }
  }

  lemma SameContents(g: seq<Block>, g': seq<Block>, blocks: seq<u64>)
    requires |g'| == |g| && forall a :: 0 <= a < |blocks| && blocks[a] < |g| ==> g'[blocks[a]] == g[blocks[a]]
    ensures Contents(g', blocks) == Contents(g, blocks)
  {
  }

  lemma InsertedContents(g: seq<Block>, g': seq<Block>, blocks: seq<u64>, p: nat, extra: seq<u64>, data: seq<Block>)
    requires |g'| == |g| && forall a :: 0 <= a < |blocks| ==> blocks[a] < |g| && g'[blocks[a]] == g[blocks[a]]
    requires |extra| == |data| && forall a :: 0 <= a < |extra| ==> extra[a] < |g| && g'[extra[a]] == data[a]
    requires p <= |blocks|
    ensures var was := Contents(g, blocks);
            Contents(g', blocks[..p] + extra + blocks[p..]) == was[..p] + data + was[p..]
  {
  }

  /** The regular file `id`, by its place in the inode table. */
  predicate FileAt(m: Metadata, k: nat, id: u64) {
    k < |m.inodes| && m.inodes[k].id == id && m.inodes[k].kind == File
  }

  /** `m'` over the data `g'` is `m` over `g`, except that the file at `k` now reads `now`. */
  ghost predicate OnlyFileBecomes(m: Metadata, g: seq<Block>, m': Metadata, g': seq<Block>, k: nat, now: seq<Block>) {
    && m'.entries == m.entries && |m'.inodes| == |m.inodes|
    && forall j :: 0 <= j < |m.inodes| ==>
         && m'.inodes[j].id == m.inodes[j].id && m'.inodes[j].kind == m.inodes[j].kind
         && Contents(g', m'.inodes[j].blocks) == if j == k then now else Contents(g, m.inodes[j].blocks)
  }

  /** Dropping a tail of the block list drops that tail of the contents, of this file only. */
  lemma TruncateContents(m: Metadata, g: seq<Block>, k: nat, n: nat)
    requires k < |m.inodes| && n <= |m.inodes[k].blocks|
    ensures OnlyFileBecomes(m, g, Truncated(m, k, n), g, k, Contents(g, m.inodes[k].blocks)[..n])
  {
    hide Release;
    var blocks := m.inodes[k].blocks;
    assert Contents(g, blocks[..n]) == Contents(g, blocks)[..n];
  }

  lemma GrowBecomes(sb: Superblock, m: Metadata, g: seq<Block>, k: nat, p: nat, extra: seq<u64>, data: seq<Block>)
    requires FsckOk(sb, m) && k < |m.inodes| && p <= |m.inodes[k].blocks|
    requires Unowned(sb, m.owned, extra) && |extra| == |data| && |g| == sb.totalBlocks && InRange(Zip(extra, data), |g|)
    ensures var was := Contents(g, m.inodes[k].blocks);
            OnlyFileBecomes(m, g, Grown(m, k, p, extra), Apply(g, Zip(extra, data)), k, was[..p] + data + was[p..])
  {
    hide Apply, FsckOk, Zip, Contents, Claim;
    forall j | 0 <= j < |m.inodes|
      ensures var was, now :=
                Contents(g, m.inodes[j].blocks),
                Contents(Apply(g, Zip(extra, data)), Grown(m, k, p, extra).inodes[j].blocks);
              now == if j == k then was[..p] + data + was[p..] else was
    {
      GrowContents(sb, m, g, k, p, extra, data, j);
    }
  }

  /** Every file of a consistent volume reads the same from any device with the same data blocks. */
  lemma BecomesOn(sb: Superblock, m: Metadata, g: seq<Block>, m': Metadata, g': seq<Block>, h: seq<Block>, k: nat,
                  now: seq<Block>)
    requires OnlyFileBecomes(m, g, m', g', k, now) && FsckOk(sb, m') && SameData(sb, h, g')
    ensures OnlyFileBecomes(m, g, m', h, k, now)
  {
    hide FsckOk, Contents;
    forall j | 0 <= j < |m.inodes| ensures Contents(h, m'.inodes[j].blocks) == Contents(g', m'.inodes[j].blocks) {
      AboveReserved(sb, m', j);
      SameContents(g', h, m'.inodes[j].blocks);
    }
  }

  /** Writing blocks of one file changes no other. */
  lemma ElsewhereBecomes(sb: Superblock, m: Metadata, g: seq<Block>, g': seq<Block>, k: nat)
    requires FsckOk(sb, m) && k < |m.inodes| && |g'| == |g|
    requires forall b :: 0 <= b < |g| && b !in m.inodes[k].blocks ==> g'[b] == g[b]
    ensures OnlyFileBecomes(m, g, m, g', k, Contents(g', m.inodes[k].blocks))
  {
    hide FsckOk, Contents;
    forall j | 0 <= j < |m.inodes| && j != k
      ensures Contents(g', m.inodes[j].blocks) == Contents(g, m.inodes[j].blocks)
    {
      FilesAreDisjoint(sb, m, j, k);
      SameContents(g, g', m.inodes[j].blocks);
    }
  }

  lemma FilesAreDisjoint(sb: Superblock, m: Metadata, j: nat, k: nat)
    requires FsckOk(sb, m) && j < |m.inodes| && k < |m.inodes| && j != k
    ensures forall a :: 0 <= a < |m.inodes[j].blocks| ==> m.inodes[j].blocks[a] !in m.inodes[k].blocks
  {
    OwnershipByFile(sb, m.owned, m.inodes);
    assert Disjoint(m.inodes[j], m.inodes[k]);
  }

  lemma AboveReserved(sb: Superblock, m: Metadata, j: nat)
    requires FsckOk(sb, m) && j < |m.inodes|
    ensures forall a :: 0 <= a < |m.inodes[j].blocks| ==> ReservedBlocks(sb) <= m.inodes[j].blocks[a]
  {
    OwnershipByFile(sb, m.owned, m.inodes);
    assert BlocksOk(sb, m.owned, m.inodes[j].blocks);
  }

  // ------------------------------------------------------------------------ unlink

  /** `m'` is `m` without the inode `gone`, its only entry `e`, and its blocks. */
  ghost predicate IsUnlink(sb: Superblock, m: Metadata, m': Metadata, gone: Inode, e: DirEntry) {
    && gone in m.inodes && gone.id != ROOT && e in m.entries && e.target == gone.id
    && DistinctIds(m'.inodes) && NoRepeats(m'.entries)
    && (forall i :: i in m'.inodes <==> i in m.inodes && i != gone)
    && (forall f :: f in m'.entries <==> f in m.entries && f != e)
    && (forall f :: f in m.entries && f.target == gone.id ==> f == e)
    && (forall f :: f in m'.entries ==> f.parent != gone.id)
    && (gone.kind.Directory? ==> forall f :: f in m.entries ==> f.parent != gone.id)
    && m'.owned == Release(m.owned, gone.blocks)
    && (forall x :: x in gone.blocks ==> Allocated(sb, m.owned, x))
  }

  lemma KindOf(inodes: seq<Inode>, i: Inode)
    requires DistinctIds(inodes) && i in inodes
    ensures i.id in KindMap(inodes) && KindMap(inodes)[i.id] == i.kind
  {
    hide KindMap, FindInode;
    KindIsFound(inodes, i.id);
  }

  lemma KindsWithout(before: seq<Inode>, after: seq<Inode>, gone: Inode)
    requires DistinctIds(before) && DistinctIds(after) && gone in before
    requires forall i :: i in after <==> i in before && i != gone
    ensures KindMap(after) == KindMap(before) - {gone.id}
  {
    hide KindMap, FindInode;
    var a, b := KindMap(after), KindMap(before) - {gone.id};
    forall x | x in a ensures x in b && b[x] == a[x] {
      KindIsFound(after, x);
      var i := after[FindInode(after, x).value];
      assert i in after && i in before;
      KindOf(before, i);
      KindOf(after, i);
    }
    forall x | x in b ensures x in a {
      KindIsFound(before, x);
      var i := before[FindInode(before, x).value];
      assert i in before;
      assert i in after;
      KindOf(after, i);
    }
  }

  lemma EdgesOf(es: seq<DirEntry>)
    ensures forall a, b :: (a, b) in EdgeSet(es) <==> exists e :: e in es && e.parent == a && e.target == b
  {
    forall a, b | (a, b) in EdgeSet(es) ensures exists e :: e in es && e.parent == a && e.target == b {
      var i :| 0 <= i < |es| && (a, b) == (es[i].parent, es[i].target);
      assert es[i] in es;
    }
    forall e | e in es ensures (e.parent, e.target) in EdgeSet(es) {
      var i :| 0 <= i < |es| && es[i] == e;
    }
  }

  lemma EdgesWithout(before: seq<DirEntry>, after: seq<DirEntry>, e: DirEntry)
    requires forall f :: f in after <==> f in before && f != e
    requires forall f :: f in before && f.target == e.target ==> f == e
    ensures EdgeSet(after) == Without(EdgeSet(before), e.target)
  {
    hide EdgeSet;
    EdgesOf(before);
    EdgesOf(after);
    forall p | p in Without(EdgeSet(before), e.target) ensures p in EdgeSet(after) {
      assert p == (p.0, p.1);
      var f :| f in before && f.parent == p.0 && f.target == p.1;
      assert f in after;
    }
    forall p | p in EdgeSet(after) ensures p in Without(EdgeSet(before), e.target) {
      assert p == (p.0, p.1);
      var f :| f in after && f.parent == p.0 && f.target == p.1;
      assert f in before && f != e;
    }
  }

  lemma FilesSubset(sb: Superblock, owned: seq<bool>, before: seq<Inode>, after: seq<Inode>, gone: Inode)
    requires FilesOk(sb, owned, before) && DistinctIds(after) && gone in before
    requires forall i :: i in after ==> i in before && i != gone
    ensures FilesOk(sb, Release(owned, gone.blocks), after)
  {
    var k :| 0 <= k < |before| && before[k] == gone;
    forall i | 0 <= i < |after| ensures BlocksOk(sb, Release(owned, gone.blocks), after[i].blocks) {
      assert after[i] in after;
      var j :| 0 <= j < |before| && before[j] == after[i];
      assert BlocksOk(sb, owned, before[j].blocks) && Disjoint(before[j], before[k]);
    }
    forall i, j | 0 <= i < |after| && 0 <= j < |after| && i != j ensures Disjoint(after[i], after[j]) {
      assert after[i] in after && after[j] in after;
      var i', j' :| 0 <= i' < |before| && before[i'] == after[i] && 0 <= j' < |before| && before[j'] == after[j];
      assert after[i].id != after[j].id;
    }
  }

  lemma KeysSubset(before: seq<DirEntry>, after: seq<DirEntry>)
    requires UniqueKeys(before) && NoRepeats(after) && forall f :: f in after ==> f in before
    ensures UniqueKeys(after)
  {
    forall i, j | 0 <= i < j < |after| ensures after[i].parent != after[j].parent || after[i].name != after[j].name {
      assert after[i] in after && after[j] in after;
      var i', j' :| 0 <= i' < |before| && before[i'] == after[i] && 0 <= j' < |before| && before[j'] == after[j];
      assert i' != j';
    }
  }

  lemma NamespaceWithout(kinds: Kinds, before: seq<DirEntry>, after: seq<DirEntry>, x: u64)
    requires NamespaceOk(kinds, before) && x in kinds && x != ROOT
    requires EdgeSet(after) == Without(EdgeSet(before), x)
    requires kinds[x].Directory? ==> forall f :: f in before ==> f.parent != x
    ensures NamespaceOk(kinds - {x}, after)
  {
    hide Reach, Acyclic, EdgeSet, NamespaceOk;
    LegalIsGraph(kinds, before);
    LegalIsGraph(kinds - {x}, after);
    EdgesOf(before);
    DropLeaf(kinds, EdgeSet(before), x);
  }

  /** An unlink leaves a consistent volume: the removed inode was not in anyone's way. */
  lemma UnlinkKeepsFsck(sb: Superblock, m: Metadata, m': Metadata, gone: Inode, e: DirEntry)
    requires FsckOk(sb, m) && IsUnlink(sb, m, m', gone, e)
    ensures FsckOk(sb, m')
  {
    hide NamespaceOk, OwnershipOk, KindMap, EdgeSet, FilesOk;
    KindOf(m.inodes, gone);
    KindsWithout(m.inodes, m'.inodes, gone);
    EdgesWithout(m.entries, m'.entries, e);
    NamespaceWithout(KindMap(m.inodes), m.entries, m'.entries, gone.id);
    OwnershipByFile(sb, m.owned, m.inodes);
    FilesSubset(sb, m.owned, m.inodes, m'.inodes, gone);
    OwnershipByFile(sb, m'.owned, m'.inodes);
    KeysSubset(m.entries, m'.entries);
  }
}
