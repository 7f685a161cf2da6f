/** The slot file system (`diskfs.c`): sixteen entries, each with four sectors of its own. */
module DiskFs {
  import opened Bytes
  import opened Results
  import opened Sequences

  const SECTOR: nat := 512
  const DATA_LBA: nat := 16
  const MAX_FILES: nat := 16
  const FILE_SECTORS: nat := 4
  const CAPACITY: nat := 2048
  const ROOT: nat := 0xFF

  datatype Kind = File | Directory

  datatype Entry = Entry(used: bool, kind: Kind, parent: byte, length: nat)

  // ------------------------------------------------------------- the parents of an entry

  /** The parent an entry names. */
  function Up(entries: seq<Entry>, e: nat): nat {
    if e < |entries| then entries[e].parent as nat else ROOT
  }

  /** The entry itself, then its ancestors. */
  function At(index: nat, path: seq<nat>, i: nat): nat
    requires i <= |path|
  {
    if i == 0 then index else path[i - 1]
  }

  predicate IsDirectory(entries: seq<Entry>, e: nat) {
    e < |entries| && entries[e].used && entries[e].kind == Directory
  }

  /** `path` lists directories going up from the entry, the last of which names `next`. */
  ghost predicate Climb(entries: seq<Entry>, index: nat, path: seq<nat>, next: nat) {
    && (forall i :: 0 <= i < |path| ==> IsDirectory(entries, path[i]))
    && (forall i: nat :: i <= |path| ==> Up(entries, At(index, path, i)) == if i < |path| then path[i] else next)
  }

  /** The directories above an entry lead to the root. */
  ghost predicate ReachesRoot(entries: seq<Entry>, index: nat) {
    exists path :: Climb(entries, index, path, ROOT)
  }

  lemma ClimbStep(entries: seq<Entry>, index: nat, path: seq<nat>, next: nat, i: nat)
    requires Climb(entries, index, path, next) && i <= |path|
    ensures Up(entries, At(index, path, i)) == if i < |path| then path[i] else next
    ensures i < |path| ==> IsDirectory(entries, path[i])
  {
  }

  lemma ClimbOne(entries: seq<Entry>, index: nat, path: seq<nat>, next: nat)
    requires Climb(entries, index, path, next) && IsDirectory(entries, next)
    ensures Climb(entries, index, path + [next], Up(entries, next))
  {
    var longer := path + [next];
    forall i: nat | i <= |longer|
      ensures Up(entries, At(index, longer, i)) == if i < |longer| then longer[i] else Up(entries, next)
    {
      if i <= |path| {
        ClimbStep(entries, index, path, next, i);
        assert At(index, longer, i) == At(index, path, i);
      }
    }
  }

  /** A climb follows the way to the root, if there is one. */
  lemma {:induction false} ClimbOnWay(entries: seq<Entry>, index: nat, climb: seq<nat>, next: nat, way: seq<nat>,
                                      i: nat)
    requires |entries| == MAX_FILES && i <= |climb| && Climb(entries, index, climb, next)
    requires Climb(entries, index, way, ROOT)
    ensures i <= |way| && At(index, climb, i) == At(index, way, i)
    decreases i
  {
    hide Climb, Up;
    if i > 0 {
      ClimbOnWay(entries, index, climb, next, way, i - 1);
      ClimbStep(entries, index, climb, next, i - 1);
      ClimbStep(entries, index, way, ROOT, i - 1);
    }
  }

  /** From equal entries a climb goes on equally. */
  lemma {:induction false} SameOnwards(entries: seq<Entry>, index: nat, path: seq<nat>, i: nat, j: nat, k: nat)
    requires Climb(entries, index, path, ROOT) && i < j && j + k <= |path| && At(index, path, i) == At(index, path, j)
    ensures At(index, path, i + k) == At(index, path, j + k)
    decreases k
  {
    hide Climb, Up;
    if k > 0 {
      SameOnwards(entries, index, path, i, j, k - 1);
      ClimbStep(entries, index, path, ROOT, i + k - 1);
      ClimbStep(entries, index, path, ROOT, j + k - 1);
    }
  }

  /** The way to the root passes no entry twice, the one it starts from included. */
  lemma WayIsDistinct(entries: seq<Entry>, index: nat, path: seq<nat>)
    requires |entries| == MAX_FILES && Climb(entries, index, path, ROOT)
    ensures NoRepeats([index] + path)
  {
    hide Climb, Up;
    var all := [index] + path;
    forall i, j | 0 <= i < j < |all| ensures all[i] != all[j] {
      assert all[i] == At(index, path, i) && all[j] == At(index, path, j);
      var k := |path| - j;
      ClimbStep(entries, index, path, ROOT, |path|);
      ClimbStep(entries, index, path, ROOT, i + k);
      if all[i] == all[j] {
        SameOnwards(entries, index, path, i, j, k);
      }
    }
  }

  /** Whatever entry a climb comes to on a way to the root is a directory, and not the one it left. */
  lemma OnTheWay(entries: seq<Entry>, index: nat, climb: seq<nat>, parent: nat)
    requires |entries| == MAX_FILES && Climb(entries, index, climb, parent) && parent != ROOT
    ensures ReachesRoot(entries, index) ==> parent != index && IsDirectory(entries, parent)
  {
    hide Climb, Up;
    if ReachesRoot(entries, index) {
      var way :| Climb(entries, index, way, ROOT);
      ClimbOnWay(entries, index, climb, parent, way, |climb|);
      ClimbStep(entries, index, climb, parent, |climb|);
      ClimbStep(entries, index, way, ROOT, |climb|);
      WayIsDistinct(entries, index, way);
      assert ([index] + way)[0] == index && ([index] + way)[|climb| + 1] == parent;
    }
  }

  /** A way to the root has fewer directories than there are entries. */
  lemma NeverDeep(entries: seq<Entry>, index: nat, climb: seq<nat>, parent: nat)
    requires |entries| == MAX_FILES && index < MAX_FILES && Climb(entries, index, climb, parent)
    ensures ReachesRoot(entries, index) ==> |climb| < MAX_FILES
  {
    hide Climb, Up;
    if ReachesRoot(entries, index) {
      var way :| Climb(entries, index, way, ROOT);
      ClimbOnWay(entries, index, climb, parent, way, |climb|);
      WayIsDistinct(entries, index, way);
      forall i: nat | i < |way| ensures way[i] < MAX_FILES {
        ClimbStep(entries, index, way, ROOT, i);
      }
      AtMost([index] + way, 0, MAX_FILES);
    }
  }

  /** `diskfs_parent_chain_valid`: sixteen steps decide whether an entry hangs below the root, so no
      entry accepted is its own ancestor. */
  method ParentChainValid(entries: seq<Entry>, index: nat) returns (ok: bool)
    requires |entries| == MAX_FILES && index < MAX_FILES
    ensures ok <==> ReachesRoot(entries, index)
  {
    var parent: nat, depth: nat := entries[index].parent as nat, 0;
    ghost var climb: seq<nat> := [];
    while depth < MAX_FILES
      invariant depth <= MAX_FILES && |climb| == depth && Climb(entries, index, climb, parent)
    {
      if parent == ROOT {
        return true;
      }
      if parent >= MAX_FILES || parent == index || !entries[parent].used || entries[parent].kind != Directory {
        OnTheWay(entries, index, climb, parent);
        return false;
      }
      ClimbOne(entries, index, climb, parent);
      climb := climb + [parent];
      parent := entries[parent].parent as nat;
      depth := depth + 1;
    }
    NeverDeep(entries, index, climb, parent);
    return false;
  }

  // -------------------------------------------------------------------- slots and sectors

  /** The byte a slot holds at a position. */
  function ByteAt(sectors: seq<seq<byte>>, index: nat, pos: nat): byte
    requires ValidSectors(sectors) && index < MAX_FILES && pos < CAPACITY
  {
    sectors[DATA_LBA + index * FILE_SECTORS + pos / SECTOR][pos % SECTOR]
  }

  predicate ValidSectors(sectors: seq<seq<byte>>) {
    |sectors| >= DATA_LBA + MAX_FILES * FILE_SECTORS && forall i :: 0 <= i < |sectors| ==> |sectors[i]| == SECTOR
  }

  /** What a slot's file of this length holds. */
  function Content(sectors: seq<seq<byte>>, index: nat, length: nat): (c: seq<byte>)
    requires ValidSectors(sectors) && index < MAX_FILES && length <= CAPACITY
    ensures |c| == length
  {
    seq(length, x requires 0 <= x < length => ByteAt(sectors, index, x))
  }

  /** The content a write leaves: what was there, zeros up to the offset, the new bytes, and what
      was there behind them. */
  function Sparse(before: seq<byte>, offset: nat, data: seq<byte>): (c: seq<byte>)
    ensures |c| == if offset + |data| > |before| then offset + |data| else |before|
  {
    var padded := if |before| < offset then before + seq(offset - |before|, _ => 0) else before;
    padded[..offset] + data + if offset + |data| <= |before| then before[offset + |data|..] else []
  }

  lemma SparseAt(before: seq<byte>, offset: nat, data: seq<byte>, x: nat)
    requires x < |Sparse(before, offset, data)|
    ensures Sparse(before, offset, data)[x] ==
            if offset <= x < offset + |data| then data[x - offset] else if x < |before| then before[x] else 0
  {
  }

  /** One sector of the slot after the write has gone through it. */
  ghost predicate Patched(was: seq<byte>, now: seq<byte>, start: nat, length: nat, offset: nat, data: seq<byte>) {
    && |was| == |now| == SECTOR
    && forall x :: 0 <= x < SECTOR ==> now[x] == PatchedByte(was[x], start + x, start < length, length, offset, data)
  }

  function PatchedByte(was: byte, pos: nat, read: bool, length: nat, offset: nat, data: seq<byte>): byte {
    if offset <= pos < offset + |data| then data[pos - offset]
    else if length <= pos < offset || !read then 0 else was
  }

  /** The slot when the write has gone through its sectors below `upto`. */
  ghost predicate Through(was: seq<seq<byte>>, now: seq<seq<byte>>, index: nat, from: nat, upto: nat, length: nat,
                          offset: nat, data: seq<byte>) {
    && ValidSectors(was) && ValidSectors(now) && |was| == |now| && index < MAX_FILES && from <= upto <= FILE_SECTORS
    && (forall s :: from <= s < upto ==>
        Patched(was[Lba(index, s)], now[Lba(index, s)], s * SECTOR, length, offset, data))
    && (forall i :: 0 <= i < |was| && !(Lba(index, from) <= i < Lba(index, upto)) ==> now[i] == was[i])
  }

  function Lba(index: nat, s: nat): nat {
    DATA_LBA + index * FILE_SECTORS + s
  }

  /** Sectors that only differ in other places leave a slot's file as it was. */
  lemma SlotFrame(was: seq<seq<byte>>, now: seq<seq<byte>>, index: nat, length: nat)
    requires ValidSectors(was) && ValidSectors(now) && |was| == |now| && index < MAX_FILES && length <= CAPACITY
    requires forall s :: 0 <= s < FILE_SECTORS ==> now[Lba(index, s)] == was[Lba(index, s)]
    ensures Content(now, index, length) == Content(was, index, length)
  {
    forall x: nat | x < length ensures ByteAt(now, index, x) == ByteAt(was, index, x) {
      assert Lba(index, x / SECTOR) == DATA_LBA + index * FILE_SECTORS + x / SECTOR;
    }
    assert Content(now, index, length) == Content(was, index, length);
  }

  /** Nothing has changed outside one slot. */
  ghost predicate OnlySlot(was: seq<seq<byte>>, now: seq<seq<byte>>, index: nat) {
    |was| == |now| && forall i :: 0 <= i < |was| && !(Lba(index, 0) <= i < Lba(index, FILE_SECTORS)) ==>
        now[i] == was[i]
  }

  lemma OtherSlot(was: seq<seq<byte>>, now: seq<seq<byte>>, index: nat, other: nat, length: nat)
    requires ValidSectors(was) && ValidSectors(now) && OnlySlot(was, now, index) && index < MAX_FILES
    requires other < MAX_FILES && other != index && length <= CAPACITY
    ensures Content(now, other, length) == Content(was, other, length)
  {
    forall s | 0 <= s < FILE_SECTORS ensures now[Lba(other, s)] == was[Lba(other, s)] {
    }
    SlotFrame(was, now, other, length);
  }

  /** A byte of the file after the write, whatever lay past the old end. */
  lemma WrittenByte(was: seq<seq<byte>>, now: seq<seq<byte>>, index: nat, from: nat, upto: nat, length: nat,
                    offset: nat, data: seq<byte>, x: nat)
    requires Through(was, now, index, from, upto, length, offset, data) && length <= CAPACITY
    requires offset + |data| <= CAPACITY && data != []
    requires from == (if length < offset then length else offset) / SECTOR && upto == (offset + |data| - 1) / SECTOR + 1
    requires x < if offset + |data| > length then offset + |data| else length
    ensures ByteAt(now, index, x) == if offset <= x < offset + |data| then data[x - offset]
              else if x < length then ByteAt(was, index, x) else 0
  {
    var s := x / SECTOR;
    assert x == s * SECTOR + x % SECTOR;
    if from <= s < upto {
      assert Patched(was[Lba(index, s)], now[Lba(index, s)], s * SECTOR, length, offset, data);
    } else {
      assert now[Lba(index, s)] == was[Lba(index, s)];
    }
  }

  lemma WrittenContent(was: seq<seq<byte>>, now: seq<seq<byte>>, index: nat, from: nat, upto: nat, length: nat,
                       offset: nat, data: seq<byte>)
    requires Through(was, now, index, from, upto, length, offset, data) && length <= CAPACITY
    requires offset + |data| <= CAPACITY && data != []
    requires from == (if length < offset then length else offset) / SECTOR && upto == (offset + |data| - 1) / SECTOR + 1
    ensures Content(now, index, if offset + |data| > length then offset + |data| else length) ==
              Sparse(Content(was, index, length), offset, data)
  {
    hide Through, ByteAt, Sparse;
    Shapes(was, now, index, from, upto, length, offset, data);
    var l, want :=
        (if offset + |data| > length then offset + |data| else length),
        Sparse(Content(was, index, length), offset, data);
    forall x: nat | x < l ensures ByteAt(now, index, x) == want[x] {
      WrittenByte(was, now, index, from, upto, length, offset, data, x);
      SparseAt(Content(was, index, length), offset, data, x);
    }
    assert Content(now, index, l) == want;
  }

  lemma Shapes(was: seq<seq<byte>>, now: seq<seq<byte>>, index: nat, from: nat, upto: nat, length: nat, offset: nat,
               data: seq<byte>)
    requires Through(was, now, index, from, upto, length, offset, data)
    ensures ValidSectors(was) && ValidSectors(now) && |was| == |now| && index < MAX_FILES
    ensures from <= upto <= FILE_SECTORS
    ensures forall s :: upto <= s < FILE_SECTORS ==> now[Lba(index, s)] == was[Lba(index, s)]
  {
  }

  lemma ThroughNone(was: seq<seq<byte>>, index: nat, from: nat, length: nat, offset: nat, data: seq<byte>)
    requires ValidSectors(was) && index < MAX_FILES && from <= FILE_SECTORS
    ensures Through(was, was, index, from, from, length, offset, data)
  {
  }

  /** Writing the next sector of the run. */
  lemma ThroughOne(was: seq<seq<byte>>, now: seq<seq<byte>>, index: nat, from: nat, upto: nat, length: nat, offset: nat,
                   data: seq<byte>, sector: seq<byte>)
    requires Through(was, now, index, from, upto, length, offset, data) && upto < FILE_SECTORS
    requires Patched(was[Lba(index, upto)], sector, upto * SECTOR, length, offset, data)
    ensures Through(was, now[Lba(index, upto) := sector], index, from, upto + 1, length, offset, data)
  {
    hide Patched;
    assert |sector| == SECTOR by { PatchedSize(was[Lba(index, upto)], sector, upto * SECTOR, length, offset, data); }
  }

  lemma PatchedSize(was: seq<byte>, now: seq<byte>, start: nat, length: nat, offset: nat, data: seq<byte>)
    requires Patched(was, now, start, length, offset, data)
    ensures |now| == SECTOR
  {
  }

  /** `sector` with the positions `lo` to `hi` of the file replaced, `start` being its first. */
  method Fill(sector: seq<byte>, start: nat, lo: nat, hi: nat, bytes: seq<byte>) returns (r: seq<byte>)
    requires |sector| == SECTOR && start <= lo <= hi <= start + SECTOR && |bytes| == hi - lo
    ensures |r| == SECTOR
    ensures forall x :: 0 <= x < SECTOR ==> r[x] == if lo <= start + x < hi then bytes[start + x - lo] else sector[x]
  {
    r := sector[..lo - start] + bytes + sector[hi - start..];
  }

  /** Zeros from the file's end up to the offset. */
  method ZeroGap(sector: seq<byte>, start: nat, length: nat, offset: nat) returns (r: seq<byte>)
    requires |sector| == SECTOR
    ensures |r| == SECTOR
    ensures forall x :: 0 <= x < SECTOR ==> r[x] == if length <= start + x < offset then 0 else sector[x]
  {
    var lo, hi := if length > start then length else start, if offset < start + SECTOR then offset else start + SECTOR;
    r := sector;
    if hi > lo {
      r := Fill(sector, start, lo, hi, seq(hi - lo, _ => 0));
    }
  }

  /** The new bytes that fall into the sector. */
  method CopyOver(sector: seq<byte>, start: nat, offset: nat, data: seq<byte>) returns (r: seq<byte>)
    requires |sector| == SECTOR
    ensures |r| == SECTOR
    ensures forall x :: 0 <= x < SECTOR ==>
              r[x] == if offset <= start + x < offset + |data| then data[start + x - offset] else sector[x]
  {
    var end := offset + |data|;
    var lo, hi := if offset > start then offset else start, if end < start + SECTOR then end else start + SECTOR;
    r := sector;
    if hi > lo {
      r := Fill(sector, start, lo, hi, data[lo - offset..hi - offset]);
    }
  }

  /** The buffer of one round: read or cleared, the gap zeroed, the new bytes copied over it. */
  method PatchSector(sector: seq<byte>, ghost was: seq<byte>, start: nat, length: nat, offset: nat, data: seq<byte>)
    returns (r: seq<byte>)
    requires |sector| == |was| == SECTOR
    requires if start < length then sector == was else forall x :: 0 <= x < SECTOR ==> sector[x] == 0
    ensures Patched(was, r, start, length, offset, data)
  {
    r := ZeroGap(sector, start, length, offset);
    r := CopyOver(r, start, offset, data);
  }

  /** A sector of the directory or the superblock; what it encodes is not modelled. */
  method MetadataImage() returns (image: seq<byte>)
    ensures |image| == SECTOR
  {
    image := *;
    if |image| != SECTOR {
      image := seq(SECTOR, _ => 0);
    }
  }

  /** The part of a file a read of `size` bytes at `offset` covers. */
  function Slice(file: seq<byte>, offset: nat, size: nat): (r: seq<byte>)
    ensures |r| <= size
  {
    if offset >= |file| then [] else if size > |file| - offset then file[offset..] else file[offset..offset + size]
  }

  lemma SliceBytes(file: seq<byte>, offset: nat, size: nat)
    ensures var r := Slice(file, offset, size);
            && (offset >= |file| ==> r == [])
            && (offset < |file| ==> |r| == if size < |file| - offset then size else |file| - offset)
            && (offset < |file| ==> r == file[offset..offset + |r|])
            && (forall i :: 0 <= i < |r| ==> r[i] == file[offset + i])
  {
  }

  /** Bytes of a file that lie in one sector. */
  lemma SectorSlice(sectors: seq<seq<byte>>, index: nat, length: nat, pos: nat, count: nat)
    requires ValidSectors(sectors) && index < MAX_FILES && length <= CAPACITY && pos + count <= length
    requires pos % SECTOR + count <= SECTOR
    requires pos < CAPACITY
    ensures Content(sectors, index, length)[pos..pos + count] ==
              sectors[Lba(index, pos / SECTOR)][pos % SECTOR..pos % SECTOR + count]
  {
    var part, slice :=
        Content(sectors, index, length)[pos..pos + count],
        sectors[Lba(index, pos / SECTOR)][pos % SECTOR..pos % SECTOR + count];
    forall x | 0 <= x < count ensures part[x] == slice[x] {
      assert part[x] == ByteAt(sectors, index, pos + x);
      assert (pos + x) / SECTOR == pos / SECTOR && (pos + x) % SECTOR == pos % SECTOR + x;
    }
  }

  lemma SparseReadsBack(after: seq<byte>, before: seq<byte>, offset: nat, data: seq<byte>)
    requires after == Sparse(before, offset, data) && data != []
    ensures Slice(after, offset, |data|) == data
    ensures |after| <= CAPACITY ==> Slice(after, 0, CAPACITY) == after
  {
    forall x | 0 <= x < |data| ensures after[offset + x] == data[x] {
      SparseAt(before, offset, data, offset + x);
    }
  }

  /** The sectors, the entries held in memory and the mount flag.  A request to the disk may fail on
      a faulty one; a failed write leaves any bytes in its sector. */
  class SlotDisk {
    var sectors: seq<seq<byte>>
    var entries: seq<Entry>
    var mounted: bool
    const faulty: bool

    ghost predicate Valid()
      reads this
    {
      ValidSectors(sectors) && |entries| == MAX_FILES && forall i :: 0 <= i < MAX_FILES ==>
          entries[i].length <= CAPACITY
    }

    constructor (sectors: seq<seq<byte>>, entries: seq<Entry>, faulty: bool)
      requires ValidSectors(sectors) && |entries| == MAX_FILES
      requires forall i :: 0 <= i < MAX_FILES ==> entries[i].length <= CAPACITY
      ensures Valid() && this.sectors == sectors && this.entries == entries && mounted && this.faulty == faulty
    {
      this.sectors, this.entries, this.mounted, this.faulty := sectors, entries, true, faulty;
    }

    ghost function File(index: nat): seq<byte>
      requires Valid() && index < MAX_FILES
      reads this
    {
      Content(sectors, index, entries[index].length)
    }

    predicate IsFile(index: nat)
      requires |entries| == MAX_FILES
      reads this
    {
      index < MAX_FILES && entries[index].used && entries[index].kind == Kind.File
    }

    method AtaRead(lba: nat) returns (r: Option<seq<byte>>)
      requires Valid() && lba < |sectors|
      ensures r.Some? ==> r.value == sectors[lba]
      ensures !faulty ==> r.Some?
    {
      var fails: bool := *;
      r := if faulty && fails then None else Some(sectors[lba]);
    }

    method AtaWrite(lba: nat, sector: seq<byte>) returns (ok: bool)
      requires Valid() && lba < |sectors| && |sector| == SECTOR
      modifies this`sectors
      ensures Valid() && |sectors| == |old(sectors)| && sectors == old(sectors)[lba := sectors[lba]]
      ensures ok ==> sectors[lba] == sector
      ensures !faulty ==> ok
    {
      var torn: seq<byte>, fails: bool := *, *;
      ok := !(faulty && fails);
      sectors := sectors[lba := if ok || |torn| != SECTOR then sector else torn];
    }

    /** `diskfs_read_slot`: exactly the bytes of the file that the range covers, as many as were asked for or as
        there are. */
    method ReadSlot(index: nat, offset: nat, size: nat) returns (r: Option<seq<byte>>)
      requires Valid()
      ensures r.Some? ==> IsFile(index)
      ensures r.Some? ==> r.value == Slice(File(index), offset, size)
      ensures r.Some? && offset >= |File(index)| ==> r.value == []
      ensures r.Some? && offset < |File(index)| ==>
                |r.value| == if size < |File(index)| - offset then size else |File(index)| - offset
      ensures r.Some? ==> forall i :: 0 <= i < |r.value| ==> r.value[i] == File(index)[offset + i]
      ensures !faulty && IsFile(index) ==> r.Some?
    {
      hide Content, ByteAt, Slice;
      if !IsFile(index) {
        return None;
      }
      SliceBytes(File(index), offset, size);
      var length := entries[index].length;
      if offset >= length {
        return Some([]);
      }
      var want := if size > length - offset then length - offset else size;
      var copied: nat, buffer: seq<byte> := 0, [];
      ghost var file := File(index);
      while copied < want
        invariant copied <= want && buffer == file[offset..offset + copied]
      {
        var pos := offset + copied;
        var count := SECTOR - pos % SECTOR;
        if count > want - copied {
          count := want - copied;
        }
        var s := AtaRead(Lba(index, pos / SECTOR));
        if s.None? {
          return None;
        }
        SectorSlice(sectors, index, length, pos, count);
        assert file[offset..pos] + file[pos..pos + count] == file[offset..pos + count];
        buffer := buffer + s.value[pos % SECTOR..pos % SECTOR + count];
        copied := copied + count;
      }
      return Some(buffer);
    }

    /** Writes the sectors of the directory and the superblock, which lie below every slot. */
    method StoreMetadata() returns (ok: bool)
      requires Valid()
      modifies this`sectors, this`mounted
      ensures Valid() && |sectors| == |old(sectors)|
      ensures forall i :: DATA_LBA <= i < |sectors| ==> sectors[i] == old(sectors)[i]
      ensures ok ==> mounted
      ensures !ok ==> !mounted
      ensures !faulty && old(mounted) ==> ok
    {
      if !mounted {
        return false;
      }
      var image := MetadataImage();
      ok := AtaWrite(5, image);
      if ok {
        image := MetadataImage();
        ok := AtaWrite(6, image);
      }
      if ok {
        image := MetadataImage();
        ok := AtaWrite(4, image);
      }
      mounted := ok;
    }

    /** The run of sectors a write covers, from the old end if that lies before the offset. */
    method WriteSectors(index: nat, from: nat, last: nat, length: nat, offset: nat, data: seq<byte>)
      returns (done: bool)
      requires Valid() && index < MAX_FILES && from <= last < FILE_SECTORS
      modifies this`sectors
      ensures Valid() && OnlySlot(old(sectors), sectors, index)
      ensures done ==> Through(old(sectors), sectors, index, from, last + 1, length, offset, data)
      ensures !faulty ==> done
    {
      hide Through, Patched;
      var current := from;
      ghost var was := sectors;
      ThroughNone(sectors, index, from, length, offset, data);
      while current <= last
        invariant Valid() && from <= current <= last + 1 && OnlySlot(was, sectors, index)
        invariant Through(was, sectors, index, from, current, length, offset, data)
      {
        Shapes(was, sectors, index, from, current, length, offset, data);
        var sector := seq(SECTOR, _ => 0 as byte);
        if current * SECTOR < length {
          var s := AtaRead(Lba(index, current));
          if s.None? {
            return false;
          }
          sector := s.value;
        }
        sector := PatchSector(sector, was[Lba(index, current)], current * SECTOR, length, offset, data);
        PatchedSize(was[Lba(index, current)], sector, current * SECTOR, length, offset, data);
        ThroughOne(was, sectors, index, from, current, length, offset, data, sector);
        var ok := AtaWrite(Lba(index, current), sector);
        if !ok {
          return false;
        }
        current := current + 1;
      }
      return true;
    }

    /** `diskfs_write_slot`: the file reads as before, with zeros in any gap and the new bytes at
        their offset, whatever lay past its old end; no other slot changes, even when it fails. */
    method WriteSlot(index: nat, offset: nat, data: seq<byte>) returns (ok: bool)
      requires Valid()
      modifies this`sectors, this`entries, this`mounted
      ensures Valid() && |sectors| == |old(sectors)|
      ensures ok ==> old(IsFile(index)) && offset + |data| <= CAPACITY
      ensures ok && data != [] ==> File(index) == Sparse(old(File(index)), offset, data)
      ensures ok && data != [] ==> entries == old(entries)[index := old(entries)[index].(length := |File(index)|)]
      ensures !ok ==> entries == old(entries) || !mounted
      ensures data == [] || !old(IsFile(index)) || offset + |data| > CAPACITY ==>
                sectors == old(sectors) && entries == old(entries)
      ensures forall other: nat :: other < MAX_FILES && other != index ==>
                entries[other] == old(entries)[other] && File(other) == old(File(other))
      ensures !faulty && old(mounted) && old(IsFile(index)) && offset + |data| <= CAPACITY ==> ok
    {
      if !IsFile(index) || offset > CAPACITY || |data| > CAPACITY - offset {
        return false;
      }
      if data == [] {
        return true;
      }
      hide Content, Through, Patched, Sparse;
      ghost var was := sectors;
      var length := entries[index].length;
      var longer := if offset + |data| > length then offset + |data| else length;
      var from, last := (if length < offset then length else offset) / SECTOR, (offset + |data| - 1) / SECTOR;
      var done := WriteSectors(index, from, last, length, offset, data);
      ghost var mid := sectors;
      forall other: nat | other < MAX_FILES && other != index
        ensures Content(mid, other, entries[other].length) == Content(was, other, entries[other].length)
      {
        OtherSlot(was, mid, index, other, entries[other].length);
      }
      if !done {
        return false;
      }
      WrittenContent(was, sectors, index, from, last + 1, length, offset, data);
      entries := entries[index := entries[index].(length := longer)];
      ok := StoreMetadata();
      forall k: nat | k < MAX_FILES
        ensures Content(sectors, k, entries[k].length) == Content(mid, k, entries[k].length)
      {
        SlotFrame(mid, sectors, k, entries[k].length);
      }
    }
  }

  /** Writing and then reading the same range returns the data, and reading from the start returns the
      file as it was with zeros in any gap and the data in place. */
  method WriteThenRead(disk: SlotDisk, index: nat, offset: nat, data: seq<byte>)
    returns (back: Option<seq<byte>>, whole: Option<seq<byte>>)
    requires disk.Valid()
    modifies disk`sectors, disk`entries, disk`mounted
    ensures disk.Valid()
    ensures back.Some? ==> old(disk.IsFile(index)) && back.value == data
    ensures whole.Some? && data != [] ==>
              old(disk.IsFile(index)) && whole.value == Sparse(old(disk.File(index)), offset, data)
    ensures !disk.faulty && old(disk.mounted) && old(disk.IsFile(index)) && offset + |data| <= CAPACITY ==>
              back.Some? && whole.Some?
  {
    hide Content, Sparse;
    var ok := disk.WriteSlot(index, offset, data);
    if !ok {
      return None, None;
    }
    if data != [] {
      SparseReadsBack(disk.File(index), old(disk.File(index)), offset, data);
    }
    back := disk.ReadSlot(index, offset, |data|);
    whole := disk.ReadSlot(index, 0, CAPACITY);
  }

  /** Reading in consecutive chunks, until a read comes back empty, returns the file. */
  method ReadChunks(disk: SlotDisk, index: nat, chunk: nat) returns (r: Option<seq<byte>>)
    requires disk.Valid() && chunk > 0
    ensures r.Some? ==> disk.IsFile(index) && r.value == disk.File(index)
    ensures !disk.faulty && disk.IsFile(index) ==> r.Some?
  {
    hide Content, Slice;
    var part := disk.ReadSlot(index, 0, chunk);
    if part.None? {
      return None;
    }
    ghost var file := disk.File(index);
    var read := part.value;
    while part.value != []
      invariant part.Some? && |read| <= |file| && read == file[..|read|]
      invariant part.value == [] ==> |read| == |file|
      decreases |file| - |read|, |part.value|
    {
      part := disk.ReadSlot(index, |read|, chunk);
      if part.None? {
        return None;
      }
      read := read + part.value;
    }
    return Some(read);
  }
}
