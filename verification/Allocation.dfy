/** The block allocator and its persistent bitmap (`allocation.rs`, `allocation_disk.rs`). */
module Allocation {
  import opened Bytes
  import opened Blocks
  import opened Results
  import opened Format

  // ------------------------------------------------------------------------ the allocator

  function CountTrue(s: seq<bool>): (n: nat)
    ensures n <= |s|
  {
    if s == [] then 0 else CountTrue(s[..|s| - 1]) + if s[|s| - 1] then 1 else 0
  }

  lemma {:induction false} CountUpdate(s: seq<bool>, i: nat, v: bool)
    requires i < |s|
    ensures CountTrue(s[i := v]) == CountTrue(s) - (if s[i] then 1 else 0) + (if v then 1 else 0)
  {
    var n := |s| - 1;
    if i == n {
      assert s[i := v][..n] == s[..n];
    } else {
      CountUpdate(s[..n], i, v);
      assert s[i := v][..n] == s[..n][i := v];
    }
  }

  lemma {:induction false} CountZero(s: seq<bool>)
    requires forall i | 0 <= i < |s| :: !s[i]
    ensures CountTrue(s) == 0
  {
    if s != [] {
      CountZero(s[..|s| - 1]);
    }
  }

  lemma {:induction false} CountConcat(a: seq<bool>, b: seq<bool>)
    ensures CountTrue(a + b) == CountTrue(a) + CountTrue(b)
  {
    if b == [] {
      assert a + b == a;
    } else {
      CountConcat(a, b[..|b| - 1]);
      assert (a + b)[..|a + b| - 1] == a + b[..|b| - 1];
    }
  }

  /** An ownership vector: the reserved prefix is never marked. */
  predicate ValidOwned(owned: seq<bool>, reserved: nat) {
    reserved <= |owned| && forall i :: 0 <= i < reserved ==> !owned[i]
  }

  /** `block` is the lowest free data block. */
  predicate LowestFree(owned: seq<bool>, reserved: nat, block: nat) {
    && reserved <= block < |owned| && !owned[block]
    && forall i :: reserved <= i < block ==> owned[i]
  }

  predicate Exhausted(owned: seq<bool>, reserved: nat) {
    forall i :: reserved <= i < |owned| ==> owned[i]
  }

  class BlockAllocator {
    const reserved: nat
    var owned: seq<bool>
    var count: nat

    ghost predicate Valid()
      reads this
    {
      ValidOwned(owned, reserved) && count == CountTrue(owned)
    }

    constructor (totalBlocks: nat, reservedBlocks: nat)
      requires reservedBlocks <= totalBlocks
      ensures Valid() && reserved == reservedBlocks && count == 0
      ensures owned == seq(totalBlocks, _ => false)
    {
      reserved := reservedBlocks;
      owned := seq(totalBlocks, _ => false);
      count := 0;
      new;
      CountZero(owned);
    }

    function FreeBlocks(): (n: int)
      reads this
    {
      |owned| - reserved - count
    }

    /** First fit: the lowest free data block, or an error when none is left. */
    method Allocate() returns (r: Result<u64>)
      requires Valid() && |owned| < U64_LIMIT
      modifies this
      ensures Valid()
      ensures r.Ok? ==> LowestFree(old(owned), reserved, r.value) && owned == old(owned)[r.value := true]
      ensures r.Err? ==> Exhausted(owned, reserved) && unchanged(this)
    {
      var i := reserved;
      while i < |owned| && owned[i]
        invariant reserved <= i <= |owned|
        invariant forall j :: reserved <= j < i ==> owned[j]
      {
        i := i + 1;
      }
      if i == |owned| {
        return Err(Other);
      }
      CountUpdate(owned, i, true);
      owned := owned[i := true];
      count := count + 1;
      return Ok(i);
    }

    method Free(block: u64) returns (r: Result<()>)
      requires Valid()
      modifies this
      ensures Valid()
      ensures r.Ok? <==> reserved <= block < |old(owned)| && old(owned)[block]
      ensures r.Ok? ==> owned == old(owned)[block := false]
      ensures r.Err? ==> unchanged(this)
    {
      if block >= |owned| || block < reserved || !owned[block] {
        return Err(Other);
      }
      CountUpdate(owned, block, false);
      owned := owned[block := false];
      count := count - 1;
      return Ok(());
    }

    function IsOwned(block: u64): (r: Result<bool>)
      reads this
    {
      if block >= |owned| then Err(Other)
      else if block < reserved then Ok(true)
      else Ok(owned[block])
    }

    /** Every block is reserved, allocated or free, and the counter agrees with the vector. */
    lemma Accounting()
      requires Valid()
      ensures reserved + count + FreeBlocks() == |owned| && FreeBlocks() >= 0
      ensures count == CountTrue(owned[reserved..])
    {
      assert owned == owned[..reserved] + owned[reserved..];
      CountConcat(owned[..reserved], owned[reserved..]);
      CountZero(owned[..reserved]);
    }
  }

  // ------------------------------------------------------------------------ bits

  /** Bit `k` of `x`. */
  predicate BitOf(x: nat, k: nat)
    decreases k
  {
    if k == 0 then x % 2 == 1 else BitOf(x / 2, k - 1)
  }

  function Pow2(n: nat): (p: nat)
    ensures p > 0
  {
    if n == 0 then 1 else 2 * Pow2(n - 1)
  }

  /** `x | 1 << k`. */
  function WithBit(x: nat, k: nat): nat
    decreases k
  {
    if k == 0 then 2 * (x / 2) + 1 else 2 * WithBit(x / 2, k - 1) + x % 2
  }

  lemma {:induction false} WithBitBits(x: nat, k: nat, j: nat)
    ensures BitOf(WithBit(x, k), j) <==> j == k || BitOf(x, j)
    decreases k
  {
    if k > 0 && j > 0 {
      WithBitBits(x / 2, k - 1, j - 1);
    }
  }

  lemma {:induction false} WithBitBound(x: nat, k: nat, n: nat)
    requires x < Pow2(n) && k < n
    ensures WithBit(x, k) < Pow2(n)
    decreases k
  {
    if k > 0 {
      WithBitBound(x / 2, k - 1, n - 1);
    }
  }

  lemma {:induction false} BitsDetermine(x: nat, y: nat, n: nat)
    requires x < Pow2(n) && y < Pow2(n)
    requires forall k | 0 <= k < n :: BitOf(x, k) == BitOf(y, k)
    ensures x == y
    decreases n
  {
    if n > 0 {
      assert BitOf(x, 0) == BitOf(y, 0);
      forall k | 0 <= k < n - 1 ensures BitOf(x / 2, k) == BitOf(y / 2, k) {
        assert BitOf(x, k + 1) == BitOf(y, k + 1);
      }
      BitsDetermine(x / 2, y / 2, n - 1);
    }
  }

  lemma ByteIsEightBits()
    ensures Pow2(8) == 256
  {
    assert Pow2(2) == 4 && Pow2(4) == 4 * Pow2(2) && Pow2(6) == 4 * Pow2(4) && Pow2(8) == 4 * Pow2(6);
  }

  predicate Bit(bitmap: seq<byte>, i: nat)
    requires i < 8 * |bitmap|
  {
    BitOf(bitmap[i / 8], i % 8)
  }

  function SetBit(bitmap: seq<byte>, i: nat): (r: seq<byte>)
    requires i < 8 * |bitmap|
    ensures |r| == |bitmap|
    ensures forall j :: 0 <= j < 8 * |bitmap| ==> (Bit(r, j) <==> j == i || Bit(bitmap, j))
  {
    ByteIsEightBits();
    WithBitBound(bitmap[i / 8], i % 8, 8);
    var r := bitmap[i / 8 := WithBit(bitmap[i / 8], i % 8)];
    assert forall j :: 0 <= j < 8 * |bitmap| ==> (Bit(r, j) <==> j == i || Bit(bitmap, j)) by {
      forall j | 0 <= j < 8 * |bitmap| ensures Bit(r, j) <==> j == i || Bit(bitmap, j) {
        if j / 8 == i / 8 {
          WithBitBits(bitmap[i / 8], i % 8, j % 8);
        }
      }
    }
    r
  }

  lemma SameBitsSameBytes(a: seq<byte>, b: seq<byte>)
    requires |a| == |b| && forall i :: 0 <= i < 8 * |a| ==> Bit(a, i) == Bit(b, i)
    ensures a == b
  {
    ByteIsEightBits();
    forall i | 0 <= i < |a| ensures a[i] == b[i] {
      forall k | 0 <= k < 8 ensures BitOf(a[i], k) == BitOf(b[i], k) {
        assert Bit(a, 8 * i + k) == Bit(b, 8 * i + k);
      }
      BitsDetermine(a[i], b[i], 8);
    }
  }

  /** `bitmap` marks exactly the owned blocks. */
  ghost predicate Marks(bitmap: seq<byte>, owned: seq<bool>) {
    && |owned| <= 8 * |bitmap|
    && forall i :: 0 <= i < 8 * |bitmap| ==> (Bit(bitmap, i) <==> i < |owned| && owned[i])
  }

  // ------------------------------------------------------------------------ the persistent image

  const ALLOCATION_MAGIC: seq<byte> := [0x46, 0x53, 0x4c, 0x41, 0x4c, 0x4f, 0x43, 0]  // "FSLALOC\0"
  const ALLOCATION_VERSION: u32 := 1
  const IMAGE_HEADER: nat := 32

  function BitmapLen(sb: Superblock): (n: nat)
    requires ValidGeometry(sb)
    ensures sb.totalBlocks <= 8 * n && 8 * n < sb.totalBlocks + 8
    ensures IMAGE_HEADER + n <= ImageLen(sb)
  {
    AllocationBitmapBytes(sb.totalBlocks).value
  }

  function ImageLen(sb: Superblock): nat {
    sb.allocationBlocks * BLOCK_SIZE
  }

  /** Only data blocks are marked. */
  predicate ValidBits(sb: Superblock, bitmap: seq<byte>) {
    forall i :: 0 <= i < 8 * |bitmap| && (i < ReservedBlocks(sb) || i >= sb.totalBlocks) ==> !Bit(bitmap, i)
  }

  function ImageHeader(len: u64, sum: u32): (s: seq<byte>)
    ensures |s| == IMAGE_HEADER
  {
    ALLOCATION_MAGIC + Le32(ALLOCATION_VERSION) + Le32(0) + Le64(len) + Le32(sum) + Le32(0)
  }

  function AllocImage(crc: Checksum, sb: Superblock, bitmap: seq<byte>): (s: seq<byte>)
    requires ValidGeometry(sb) && |bitmap| == BitmapLen(sb)
    ensures |s| == ImageLen(sb)
  {
    ImageHeader(|bitmap|, crc(bitmap)) + bitmap + Zeros(ImageLen(sb) - IMAGE_HEADER - |bitmap|)
  }

  function ParseAlloc(crc: Checksum, sb: Superblock, image: seq<byte>): (r: Result<seq<byte>>)
    requires ValidGeometry(sb)
  {
    if |image| != ImageLen(sb) || |image| < IMAGE_HEADER then Err(InvalidData)
    else if image[0..8] != ALLOCATION_MAGIC || Read32(image, 8) != ALLOCATION_VERSION then Err(InvalidData)
    else if Read32(image, 12) != 0 || Read32(image, 28) != 0 then Err(InvalidData)
    else if Read64(image, 16) != BitmapLen(sb) then Err(InvalidData)
    else
      var end := IMAGE_HEADER + BitmapLen(sb);
      var bitmap := image[IMAGE_HEADER..end];
      if Read32(image, 24) != crc(bitmap) then Err(InvalidData)
      else if !AllZero(image[end..]) then Err(InvalidData)
      else if !ValidBits(sb, bitmap) then Err(InvalidData)
      else Ok(bitmap)
  }

  lemma HeaderReads(len: u64, sum: u32, rest: seq<byte>)
    ensures var r := ImageHeader(len, sum) + rest;
            && r[0..8] == ALLOCATION_MAGIC && Read32(r, 8) == ALLOCATION_VERSION && Read32(r, 12) == 0
            && Read64(r, 16) == len && Read32(r, 24) == sum && Read32(r, 28) == 0
  {
    hide Le32, Le64;
    var r := ImageHeader(len, sum) + rest;
    assert r[8..12] == Le32(ALLOCATION_VERSION) && r[12..16] == Le32(0) && r[16..24] == Le64(len);
    assert r[24..28] == Le32(sum) && r[28..32] == Le32(0);
    ReadsBack32(r, 8, ALLOCATION_VERSION);
    ReadsBack32(r, 12, 0);
    ReadsBack64(r, 16, len);
    ReadsBack32(r, 24, sum);
    ReadsBack32(r, 28, 0);
  }

  lemma HeaderFrom(r: seq<byte>)
    requires |r| >= IMAGE_HEADER && r[0..8] == ALLOCATION_MAGIC && Read32(r, 8) == ALLOCATION_VERSION
    requires Read32(r, 12) == 0 && Read32(r, 28) == 0
    ensures r[..IMAGE_HEADER] == ImageHeader(Read64(r, 16), Read32(r, 24))
  {
    hide Le32, Le64, Read32, Read64;
    assert r[..IMAGE_HEADER] == r[0..8] + r[8..12] + r[12..16] + r[16..24] + r[24..28] + r[28..32];
  }

  /** A stored bitmap loads as itself, and only stored images load. */
  lemma AllocImageRoundTrips(crc: Checksum, sb: Superblock, bitmap: seq<byte>, image: seq<byte>)
    requires ValidGeometry(sb)
    ensures |bitmap| == BitmapLen(sb) && ValidBits(sb, bitmap) ==>
              ParseAlloc(crc, sb, AllocImage(crc, sb, bitmap)) == Ok(bitmap)
    ensures ParseAlloc(crc, sb, image) == Ok(bitmap) ==>
              |bitmap| == BitmapLen(sb) && ValidBits(sb, bitmap) && image == AllocImage(crc, sb, bitmap)
  {
    hide ImageHeader, Read32, Read64, ValidBits, ValidGeometry, AllocationBitmapBytes;
    if |bitmap| == BitmapLen(sb) && ValidBits(sb, bitmap) {
      var s := AllocImage(crc, sb, bitmap);
      var end := IMAGE_HEADER + |bitmap|;
      assert s == ImageHeader(|bitmap|, crc(bitmap)) + s[IMAGE_HEADER..];
      HeaderReads(|bitmap|, crc(bitmap), s[IMAGE_HEADER..]);
      assert s[IMAGE_HEADER..end] == bitmap;
      assert s[end..] == Zeros(ImageLen(sb) - end);
    }
    if ParseAlloc(crc, sb, image) == Ok(bitmap) {
      var end := IMAGE_HEADER + BitmapLen(sb);
      HeaderFrom(image);
      AllZeroIsZeros(image[end..]);
      assert image == image[..IMAGE_HEADER] + image[IMAGE_HEADER..end] + image[end..];
    }
  }

  function OwnedOf(sb: Superblock, bitmap: seq<byte>): (owned: seq<bool>)
    requires ValidGeometry(sb) && |bitmap| == BitmapLen(sb)
    ensures |owned| == sb.totalBlocks
    ensures forall i :: 0 <= i < sb.totalBlocks ==> owned[i] == Bit(bitmap, i)
    ensures ValidBits(sb, bitmap) ==> ValidOwned(owned, ReservedBlocks(sb))
  {
    seq(sb.totalBlocks, i requires 0 <= i < sb.totalBlocks => Bit(bitmap, i))
  }

  /** The ownership vector an image encodes. */
  function LoadOwned(crc: Checksum, sb: Superblock, image: seq<byte>): (r: Result<seq<bool>>)
    requires ValidGeometry(sb)
    ensures r.Ok? ==> |r.value| == sb.totalBlocks && ValidOwned(r.value, ReservedBlocks(sb))
  {
    var parsed := ParseAlloc(crc, sb, image);
    if parsed.Err? then Err(parsed.kind)
    else
      ParsedBitmap(crc, sb, image);
      Ok(OwnedOf(sb, parsed.value))
  }

  lemma ParsedBitmap(crc: Checksum, sb: Superblock, image: seq<byte>)
    requires ValidGeometry(sb) && ParseAlloc(crc, sb, image).Ok?
    ensures |ParseAlloc(crc, sb, image).value| == BitmapLen(sb) && ValidBits(sb, ParseAlloc(crc, sb, image).value)
  {
    hide ValidBits, Read32, Read64;
  }

  /** The bitmap of `len` bytes marking the owned blocks below `n`. */
  function BitmapOf(len: nat, owned: seq<bool>, n: nat): (bitmap: seq<byte>)
    requires n <= |owned| && n <= 8 * len
    ensures |bitmap| == len
    ensures forall i :: 0 <= i < 8 * len ==> (Bit(bitmap, i) <==> i < n && owned[i])
  {
    if n == 0 then
      assert forall i :: 0 <= i < 8 * len ==> !Bit(Zeros(len), i) by {
        forall i | 0 <= i < 8 * len ensures !Bit(Zeros(len), i) { ZeroHasNoBits(i % 8); }
      }
      Zeros(len)
    else if owned[n - 1] then SetBit(BitmapOf(len, owned, n - 1), n - 1)
    else BitmapOf(len, owned, n - 1)
  }

  lemma BitmapOfMarks(sb: Superblock, owned: seq<bool>)
    requires ValidGeometry(sb) && |owned| == sb.totalBlocks && ValidOwned(owned, ReservedBlocks(sb))
    ensures var bitmap := BitmapOf(BitmapLen(sb), owned, |owned|);
            Marks(bitmap, owned) && ValidBits(sb, bitmap)
  {
  }

  /** `store_allocator` builds it in place, looking at the data blocks only. */
  method BuildBitmap(sb: Superblock, owned: seq<bool>) returns (bitmap: seq<byte>)
    requires ValidGeometry(sb) && |owned| == sb.totalBlocks && ValidOwned(owned, ReservedBlocks(sb))
    ensures bitmap == BitmapOf(BitmapLen(sb), owned, |owned|)
  {
    hide Bit;
    bitmap := Zeros(BitmapLen(sb));
    var block := ReservedBlocks(sb);
    SameBitsSameBytes(bitmap, BitmapOf(BitmapLen(sb), owned, 0));
    SameBitsSameBytes(BitmapOf(BitmapLen(sb), owned, 0), BitmapOf(BitmapLen(sb), owned, block));
    while block < sb.totalBlocks
      invariant ReservedBlocks(sb) <= block <= sb.totalBlocks
      invariant bitmap == BitmapOf(BitmapLen(sb), owned, block)
    {
      if owned[block] {
        bitmap := SetBit(bitmap, block);
      }
      block := block + 1;
    }
  }

  lemma {:induction false} ZeroHasNoBits(k: nat)
    ensures !BitOf(0, k)
    decreases k
  {
    if k > 0 {
      ZeroHasNoBits(k - 1);
    }
  }

  /** Storing an ownership vector and loading it back is the identity. */
  lemma OwnedRoundTrips(crc: Checksum, sb: Superblock, owned: seq<bool>, bitmap: seq<byte>)
    requires ValidGeometry(sb) && |owned| == sb.totalBlocks
    requires |bitmap| == BitmapLen(sb) && Marks(bitmap, owned) && ValidBits(sb, bitmap)
    ensures LoadOwned(crc, sb, AllocImage(crc, sb, bitmap)) == Ok(owned)
  {
    hide ParseAlloc, AllocImage, ValidBits, Bit;
    AllocImageRoundTrips(crc, sb, bitmap, []);
    assert OwnedOf(sb, bitmap) == owned;
  }

  /** A loaded image is the one storing its ownership vector writes. */
  lemma LoadedOwnedIsCanonical(crc: Checksum, sb: Superblock, image: seq<byte>, bitmap: seq<byte>)
    requires ValidGeometry(sb) && LoadOwned(crc, sb, image).Ok?
    requires |bitmap| == BitmapLen(sb) && Marks(bitmap, LoadOwned(crc, sb, image).value)
    ensures image == AllocImage(crc, sb, bitmap)
  {
    hide ParseAlloc, AllocImage, Bit;
    var parsed := ParseAlloc(crc, sb, image).value;
    AllocImageRoundTrips(crc, sb, parsed, image);
    SameBitsSameBytes(parsed, bitmap);
  }

  /** `load_allocator`: claim every data block, then release those the bitmap does not mark. */
  method RebuildAllocator(sb: Superblock, bitmap: seq<byte>) returns (a: BlockAllocator)
    requires ValidGeometry(sb) && |bitmap| == BitmapLen(sb)
    ensures fresh(a) && a.Valid() && a.reserved == ReservedBlocks(sb) && |a.owned| == sb.totalBlocks
    ensures forall i :: ReservedBlocks(sb) <= i < sb.totalBlocks ==> a.owned[i] == Bit(bitmap, i)
    ensures a.reserved + a.count + a.FreeBlocks() == |a.owned|
  {
    hide BitOf, CountTrue;
    var reserved := ReservedBlocks(sb);
    a := new BlockAllocator(sb.totalBlocks, reserved);
    var n := 0;
    while n < sb.totalBlocks - reserved
      invariant 0 <= n <= sb.totalBlocks - reserved
      invariant a.Valid() && fresh(a) && a.reserved == reserved && |a.owned| == sb.totalBlocks
      invariant forall i :: reserved <= i < sb.totalBlocks ==> (a.owned[i] <==> i < reserved + n)
    {
      assert !a.owned[reserved + n];
      var got := a.Allocate();
      assert got == Ok(reserved + n);
      n := n + 1;
    }
    var block := reserved;
    while block < sb.totalBlocks
      invariant reserved <= block <= sb.totalBlocks
      invariant a.Valid() && fresh(a) && a.reserved == reserved && |a.owned| == sb.totalBlocks
      invariant forall i :: reserved <= i < block ==> a.owned[i] == Bit(bitmap, i)
      invariant forall i :: block <= i < sb.totalBlocks ==> a.owned[i]
    {
      if !Bit(bitmap, block) {
        var freed := a.Free(block);
      }
      block := block + 1;
    }
    a.Accounting();
  }
}
