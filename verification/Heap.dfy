/** The kernel heap (`heap.c`): an address-ordered list of blocks that split and coalesce. */
module Heap {
  import opened Results
  import opened Pmm

  const HEADER: nat := 12
  const ALIGN: nat := 4
  const LIMIT: nat := 0x1_0000_0000

  /** A block header and the payload behind it. */
  datatype HBlock = HBlock(addr: nat, size: nat, free: bool)

  function End(b: HBlock): nat {
    b.addr + HEADER + b.size
  }

  predicate Inside(b: HBlock, a: nat) {
    b.addr <= a < End(b)
  }

  /** Some block covers the byte. */
  ghost predicate Covers(bs: seq<HBlock>, a: nat) {
    exists i :: 0 <= i < |bs| && Inside(bs[i], a)
  }

  predicate Sorted(bs: seq<HBlock>) {
    forall i, j :: 0 <= i < j < |bs| ==> End(bs[i]) <= bs[j].addr
  }

  predicate Adjacent(a: HBlock, b: HBlock) {
    End(a) == b.addr
  }

  /** No two neighbouring blocks that touch are both free. */
  predicate Coalesced(bs: seq<HBlock>) {
    forall i :: 0 <= i < |bs| - 1 ==> !(bs[i].free && bs[i + 1].free && Adjacent(bs[i], bs[i + 1]))
  }

  predicate Aligned(bs: seq<HBlock>) {
    forall i :: 0 <= i < |bs| ==> bs[i].addr % ALIGN == 0 && bs[i].size % ALIGN == 0 && bs[i].size > 0
  }

  /** The blocks lie end to end over exactly the bytes of these frames. */
  ghost predicate Tiles(bs: seq<HBlock>, frames: set<nat>) {
    forall a: nat :: Covers(bs, a) <==> a / FRAME_SIZE in frames
  }

  /** The allocated blocks. */
  function Live(bs: seq<HBlock>): set<HBlock> {
    set b | b in bs && !b.free
  }

  // ------------------------------------------------------------------------ lists of blocks

  lemma CoversCons(b: HBlock, bs: seq<HBlock>, a: nat)
    ensures Covers([b] + bs, a) <==> Inside(b, a) || Covers(bs, a)
  {
    var all := [b] + bs;
    if Covers(all, a) {
      var i :| 0 <= i < |all| && Inside(all[i], a);
      if i > 0 {
        assert Inside(bs[i - 1], a);
      }
    }
    if Inside(b, a) {
      assert Inside(all[0], a);
    }
    if Covers(bs, a) {
      var i :| 0 <= i < |bs| && Inside(bs[i], a);
      assert Inside(all[i + 1], a);
    }
  }

  lemma CoversConcat(xs: seq<HBlock>, ys: seq<HBlock>, a: nat)
    ensures Covers(xs + ys, a) <==> Covers(xs, a) || Covers(ys, a)
  {
    var all := xs + ys;
    if Covers(all, a) {
      var i :| 0 <= i < |all| && Inside(all[i], a);
      if i < |xs| {
        assert Inside(xs[i], a);
      } else {
        assert Inside(ys[i - |xs|], a);
      }
    }
    if Covers(xs, a) {
      var i :| 0 <= i < |xs| && Inside(xs[i], a);
      assert Inside(all[i], a);
    }
    if Covers(ys, a) {
      var i :| 0 <= i < |ys| && Inside(ys[i], a);
      assert Inside(all[|xs| + i], a);
    }
  }

  lemma LiveCons(b: HBlock, bs: seq<HBlock>)
    ensures Live([b] + bs) == Live(bs) + if b.free then {} else {b}
  {
  }

  lemma LiveConcat(xs: seq<HBlock>, ys: seq<HBlock>)
    ensures Live(xs + ys) == Live(xs) + Live(ys)
  {
  }

  lemma ListCons(b: HBlock, bs: seq<HBlock>)
    requires Sorted(bs) && Aligned(bs) && (bs != [] ==> End(b) <= bs[0].addr)
    requires b.addr % ALIGN == 0 && b.size % ALIGN == 0 && b.size > 0
    ensures Sorted([b] + bs) && Aligned([b] + bs)
  {
    var all := [b] + bs;
    assert forall i :: 0 < i < |all| ==> all[i] == bs[i - 1];
    assert forall i :: 0 <= i < |bs| ==> bs[0].addr <= bs[i].addr;
  }

  lemma CoalescedCons(b: HBlock, bs: seq<HBlock>)
    requires Coalesced(bs) && (bs != [] ==> !Mergeable(b, bs[0]))
    ensures Coalesced([b] + bs)
  {
    var all := [b] + bs;
    assert forall i :: 0 < i < |all| ==> all[i] == bs[i - 1];
  }

  /** What every reshaping of a list must keep: its bytes, its order and its live blocks. */
  ghost predicate SameHeap(before: seq<HBlock>, after: seq<HBlock>) {
    && (forall a: nat :: Covers(after, a) <==> Covers(before, a))
    && Sorted(after) && Aligned(after) && Live(after) == Live(before)
  }

  // ------------------------------------------------------------------------ coalescing

  function Joined(a: HBlock, b: HBlock): HBlock {
    HBlock(a.addr, a.size + HEADER + b.size, true)
  }

  predicate Mergeable(a: HBlock, b: HBlock) {
    a.free && b.free && Adjacent(a, b)
  }

  /** One pass over the list, joining as it goes. */
  function Merge(bs: seq<HBlock>): (r: seq<HBlock>)
    decreases |bs|
  {
    if |bs| < 2 then bs
    else if Mergeable(bs[0], bs[1]) then Merge([Joined(bs[0], bs[1])] + bs[2..])
    else [bs[0]] + Merge(bs[1..])
  }

  lemma JoinedCovers(bs: seq<HBlock>, a: nat)
    requires |bs| >= 2 && Mergeable(bs[0], bs[1])
    ensures Covers([Joined(bs[0], bs[1])] + bs[2..], a) <==> Covers(bs, a)
  {
    CoversCons(Joined(bs[0], bs[1]), bs[2..], a);
    CoversCons(bs[1], bs[2..], a);
    CoversCons(bs[0], bs[1..], a);
    assert bs == [bs[0]] + bs[1..] && bs[1..] == [bs[1]] + bs[2..];
  }

  lemma JoinedSame(bs: seq<HBlock>)
    requires |bs| >= 2 && Mergeable(bs[0], bs[1]) && Sorted(bs) && Aligned(bs)
    ensures SameHeap(bs, [Joined(bs[0], bs[1])] + bs[2..])
  {
    var after := [Joined(bs[0], bs[1])] + bs[2..];
    forall a: nat ensures Covers(after, a) <==> Covers(bs, a) {
      JoinedCovers(bs, a);
    }
    assert bs == [bs[0], bs[1]] + bs[2..];
    assert forall i :: 1 <= i < |after| ==> after[i] == bs[i + 1];
    assert Live(after) == Live(bs);
  }

  /** The first block of a merged list starts where the list did, and is free only if it did start
      with a free block. */
  lemma {:induction false} MergeHead(bs: seq<HBlock>)
    requires bs != []
    ensures Merge(bs) != [] && Merge(bs)[0].addr == bs[0].addr && Merge(bs)[0].free == bs[0].free
    decreases |bs|
  {
    if |bs| >= 2 && Mergeable(bs[0], bs[1]) {
      MergeHead([Joined(bs[0], bs[1])] + bs[2..]);
    }
  }

  /** Merging keeps everything, and leaves no two free neighbours. */
  lemma {:induction false} MergeKeeps(bs: seq<HBlock>)
    requires Sorted(bs) && Aligned(bs)
    ensures SameHeap(bs, Merge(bs)) && Coalesced(Merge(bs))
    decreases |bs|
  {
    if |bs| < 2 {
    } else if Mergeable(bs[0], bs[1]) {
      JoinedSame(bs);
      MergeKeeps([Joined(bs[0], bs[1])] + bs[2..]);
    } else {
      MergeKeeps(bs[1..]);
      MergeHead(bs[1..]);
      MergeTail(bs, Merge(bs[1..]));
    }
  }

  lemma HeadAligned(bs: seq<HBlock>)
    requires bs != [] && Aligned(bs)
    ensures bs[0].addr % ALIGN == 0 && bs[0].size % ALIGN == 0 && bs[0].size > 0 && Aligned(bs[1..])
  {
  }

  lemma MergeTail(bs: seq<HBlock>, rest: seq<HBlock>)
    requires |bs| >= 2 && Sorted(bs) && Aligned(bs) && !Mergeable(bs[0], bs[1])
    requires SameHeap(bs[1..], rest) && Coalesced(rest) && rest != [] && rest[0].addr == bs[1].addr
    requires rest[0].free == bs[1].free
    ensures SameHeap(bs, [bs[0]] + rest) && Coalesced([bs[0]] + rest)
  {
    hide Covers, Live, Coalesced, Aligned;
    HeadAligned(bs);
    var after := [bs[0]] + rest;
    assert bs == [bs[0]] + bs[1..];
    forall a: nat ensures Covers(after, a) <==> Covers(bs, a) {
      CoversCons(bs[0], rest, a);
      CoversCons(bs[0], bs[1..], a);
    }
    LiveCons(bs[0], rest);
    LiveCons(bs[0], bs[1..]);
    ListCons(bs[0], rest);
    CoalescedCons(bs[0], rest);
  }

  /** `merge_free_blocks`: one pass, joining the current block with its successor or moving on. */
  method MergeFreeBlocks(bs: seq<HBlock>) returns (r: seq<HBlock>)
    ensures r == Merge(bs)
  {
    r := bs;
    var current := 0;
    if bs == [] {
      return;
    }
    while current + 1 < |r|
      invariant 0 <= current < |r|
      invariant r[..current] + Merge(r[current..]) == Merge(bs)
      decreases |r| - current
    {
      var here := r[current..];
      if Mergeable(r[current], r[current + 1]) {
        var joined := r[..current] + [Joined(r[current], r[current + 1])] + r[current + 2..];
        assert joined[current..] == [Joined(here[0], here[1])] + here[2..];
        assert joined[..current] == r[..current];
        r := joined;
      } else {
        assert here[1..] == r[current + 1..];
        assert r[..current] + ([here[0]] + Merge(here[1..])) == r[..current + 1] + Merge(r[current + 1..]);
        current := current + 1;
      }
    }
    assert r[..current] + r[current..] == r;
  }

  // ------------------------------------------------------------------------ growing

  /** `insert_block`: before the first block with a higher address. */
  function Insert(bs: seq<HBlock>, b: HBlock): (r: seq<HBlock>) {
    if bs == [] || b.addr < bs[0].addr then [b] + bs else [bs[0]] + Insert(bs[1..], b)
  }

  /** No byte in common. */
  predicate Apart(a: HBlock, b: HBlock) {
    End(a) <= b.addr || End(b) <= a.addr
  }

  lemma {:induction false} InsertKeeps(bs: seq<HBlock>, b: HBlock)
    requires Sorted(bs) && Aligned(bs) && Aligned([b]) && b.free && forall i :: 0 <= i < |bs| ==> Apart(bs[i], b)
    ensures Sorted(Insert(bs, b)) && Aligned(Insert(bs, b)) && Live(Insert(bs, b)) == Live(bs)
    ensures forall a: nat :: Covers(Insert(bs, b), a) <==> Covers(bs, a) || Inside(b, a)
    ensures forall x :: x in Insert(bs, b) <==> x in bs || x == b
    decreases |bs|
  {
    if bs == [] || b.addr < bs[0].addr {
      InsertFirst(bs, b);
    } else {
      InsertKeeps(bs[1..], b);
      InsertLater(bs, b, Insert(bs[1..], b));
    }
  }

  lemma InsertFirst(bs: seq<HBlock>, b: HBlock)
    requires Sorted(bs) && Aligned(bs) && Aligned([b]) && b.free && (forall i :: 0 <= i < |bs| ==> Apart(bs[i], b))
    requires bs == [] || b.addr < bs[0].addr
    ensures Sorted([b] + bs) && Aligned([b] + bs) && Live([b] + bs) == Live(bs)
    ensures forall a: nat :: Covers([b] + bs, a) <==> Covers(bs, a) || Inside(b, a)
  {
    LiveCons(b, bs);
    assert Aligned([b]) ==> b.addr % ALIGN == 0 && b.size % ALIGN == 0 && b.size > 0 by { assert [b][0] == b; }
    forall a: nat ensures Covers([b] + bs, a) <==> Covers(bs, a) || Inside(b, a) {
      CoversCons(b, bs, a);
    }
  }

  lemma InsertLater(bs: seq<HBlock>, b: HBlock, rest: seq<HBlock>)
    requires bs != [] && Sorted(bs) && Aligned(bs) && bs[0].addr <= b.addr && Apart(bs[0], b) && b.size > 0
    requires Sorted(rest) && Aligned(rest) && Live(rest) == Live(bs[1..])
    requires forall a: nat :: Covers(rest, a) <==> Covers(bs[1..], a) || Inside(b, a)
    requires forall x :: x in rest <==> x in bs[1..] || x == b
    ensures var r := [bs[0]] + rest;
            && Sorted(r) && Aligned(r) && Live(r) == Live(bs)
            && (forall a: nat :: Covers(r, a) <==> Covers(bs, a) || Inside(b, a))
            && (forall x :: x in r <==> x in bs || x == b)
  {
    assert bs == [bs[0]] + bs[1..];
    LiveCons(bs[0], rest);
    LiveCons(bs[0], bs[1..]);
    forall a: nat ensures Covers([bs[0]] + rest, a) <==> Covers(bs, a) || Inside(b, a) {
      CoversCons(bs[0], rest, a);
      CoversCons(bs[0], bs[1..], a);
    }
    forall i | 0 <= i < |rest| ensures End(bs[0]) <= rest[i].addr {
      assert rest[i] in rest;
      if rest[i] != b {
        var j :| 0 <= j < |bs[1..]| && bs[1..][j] == rest[i];
        assert bs[j + 1] == rest[i];
      }
    }
  }

  /** The list walk of `insert_block`. */
  method InsertBlock(bs: seq<HBlock>, b: HBlock) returns (r: seq<HBlock>)
    requires forall i :: 0 <= i < |bs| ==> bs[i].addr != b.addr
    ensures r == Insert(bs, b)
  {
    hide Insert;
    InsertFront(bs, b);
    if bs == [] || b.addr < bs[0].addr {
      return [b] + bs;
    }
    var current := 0;
    InsertStep(bs, b, 0);
    while current + 1 < |bs| && bs[current + 1].addr < b.addr
      invariant 0 <= current < |bs| && bs[current].addr <= b.addr
      invariant Insert(bs, b) == bs[..current] + Insert(bs[current..], b)
      decreases |bs| - current
    {
      InsertStep(bs, b, current);
      current := current + 1;
    }
    InsertStep(bs, b, current);
    InsertFront(bs[current + 1..], b);
    return bs[..current + 1] + [b] + bs[current + 1..];
  }

  lemma InsertFront(bs: seq<HBlock>, b: HBlock)
    ensures bs == [] || b.addr < bs[0].addr ==> Insert(bs, b) == [b] + bs
  {
  }

  lemma InsertStep(bs: seq<HBlock>, b: HBlock, k: nat)
    requires k < |bs|
    ensures bs[..0] + Insert(bs[0..], b) == Insert(bs, b)
    ensures bs[k].addr <= b.addr ==> bs[..k] + Insert(bs[k..], b) == bs[..k + 1] + Insert(bs[k + 1..], b)
  {
    assert bs[0..] == bs;
    assert bs[k..][1..] == bs[k + 1..];
  }

  /** Frames a block of `payload` bytes needs. */
  function Pages(payload: nat): (n: nat)
    ensures n > 0 && (n - 1) * FRAME_SIZE < payload + HEADER <= n * FRAME_SIZE
  {
    (HEADER + payload + FRAME_SIZE - 1) / FRAME_SIZE
  }

  function Grown(f: nat, n: nat): HBlock
    requires n > 0
  {
    HBlock(f * FRAME_SIZE, n * FRAME_SIZE - HEADER, true)
  }

  function RunFrames(f: nat, n: nat): (r: set<nat>)
    ensures forall i :: i in r <==> f <= i < f + n
  {
    if n == 0 then {} else RunFrames(f, n - 1) + {f + n - 1}
  }

  lemma GrownCovers(f: nat, n: nat, a: nat)
    requires n > 0
    ensures Inside(Grown(f, n), a) <==> a / FRAME_SIZE in RunFrames(f, n)
  {
    assert a / FRAME_SIZE in RunFrames(f, n) <==> f <= a / FRAME_SIZE < f + n;
  }

  lemma GrownAligned(f: nat, n: nat, payload: nat)
    requires n == Pages(payload)
    ensures Aligned([Grown(f, n)]) && Grown(f, n).free && Grown(f, n).size >= payload
  {
    hide Pages;
    var b := Grown(f, n);
    assert b.addr == f * 1024 * ALIGN && b.size == (n * 1024 - 3) * ALIGN;
    Multiple(f * 1024);
    Multiple(n * 1024 - 3);
  }

  lemma Multiple(x: nat)
    ensures x * ALIGN % ALIGN == 0
  {
  }

  /** Blocks over other frames have no byte in common with a new run. */
  lemma GrownApart(bs: seq<HBlock>, frames: set<nat>, f: nat, n: nat)
    requires n > 0 && Aligned(bs) && Tiles(bs, frames) && RunFrames(f, n) !! frames
    ensures forall i :: 0 <= i < |bs| ==> Apart(bs[i], Grown(f, n)) && bs[i].addr != Grown(f, n).addr
  {
    var b := Grown(f, n);
    forall i | 0 <= i < |bs| ensures Apart(bs[i], b) && bs[i].addr != b.addr {
      var a := if bs[i].addr > b.addr then bs[i].addr else b.addr;
      GrownCovers(f, n, a);
      assert Inside(bs[i], a) ==> Covers(bs, a);
    }
  }

  predicate Fits(bs: seq<HBlock>, size: nat) {
    exists i :: 0 <= i < |bs| && bs[i].free && bs[i].size >= size
  }

  lemma FitsCons(b: HBlock, bs: seq<HBlock>, size: nat)
    ensures Fits([b] + bs, size) <==> (b.free && b.size >= size) || Fits(bs, size)
  {
    var all := [b] + bs;
    if Fits(bs, size) {
      var i :| 0 <= i < |bs| && bs[i].free && bs[i].size >= size;
      assert all[i + 1] == bs[i];
    }
    assert all[0] == b;
    assert forall i :: 0 < i < |all| ==> all[i] == bs[i - 1];
  }

  /** Coalescing never makes a fitting block disappear. */
  lemma {:induction false} MergeFits(bs: seq<HBlock>, size: nat)
    requires Fits(bs, size)
    ensures Fits(Merge(bs), size)
    decreases |bs|
  {
    if |bs| >= 2 {
      assert bs == [bs[0]] + bs[1..] && bs[1..] == [bs[1]] + bs[2..];
      FitsCons(bs[0], bs[1..], size);
      FitsCons(bs[1], bs[2..], size);
      if Mergeable(bs[0], bs[1]) {
        FitsCons(Joined(bs[0], bs[1]), bs[2..], size);
        MergeFits([Joined(bs[0], bs[1])] + bs[2..], size);
      } else {
        FitsCons(bs[0], Merge(bs[1..]), size);
        if Fits(bs[1..], size) {
          MergeFits(bs[1..], size);
        }
      }
    }
  }

  lemma MemberFits(bs: seq<HBlock>, b: HBlock, size: nat)
    requires b in bs && b.free && b.size >= size
    ensures Fits(bs, size)
  {
  }

  /** A list of blocks over a set of frames, as the heap keeps it. */
  ghost predicate HeapOk(bs: seq<HBlock>, frames: set<nat>) {
    Sorted(bs) && Aligned(bs) && Coalesced(bs) && Tiles(bs, frames)
  }

  /** Adding a run of frames as one free block, in order, and coalescing. */
  lemma GrowKeeps(bs: seq<HBlock>, frames: set<nat>, f: nat, n: nat, payload: nat)
    requires HeapOk(bs, frames) && n == Pages(payload) && RunFrames(f, n) !! frames
    ensures (forall i :: 0 <= i < |bs| ==> bs[i].addr != Grown(f, n).addr)
    ensures var after := Merge(Insert(bs, Grown(f, n)));
            HeapOk(after, frames + RunFrames(f, n)) && Live(after) == Live(bs) && Fits(after, payload)
  {
    hide Covers, Coalesced, Insert, Merge, Sorted, Aligned, Live, RunFrames, Grown;
    var b := Grown(f, n);
    GrownApart(bs, frames, f, n);
    GrownAligned(f, n, payload);
    InsertKeeps(bs, b);
    MergeKeeps(Insert(bs, b));
    MemberFits(Insert(bs, b), b, payload);
    MergeFits(Insert(bs, b), payload);
    forall a: nat ensures Covers(Merge(Insert(bs, b)), a) <==> a / FRAME_SIZE in frames + RunFrames(f, n) {
      GrownCovers(f, n, a);
    }
  }

  // ------------------------------------------------------------------------ allocating

  /** The first free block that is large enough. */
  predicate FirstFit(bs: seq<HBlock>, size: nat, k: nat) {
    k < |bs| && bs[k].free && bs[k].size >= size && forall i :: 0 <= i < k ==> !(bs[i].free && bs[i].size >= size)
  }

  /** The block taken from a free one: it is split when the rest can hold a header and more. */
  function Taken(b: HBlock, size: nat): HBlock {
    HBlock(b.addr, if b.size > size + HEADER + 4 then size else b.size, false)
  }

  function Carve(bs: seq<HBlock>, k: nat, size: nat): (r: seq<HBlock>)
    requires k < |bs|
  {
    var b := bs[k];
    if b.size > size + HEADER + 4 then
      bs[..k] + [Taken(b, size)] + [HBlock(b.addr + HEADER + size, b.size - size - HEADER, true)] + bs[k + 1..]
    else bs[..k] + [Taken(b, size)] + bs[k + 1..]
  }

  lemma CarveCovers(bs: seq<HBlock>, k: nat, size: nat, a: nat)
    requires k < |bs|
    ensures Covers(Carve(bs, k, size), a) <==> Covers(bs, a)
  {
    hide Covers;
    var b := bs[k];
    assert bs == bs[..k] + ([b] + bs[k + 1..]);
    CoversConcat(bs[..k], [b] + bs[k + 1..], a);
    CoversCons(b, bs[k + 1..], a);
    if b.size > size + HEADER + 4 {
      var rest := HBlock(b.addr + HEADER + size, b.size - size - HEADER, true);
      assert Carve(bs, k, size) == bs[..k] + ([Taken(b, size)] + ([rest] + bs[k + 1..]));
      CoversConcat(bs[..k], [Taken(b, size)] + ([rest] + bs[k + 1..]), a);
      CoversCons(Taken(b, size), [rest] + bs[k + 1..], a);
      CoversCons(rest, bs[k + 1..], a);
    } else {
      assert Carve(bs, k, size) == bs[..k] + ([Taken(b, size)] + bs[k + 1..]);
      CoversConcat(bs[..k], [Taken(b, size)] + bs[k + 1..], a);
      CoversCons(Taken(b, size), bs[k + 1..], a);
    }
  }

  lemma CarveLive(bs: seq<HBlock>, k: nat, size: nat)
    requires k < |bs| && bs[k].free
    ensures Live(Carve(bs, k, size)) == Live(bs) + {Taken(bs[k], size)}
  {
    var b := bs[k];
    assert bs == bs[..k] + ([b] + bs[k + 1..]);
    LiveConcat(bs[..k], [b] + bs[k + 1..]);
    LiveCons(b, bs[k + 1..]);
    if b.size > size + HEADER + 4 {
      var rest := HBlock(b.addr + HEADER + size, b.size - size - HEADER, true);
      assert Carve(bs, k, size) == bs[..k] + ([Taken(b, size)] + ([rest] + bs[k + 1..]));
      LiveConcat(bs[..k], [Taken(b, size)] + ([rest] + bs[k + 1..]));
      LiveCons(Taken(b, size), [rest] + bs[k + 1..]);
      LiveCons(rest, bs[k + 1..]);
    } else {
      assert Carve(bs, k, size) == bs[..k] + ([Taken(b, size)] + bs[k + 1..]);
      LiveConcat(bs[..k], [Taken(b, size)] + bs[k + 1..]);
      LiveCons(Taken(b, size), bs[k + 1..]);
    }
  }

  lemma CarveSorted(bs: seq<HBlock>, k: nat, size: nat)
    requires Sorted(bs) && k < |bs| && bs[k].size >= size
    ensures Sorted(Carve(bs, k, size))
  {
    hide Carve;
    forall i, j | 0 <= i < j < |Carve(bs, k, size)| ensures End(Carve(bs, k, size)[i]) <= Carve(bs, k, size)[j].addr {
      var i', j' := CarvedFrom(bs, k, size, i), CarvedFrom(bs, k, size, j);
      CarveAt(bs, k, size, i);
      CarveAt(bs, k, size, j);
    }
  }

  /** The block that a block after carving lies in. */
  function CarvedFrom(bs: seq<HBlock>, k: nat, size: nat, i: nat): nat
    requires k < |bs|
  {
    if i > k && bs[k].size > size + HEADER + 4 then i - 1 else i
  }

  lemma CarveAt(bs: seq<HBlock>, k: nat, size: nat, i: nat)
    requires k < |bs| && bs[k].size >= size && i < |Carve(bs, k, size)|
    ensures var after, i' := Carve(bs, k, size), CarvedFrom(bs, k, size, i);
            && i' < |bs| && bs[i'].addr <= after[i].addr && End(after[i]) <= End(bs[i'])
            && (i' != k ==> after[i] == bs[i'])
            && (i == k + 1 && i' == k ==> after[i].addr == End(Taken(bs[k], size)))
            && (i == k ==> after[i] == Taken(bs[k], size))
  {
  }

  lemma CarveAligned(bs: seq<HBlock>, k: nat, size: nat)
    requires Aligned(bs) && k < |bs| && bs[k].size >= size > 0 && size % ALIGN == 0
    ensures Aligned(Carve(bs, k, size))
  {
    var after, b := Carve(bs, k, size), bs[k];
    if b.size > size + HEADER + 4 {
      RestAligned(b, size);
      assert forall i :: 0 <= i < |after| ==>
        after[i] == if i < k then bs[i] else if i == k then Taken(b, size)
            else if i == k + 1 then HBlock(b.addr + HEADER + size, b.size - size - HEADER, true) else bs[i - 1];
    } else {
      assert forall i :: 0 <= i < |after| ==> after[i] == if i == k then Taken(b, size) else bs[i];
    }
  }

  lemma RestAligned(b: HBlock, size: nat)
    requires b.addr % ALIGN == 0 && b.size % ALIGN == 0 && size % ALIGN == 0 && b.size > size + HEADER
    ensures (b.addr + HEADER + size) % ALIGN == 0 && (b.size - size - HEADER) % ALIGN == 0
  {
  }

  lemma CarveCoalesced(bs: seq<HBlock>, k: nat, size: nat)
    requires Coalesced(bs) && k < |bs| && bs[k].free && bs[k].size >= size
    ensures Coalesced(Carve(bs, k, size))
  {
    var after, b := Carve(bs, k, size), bs[k];
    assert forall i :: 0 <= i < k ==> after[i] == bs[i];
    assert !after[k].free;
    if b.size > size + HEADER + 4 {
      assert End(after[k + 1]) == End(b) && after[k + 1].free == b.free;
      assert forall i :: k + 2 <= i < |after| ==> after[i] == bs[i - 1];
    } else {
      assert forall i :: k + 1 <= i < |after| ==> after[i] == bs[i];
    }
  }

  /** Allocation from a fitting block: one new live block, everything else as it was. */
  lemma CarveKeeps(bs: seq<HBlock>, frames: set<nat>, k: nat, size: nat)
    requires HeapOk(bs, frames) && k < |bs| && bs[k].free && bs[k].size >= size > 0 && size % ALIGN == 0
    ensures HeapOk(Carve(bs, k, size), frames)
    ensures Live(Carve(bs, k, size)) == Live(bs) + {Taken(bs[k], size)} && Taken(bs[k], size) !in bs
  {
    hide Covers, Coalesced, Carve, Live, Aligned;
    CarveSorted(bs, k, size);
    CarveAligned(bs, k, size);
    CarveCoalesced(bs, k, size);
    CarveLive(bs, k, size);
    TakenIsNew(bs, k, size);
    forall a: nat ensures Covers(Carve(bs, k, size), a) <==> a / FRAME_SIZE in frames {
      CarveCovers(bs, k, size, a);
    }
  }

  /** `b` lies at the start of the first free block of `before` that is large enough.  It has the size asked for,
      or all of that block when too little would be left over; what is left over is a free block, and every other
      block is kept. */
  ghost predicate Splits(before: seq<HBlock>, after: seq<HBlock>, size: nat, b: HBlock) {
    exists k: nat :: FirstFit(before, size, k) && SplitsAt(before, after, size, b, before[k])
  }

  ghost predicate SplitsAt(before: seq<HBlock>, after: seq<HBlock>, size: nat, b: HBlock, whole: HBlock) {
    && b.addr == whole.addr && !b.free && (b.size == size || b.size == whole.size)
    && size <= b.size <= size + HEADER + 4
    && (b.size < whole.size ==> Leftover(whole, b).size > 4)
    && forall x :: x in after <==>
         (x in before && x != whole) || x == b || (b.size < whole.size && x == Leftover(whole, b))
  }

  /** The bytes of a block behind the block taken from it. */
  function Leftover(whole: HBlock, b: HBlock): HBlock {
    HBlock(End(b), if End(whole) > End(b) + HEADER then End(whole) - End(b) - HEADER else 0, true)
  }

  lemma CarveSplits(bs: seq<HBlock>, k: nat, size: nat)
    requires Sorted(bs) && FirstFit(bs, size, k)
    ensures Splits(bs, Carve(bs, k, size), size, Taken(bs[k], size))
  {
    hide Sorted;
    var whole, b, after := bs[k], Taken(bs[k], size), Carve(bs, k, size);
    forall x ensures x in after <==>
        (x in bs && x != whole) || x == b || (b.size < whole.size && x == Leftover(whole, b))
    {
      CarveMembers(bs, k, size, x);
    }
  }

  lemma CarveMembers(bs: seq<HBlock>, k: nat, size: nat, x: HBlock)
    requires Sorted(bs) && k < |bs| && bs[k].size >= size
    ensures var whole, b := bs[k], Taken(bs[k], size);
            x in Carve(bs, k, size) <==>
              (x in bs && x != whole) || x == b || (b.size < whole.size && x == Leftover(whole, b))
  {
    var whole := bs[k];
    assert bs == bs[..k] + [whole] + bs[k + 1..];
    assert whole !in bs[..k] && whole !in bs[k + 1..];
  }

  /** A free block with room for two requests serves both. */
  lemma SplitLeavesRoom(before: seq<HBlock>, after: seq<HBlock>, size: nat, b: HBlock, next: nat)
    requires Splits(before, after, size, b) && next > 4 && Fits(before, size + HEADER + next)
    ensures Fits(after, next)
  {
    var k: nat :| FirstFit(before, size, k) && SplitsAt(before, after, size, b, before[k]);
    var i :| 0 <= i < |before| && before[i].free && before[i].size >= size + HEADER + next;
    var kept := if before[i] == before[k] then Leftover(before[k], b) else before[i];
    assert kept in after;
    MemberFits(after, kept, next);
  }

  lemma TakenIsNew(bs: seq<HBlock>, k: nat, size: nat)
    requires Sorted(bs) && k < |bs| && bs[k].free
    ensures Taken(bs[k], size) !in bs
  {
    forall j | 0 <= j < |bs| ensures bs[j] != Taken(bs[k], size) {
      assert j < k ==> End(bs[j]) <= bs[k].addr;
      assert k < j ==> End(bs[k]) <= bs[j].addr;
    }
  }

  // ------------------------------------------------------------------------ freeing

  function Freed(bs: seq<HBlock>, k: nat): (r: seq<HBlock>)
    requires k < |bs|
  {
    bs[k := bs[k].(free := true)]
  }

  lemma FreedKeeps(bs: seq<HBlock>, frames: set<nat>, k: nat)
    requires HeapOk(bs, frames) && k < |bs| && !bs[k].free
    ensures HeapOk(Merge(Freed(bs, k)), frames) && Live(Merge(Freed(bs, k))) == Live(bs) - {bs[k]}
  {
    hide Coalesced, Merge;
    var marked := Freed(bs, k);
    assert forall i :: 0 <= i < |bs| ==> marked[i].addr == bs[i].addr && marked[i].size == bs[i].size;
    forall a: nat ensures Covers(marked, a) <==> Covers(bs, a) {
      FreedCovers(bs, k, a);
    }
    MergeKeeps(marked);
    FreedLive(bs, k);
  }

  lemma FreedCovers(bs: seq<HBlock>, k: nat, a: nat)
    requires k < |bs|
    ensures Covers(Freed(bs, k), a) <==> Covers(bs, a)
  {
    var marked := Freed(bs, k);
    if Covers(bs, a) {
      var i :| 0 <= i < |bs| && Inside(bs[i], a);
      assert Inside(marked[i], a);
    }
    if Covers(marked, a) {
      var i :| 0 <= i < |bs| && Inside(marked[i], a);
      assert Inside(bs[i], a);
    }
  }

  lemma FreedLive(bs: seq<HBlock>, k: nat)
    requires Sorted(bs) && k < |bs|
    ensures Live(Freed(bs, k)) == Live(bs) - {bs[k]}
  {
    var marked := Freed(bs, k);
    forall b ensures b in Live(marked) <==> b in Live(bs) && b != bs[k] {
      if b in Live(bs) && b != bs[k] {
        var i :| 0 <= i < |bs| && bs[i] == b;
        assert marked[i] == b;
      }
      if b in Live(marked) {
        var i :| 0 <= i < |bs| && marked[i] == b;
        assert i != k && bs[i] == b;
        assert i < k ==> End(bs[i]) <= bs[k].addr;
        assert k < i ==> End(bs[k]) <= bs[i].addr;
      }
    }
  }

  /** Live payloads never overlap, and lie in the heap's frames. */
  lemma LiveIsDisjoint(bs: seq<HBlock>, frames: set<nat>, a: HBlock, b: HBlock)
    requires HeapOk(bs, frames) && a in Live(bs) && b in Live(bs) && a != b
    ensures Apart(a, b)
    ensures forall x: nat :: Inside(a, x) ==> x / FRAME_SIZE in frames
    ensures (a.addr + HEADER) % ALIGN == 0 && a.size > 0
  {
    hide Coalesced, Tiles, Aligned;
    LiveInFrames(bs, frames, a);
    LiveIsAligned(bs, a);
    var i :| 0 <= i < |bs| && bs[i] == a;
    var j :| 0 <= j < |bs| && bs[j] == b;
    assert i < j || j < i;
  }

  lemma LiveInFrames(bs: seq<HBlock>, frames: set<nat>, a: HBlock)
    requires Tiles(bs, frames) && a in bs
    ensures forall x: nat :: Inside(a, x) ==> x / FRAME_SIZE in frames
  {
    hide Inside;
    forall x: nat | Inside(a, x) ensures x / FRAME_SIZE in frames {
      assert Covers(bs, x);
    }
  }

  lemma LiveIsAligned(bs: seq<HBlock>, a: HBlock)
    requires Aligned(bs) && a in bs
    ensures (a.addr + HEADER) % ALIGN == 0 && a.size > 0
  {
    var i :| 0 <= i < |bs| && bs[i] == a;
    assert bs[i].addr % ALIGN == 0;
  }

  // ------------------------------------------------------------------------ when allocation fails

  function RoundUp(size: nat): nat {
    (size + ALIGN - 1) / ALIGN * ALIGN
  }

  predicate ValidRequest(request: nat) {
    0 < request <= LIMIT - 1 - (ALIGN - 1)
  }

  /** `heap_grow` can serve this payload. */
  predicate CanGrow(used: seq<bool>, limit: nat, payload: nat) {
    payload <= LIMIT - 1 - HEADER - (FRAME_SIZE - 1) && HasRun(used, limit, Pages(payload))
  }

  /** A free run of `n` frames went from the frame map to the heap. */
  ghost predicate TookRun(used: seq<bool>, limit: nat, n: nat, after: seq<bool>, frames: set<nat>, grown: set<nat>) {
    exists f: nat ::
      FreeRun(used, limit, f, n) && after == Marked(used, f, n, true) && grown == frames + RunFrames(f, n)
  }

  /** The frame map once the lowest free frame is taken. */
  ghost predicate TookLowest(used: seq<bool>, limit: nat, after: seq<bool>) {
    exists f: nat :: IsLowestFree(used, limit, f) && after == Marked(used, f, 1, true)
  }

  predicate IsLowestFree(used: seq<bool>, limit: nat, f: nat) {
    FreeRun(used, limit, f, 1) && forall g :: 0 <= g < f ==> !FreeRun(used, limit, g, 1)
  }

  /** Exactly when a request fails: nothing on the list fits and the frames cannot supply it.  An
      empty heap first takes one frame of its own, so it must find its run among the others. */
  ghost predicate Fails(bs: seq<HBlock>, used: seq<bool>, limit: nat, request: nat) {
    var size := RoundUp(request);
    || !ValidRequest(request)
    || (bs != [] && !Fits(bs, size) && !CanGrow(used, limit, size))
    || (bs == [] && !HasRun(used, limit, 1))
    || (bs == [] && size > FRAME_SIZE - HEADER && forall after :: TookLowest(used, limit, after) ==>
        !CanGrow(after, limit, size))
  }

  /** Every run of `n` frames starts at the lowest free frame: taking that one leaves no such run. */
  ghost predicate LowestInEveryRun(used: seq<bool>, limit: nat, n: nat) {
    forall g: nat, h: nat :: FreeRun(used, limit, g, n) && FreeRun(used, limit, h, 1) ==> g <= h
  }

  lemma RunAfterTaking(used: seq<bool>, limit: nat, after: seq<bool>, n: nat)
    requires TookLowest(used, limit, after) && n >= 2
    ensures HasRun(after, limit, n) <==> HasRun(used, limit, n) && !LowestInEveryRun(used, limit, n)
  {
    var f :| IsLowestFree(used, limit, f) && after == Marked(used, f, 1, true);
    forall g | 0 <= g < limit ensures FreeRun(after, limit, g, n) <==> FreeRun(used, limit, g, n) && g > f {
      if FreeRun(used, limit, g, n) {
        assert FreeRun(used, limit, g, 1);
        assert FreeRun(after, limit, g, n) ==> !after[g];
      }
      if FreeRun(after, limit, g, n) {
        forall i | g <= i < g + n ensures !used[i] {
          assert !after[i];
        }
        assert !after[g];
        assert FreeRun(used, limit, g, 1);
      }
    }
    if g :| 0 <= g < limit && FreeRun(used, limit, g, n) && g > f {
      assert FreeRun(after, limit, g, n);
    }
  }

  /** Exactly when a valid request fails although the frames hold a run large enough: on an empty heap
      that needs more than the one frame it starts from, when every such run starts at that frame. */
  lemma FailsDespiteARun(bs: seq<HBlock>, used: seq<bool>, limit: nat, request: nat)
    requires ValidRequest(request) && limit <= |used| == MAX_FRAMES
    ensures var n := Pages(RoundUp(request));
            Fails(bs, used, limit, request) && HasRun(used, limit, n) <==>
            bs == [] && n >= 2 && HasRun(used, limit, n) && LowestInEveryRun(used, limit, n)
  {
    hide LowestInEveryRun, TookLowest, FreeRun, Fits, RoundUp;
    var size := RoundUp(request);
    var n := Pages(size);
    if HasRun(used, limit, n) {
      RunIsSmall(used, limit, n);
      assert CanGrow(used, limit, size);
      GrowOne(used, limit, size);
      var after := TakeLowest(used, limit);
      OneLowest(used, limit, after);
      if n >= 2 {
        RunAfterTaking(used, limit, after, n);
      }
    }
  }

  lemma RunIsSmall(used: seq<bool>, limit: nat, n: nat)
    requires limit <= |used| == MAX_FRAMES && HasRun(used, limit, n)
    ensures n < MAX_FRAMES
  {
  }

  lemma TakeLowest(used: seq<bool>, limit: nat) returns (after: seq<bool>)
    requires HasRun(used, limit, 1)
    ensures TookLowest(used, limit, after)
  {
    var f: nat := 0;
    while !FreeRun(used, limit, f, 1)
      invariant f <= limit && forall g :: 0 <= g < f ==> !FreeRun(used, limit, g, 1)
      decreases limit - f
    {
      f := f + 1;
    }
    after := Marked(used, f, 1, true);
  }

  /** On a heap that is not empty a valid request fails only when there is no run large enough. */
  lemma NonEmptyHeapNeedsARun(bs: seq<HBlock>, used: seq<bool>, limit: nat, request: nat)
    requires bs != [] && ValidRequest(request) && limit <= |used| == MAX_FRAMES
    ensures Fails(bs, used, limit, request) ==> !HasRun(used, limit, Pages(RoundUp(request)))
  {
    FailsDespiteARun(bs, used, limit, request);
  }

  /** On an empty one it can fail all the same: a machine with two free frames, asked for two, takes
      the first for the heap itself. */
  method FreshHeapCanFail() returns (r: Option<nat>, used: seq<bool>, limit: nat)
    ensures limit <= |used| == MAX_FRAMES && HasRun(used, limit, Pages(RoundUp(5000)))
    ensures ValidRequest(5000) && r.None?
  {
    var frameMap := new FrameMap(16);
    frameMap.InitRegion(FRAME_SIZE, 2 * FRAME_SIZE);
    used, limit := frameMap.used, frameMap.maxBlocks;
    var heap := new KernelHeap(frameMap);
    assert RoundUp(5000) == 5000 && Pages(5000) == 2;
    assert limit == 4 && used[0] && !used[1] && !used[2] && used[3];
    assert FreeRun(used, limit, 1, 2) && FreeRun(used, limit, 1, 1);
    FailsDespiteARun([], used, limit, 5000);
    r := heap.Kmalloc(5000);
  }

  // ------------------------------------------------------------------------ the heap

  class KernelHeap {
    const pmm: FrameMap
    var blocks: seq<HBlock>
    var pages: nat
    ghost var frames: set<nat>

    ghost predicate Valid()
      reads this, pmm
    {
      && pmm.Valid() && HeapOk(blocks, frames) && pages == |frames|
      && forall f :: f in frames ==> f < MAX_FRAMES && pmm.used[f]
    }

    constructor (map_: FrameMap)
      requires map_.Valid()
      ensures Valid() && pmm == map_ && blocks == [] && frames == {}
    {
      pmm, blocks, pages, frames := map_, [], 0, {};
    }

    /** `heap_grow`. */
    method Grow(payload: nat) returns (ok: bool)
      requires Valid()
      modifies this, pmm
      ensures Valid() && pmm.maxBlocks == old(pmm.maxBlocks)
      ensures ok <==> CanGrow(old(pmm.used), pmm.maxBlocks, payload)
      ensures ok ==> Live(blocks) == Live(old(blocks)) && Fits(blocks, payload)
      ensures ok ==> TookRun(old(pmm.used), pmm.maxBlocks, Pages(payload), pmm.used, old(frames), frames)
      ensures ok && payload == 1 ==> TookLowest(old(pmm.used), pmm.maxBlocks, pmm.used)
      ensures ok && old(blocks) == [] ==> exists f :: blocks == [Grown(f, Pages(payload))]
      ensures !ok ==> blocks == old(blocks) && frames == old(frames) && pmm.used == old(pmm.used)
    {
      hide HeapOk, Live, Fits, RunFrames, TookLowest;
      if payload > LIMIT - 1 - HEADER - (FRAME_SIZE - 1) {
        return false;
      }
      var count := (HEADER + payload + FRAME_SIZE - 1) / FRAME_SIZE;
      assert count == Pages(payload);
      var first := pmm.AllocBlocks(count);
      if first.None? {
        return false;
      }
      FrameRun(frames, old(pmm.used), pmm.maxBlocks, first.value, count);
      GrowKeeps(blocks, frames, first.value, count, payload);
      var block := Grown(first.value, count);
      var inserted := InsertBlock(blocks, block);
      blocks := MergeFreeBlocks(inserted);
      pages := pages + count;
      frames := frames + RunFrames(first.value, count);
      if payload == 1 {
        IsLowest(old(pmm.used), pmm.maxBlocks, first.value);
      }
      return true;
    }

    method FindFit(size: nat) returns (r: Option<nat>)
      ensures r.Some? ==> FirstFit(blocks, size, r.value)
      ensures r.None? <==> !Fits(blocks, size)
    {
      var i := 0;
      while i < |blocks|
        invariant 0 <= i <= |blocks|
        invariant forall j :: 0 <= j < i ==> !(blocks[j].free && blocks[j].size >= size)
      {
        if blocks[i].free && blocks[i].size >= size {
          return Some(i);
        }
        i := i + 1;
      }
      return None;
    }

    /** A fitting block, grown into being if need be. */
    method FitOrGrow(size: nat) returns (r: Option<nat>)
      requires Valid()
      modifies this, pmm
      ensures Valid() && Live(blocks) == Live(old(blocks))
      ensures r.Some? ==> FirstFit(blocks, size, r.value)
      ensures Fits(old(blocks), size) ==> blocks == old(blocks) && frames == old(frames) && pmm.used == old(pmm.used)
      ensures r.None? <==> !Fits(old(blocks), size) && !CanGrow(old(pmm.used), old(pmm.maxBlocks), size)
    {
      hide HeapOk, Live, CanGrow, TookRun;
      r := FindFit(size);
      if r.None? {
        var grown := Grow(size);
        if grown {
          r := FindFit(size);
        }
      }
    }

    /** `kmalloc`: a new live block of the requested size, or a little more, split off the first free
        block that is large enough; or -- exactly when `Fails` says -- nothing. */
    method Kmalloc(request: nat) returns (r: Option<nat>)
      requires Valid()
      modifies this, pmm
      ensures Valid()
      ensures r.None? <==> Fails(old(blocks), old(pmm.used), old(pmm.maxBlocks), request)
      ensures r.None? ==> Live(blocks) == Live(old(blocks))
      ensures Fits(old(blocks), RoundUp(request)) ==> frames == old(frames) && pmm.used == old(pmm.used)
      ensures r.Some? ==>
                exists b, before ::
                  && b !in Live(old(blocks)) && Live(blocks) == Live(old(blocks)) + {b} && r.value == b.addr + HEADER
                  && request <= b.size <= RoundUp(request) + HEADER + 4
                  && Splits(before, blocks, RoundUp(request), b)
                  && HeapOk(before, frames) && Live(before) == Live(old(blocks))
                  && (Fits(old(blocks), RoundUp(request)) ==> before == old(blocks))
    {
      hide HeapOk, Live, CanGrow, TookLowest, TookRun, Fits, RoundUp, HasRun, Splits;
      if request == 0 || request > LIMIT - 1 - (ALIGN - 1) {
        return None;
      }
      var size := RoundUp(request);
      Rounded(request);
      ghost var used0, limit := pmm.used, pmm.maxBlocks;
      if blocks == [] {
        GrowOne(used0, limit, size);
        NoBlock(size);
        var started := Grow(1);
        if started {
          OneBlock(blocks, size);
          OneLowest(used0, limit, pmm.used);
        }
      }
      var fit := FitOrGrow(size);
      if fit.None? {
        return None;
      }
      CarveKeeps(blocks, frames, fit.value, size);
      ghost var b, before := Taken(blocks[fit.value], size), blocks;
      r := Some(blocks[fit.value].addr + HEADER);
      LiveAreListed(blocks);
      HeapSplits(blocks, frames, fit.value, size);
      blocks := Carve(blocks, fit.value, size);
      assert Splits(before, blocks, size, b) && HeapOk(before, frames) && Live(before) == Live(old(blocks));
      assert request <= b.size <= size + HEADER + 4;
    }

    /** `kfree` of a live pointer, or of none. */
    method Kfree(pointer: nat, ghost b: HBlock)
      requires Valid() && (pointer != 0 ==> b in Live(blocks) && pointer == b.addr + HEADER)
      modifies this
      ensures Valid() && frames == old(frames)
      ensures Live(blocks) == if pointer == 0 then Live(old(blocks)) else Live(old(blocks)) - {b}
    {
      hide Tiles, Coalesced;
      if pointer == 0 {
        return;
      }
      // The header in front of the pointer: the block whose address it is.
      var k := 0;
      ghost var at :| 0 <= at < |blocks| && blocks[at] == b;
      while blocks[k].addr + HEADER != pointer
        invariant 0 <= k <= at && b == blocks[at]
        decreases at - k
      {
        k := k + 1;
      }
      OneBlockPerAddress(blocks, k, at);
      FreedKeeps(blocks, frames, k);
      blocks := MergeFreeBlocks(Freed(blocks, k));
    }
  }

  lemma HeapSplits(bs: seq<HBlock>, frames: set<nat>, k: nat, size: nat)
    requires HeapOk(bs, frames) && FirstFit(bs, size, k)
    ensures Splits(bs, Carve(bs, k, size), size, Taken(bs[k], size))
  {
    CarveSplits(bs, k, size);
  }

  /** Two requests that fit one free block, with a header between them, are both served without growing. */
  method AllocateTwo(heap: KernelHeap, first: nat, second: nat) returns (a: Option<nat>, b: Option<nat>)
    requires heap.Valid()
    modifies heap, heap.pmm
    ensures heap.Valid()
    ensures ValidRequest(first) && ValidRequest(second) && RoundUp(second) > 4 &&
            Fits(old(heap.blocks), RoundUp(first) + HEADER + RoundUp(second)) ==>
              a.Some? && b.Some? && heap.frames == old(heap.frames) && heap.pmm.used == old(heap.pmm.used)
  {
    hide HeapOk, Live, CanGrow, Fits, RoundUp, Splits, HasRun, TookLowest;
    ghost var blocks0 := heap.blocks;
    ghost var size, next := RoundUp(first), RoundUp(second);
    ghost var roomy := next > 4 && Fits(blocks0, size + HEADER + next);
    if roomy {
      FitsLess(blocks0, size, size + HEADER + next);
    }
    a := heap.Kmalloc(first);
    if roomy && a.Some? {
      ghost var taken :| Splits(blocks0, heap.blocks, size, taken);
      SplitLeavesRoom(blocks0, heap.blocks, size, taken, next);
    }
    b := heap.Kmalloc(second);
  }

  lemma FitsLess(bs: seq<HBlock>, size: nat, larger: nat)
    requires Fits(bs, larger) && size <= larger
    ensures Fits(bs, size) && bs != []
  {
    var i :| 0 <= i < |bs| && bs[i].free && bs[i].size >= larger;
    assert bs[i].size >= size;
  }

  lemma OneBlockPerAddress(bs: seq<HBlock>, i: nat, j: nat)
    requires Sorted(bs) && i <= j < |bs| && bs[i].addr == bs[j].addr
    ensures i == j
  {
  }

  lemma Rounded(request: nat)
    ensures RoundUp(request) % ALIGN == 0 && request <= RoundUp(request) < request + ALIGN
  {
  }

  lemma LiveAreListed(bs: seq<HBlock>)
    ensures forall b :: b in Live(bs) ==> b in bs
  {
  }

  /** A new run has no frame in common with the heap, and adds its length. */
  lemma FrameRun(frames: set<nat>, used: seq<bool>, limit: nat, f: nat, count: nat)
    requires FreeRun(used, limit, f, count) && forall g :: g in frames ==> g < |used| && used[g]
    ensures RunFrames(f, count) !! frames && |frames + RunFrames(f, count)| == |frames| + count
  {
    RunSize(f, count);
    assert frames !! RunFrames(f, count);
  }

  lemma {:induction false} RunSize(f: nat, count: nat)
    ensures |RunFrames(f, count)| == count
  {
    if count > 0 {
      RunSize(f, count - 1);
    }
  }

  /** Starting an empty heap needs one frame, and so does any other growth. */
  lemma GrowOne(used: seq<bool>, limit: nat, size: nat)
    ensures CanGrow(used, limit, 1) <==> HasRun(used, limit, 1)
    ensures CanGrow(used, limit, size) ==> HasRun(used, limit, 1)
  {
    assert Pages(1) == 1;
    if CanGrow(used, limit, size) {
      var f :| 0 <= f < limit && FreeRun(used, limit, f, Pages(size));
      assert FreeRun(used, limit, f, 1);
    }
  }

  lemma OneBlock(bs: seq<HBlock>, size: nat)
    requires exists f :: bs == [Grown(f, Pages(1))]
    ensures Fits(bs, size) <==> size <= FRAME_SIZE - HEADER
  {
    assert Pages(1) == 1;
    assert bs[0].free && bs[0].size == FRAME_SIZE - HEADER;
  }

  lemma NoBlock(size: nat)
    ensures !Fits([], size)
  {
  }

  lemma IsLowest(used: seq<bool>, limit: nat, f: nat)
    requires IsLowestFree(used, limit, f)
    ensures TookLowest(used, limit, Marked(used, f, 1, true))
  {
  }

  /** Which frame is lowest is determined. */
  lemma OneLowest(used: seq<bool>, limit: nat, after: seq<bool>)
    requires TookLowest(used, limit, after)
    ensures HasRun(used, limit, 1) && forall other :: TookLowest(used, limit, other) ==> other == after
  {
    var f: nat :| IsLowestFree(used, limit, f) && after == Marked(used, f, 1, true);
    forall other | TookLowest(used, limit, other) ensures other == after {
      var h: nat :| IsLowestFree(used, limit, h) && other == Marked(used, h, 1, true);
      assert h == f;
    }
  }
}
