/** The physical memory manager (`pmm.c`): a bitmap of frames with first-fit runs. */
module Pmm {
  import opened Results
  import opened Allocation

  const MAX_FRAMES: nat := 8192
  const FRAME_SIZE: nat := 4096

  /** `count` free frames from `f` on, below `limit`. */
  predicate FreeRun(used: seq<bool>, limit: nat, f: nat, count: nat) {
    1 <= f && f + count <= limit <= |used| && forall i :: f <= i < f + count ==> !used[i]
  }

  predicate HasRun(used: seq<bool>, limit: nat, count: nat) {
    exists f :: 0 <= f < limit && FreeRun(used, limit, f, count)
  }

  function Marked(used: seq<bool>, f: nat, count: nat, value: bool): (r: seq<bool>)
    ensures |r| == |used|
  {
    seq(|used|, i requires 0 <= i < |used| => if f <= i < f + count then value else used[i])
  }

  /** A run among the frames is at most as long as the frames that are free. */
  lemma {:induction false} RunIsFree(used: seq<bool>, f: nat, count: nat)
    requires f + count <= |used| && forall i :: f <= i < f + count ==> !used[i]
    ensures count <= |used| - CountTrue(used)
  {
    var a, b, c := used[..f], used[f..f + count], used[f + count..];
    assert used == (a + b) + c;
    CountConcat(a + b, c);
    CountConcat(a, b);
    CountZero(b);
  }

  class FrameMap {
    var used: seq<bool>
    var maxBlocks: nat
    var usedBlocks: nat

    /** The counter agrees with the bitmap. */
    ghost predicate Counted()
      reads this
    {
      |used| == MAX_FRAMES && maxBlocks <= MAX_FRAMES && usedBlocks == CountTrue(used[..maxBlocks])
    }

    /** Besides, frame 0 is never free to be handed out. */
    ghost predicate Valid()
      reads this
    {
      Counted() && used[0]
    }

    /** `pmm_init`: everything starts out in use. */
    constructor (memoryKb: nat)
      ensures Valid() && used == seq(MAX_FRAMES, _ => true) && usedBlocks == maxBlocks
      ensures maxBlocks == if memoryKb / 4 > MAX_FRAMES then MAX_FRAMES else memoryKb / 4
    {
      maxBlocks := if memoryKb / 4 > MAX_FRAMES then MAX_FRAMES else memoryKb / 4;
      usedBlocks := if memoryKb / 4 > MAX_FRAMES then MAX_FRAMES else memoryKb / 4;
      used := seq(MAX_FRAMES, _ => true);
      new;
      CountAll(used[..maxBlocks]);
    }

    method Set(f: nat, value: bool)
      requires Counted() && f < maxBlocks
      modifies this
      ensures Counted() && maxBlocks == old(maxBlocks) && used == old(used)[f := value]
    {
      CountUpdate(used[..maxBlocks], f, value);
      assert used[f := value][..maxBlocks] == used[..maxBlocks][f := value];
      if used[f] && !value {
        usedBlocks := usedBlocks - 1;
      } else if !used[f] && value {
        usedBlocks := usedBlocks + 1;
      }
      used := used[f := value];
    }

    /** `pmm_init_region`: whole frames inside the region become free, but never frame 0. */
    method InitRegion(base: nat, size: nat)
      requires Valid()
      modifies this
      ensures Valid() && maxBlocks == old(maxBlocks)
      ensures forall f :: 0 <= f < MAX_FRAMES ==>
                (used[f] <==>
                    if f > 0 && f < maxBlocks && base <= f * FRAME_SIZE
                    && (f + 1) * FRAME_SIZE <= base + size then false else old(used)[f])
    {
      hide CountTrue;
      var start := base / FRAME_SIZE;
      if base % FRAME_SIZE != 0 {
        start := start + 1;
      }
      var end := (base + size) / FRAME_SIZE;
      if end > maxBlocks {
        end := maxBlocks;
      }
      var frame := start;
      while frame < end
        invariant Counted() && maxBlocks == old(maxBlocks)
        invariant start <= frame && (frame <= end || frame == start)
        invariant forall f :: 0 <= f < MAX_FRAMES ==> (used[f] <==> if start <= f < frame then false else old(used)[f])
      {
        Set(frame, false);
        frame := frame + 1;
      }
      if !used[0] {
        Set(0, true);
      }
    }

    /** `pmm_deinit_region`: every frame the region touches becomes used. */
    method DeinitRegion(base: nat, size: nat)
      requires Valid()
      modifies this
      ensures Valid() && maxBlocks == old(maxBlocks)
      ensures forall f :: 0 <= f < MAX_FRAMES ==>
                (used[f] <==>
                    old(used)[f] || (f < maxBlocks && base < (f + 1) * FRAME_SIZE && f * FRAME_SIZE < base + size))
    {
      hide CountTrue;
      var start := base / FRAME_SIZE;
      var end := (base + size + FRAME_SIZE - 1) / FRAME_SIZE;
      if end > maxBlocks {
        end := maxBlocks;
      }
      var frame := start;
      while frame < end
        invariant Valid() && maxBlocks == old(maxBlocks)
        invariant start <= frame && (frame <= end || frame == start)
        invariant forall f :: 0 <= f < MAX_FRAMES ==> (used[f] <==> old(used)[f] || start <= f < frame)
      {
        Set(frame, true);
        frame := frame + 1;
      }
    }

    /** `mmap_first_free_run`: the lowest run of `count` free frames, if there is one. */
    method FirstFreeRun(count: nat) returns (r: Option<nat>)
      requires Valid()
      ensures r.Some? ==> count > 0 && FreeRun(used, maxBlocks, r.value, count) && forall g :: 0 <= g < r.value ==>
                !FreeRun(used, maxBlocks, g, count)
      ensures r.None? ==> count == 0 || !HasRun(used, maxBlocks, count)
    {
      hide CountTrue;
      if count == 0 || count > maxBlocks {
        return None;
      }
      var runStart, runLength := 0, 0;
      var frame := 1;
      while frame < maxBlocks
        invariant 1 <= frame && (frame <= maxBlocks || maxBlocks <= 1)
        invariant runLength < count && runLength < frame
        invariant runLength > 0 ==> runStart == frame - runLength && runStart >= 1
        invariant forall i :: frame - runLength <= i < frame && i < |used| ==> !used[i]
        invariant frame - runLength == 1 || (frame - runLength - 1 < |used| && used[frame - runLength - 1])
        invariant forall g :: 0 <= g < frame - runLength ==> !FreeRun(used, maxBlocks, g, count)
      {
        if !used[frame] {
          if runLength == 0 {
            runStart := frame;
          }
          runLength := runLength + 1;
          if runLength == count {
            return Some(runStart);
          }
        } else {
          forall g | 0 <= g <= frame ensures !FreeRun(used, maxBlocks, g, count) {
            assert g <= frame < g + count || g < frame - runLength;
          }
          runLength := 0;
        }
        frame := frame + 1;
      }
      return None;
    }

    /** `pmm_alloc_blocks`: takes the lowest run, and fails only when there is none. */
    method AllocBlocks(count: nat) returns (r: Option<nat>)
      requires Valid()
      modifies this
      ensures Valid() && maxBlocks == old(maxBlocks)
      ensures r.Some? ==>
                count > 0 && FreeRun(old(used), maxBlocks, r.value, count)
                && used == Marked(old(used), r.value, count, true)
      ensures r.Some? ==> forall g :: 0 <= g < r.value ==> !FreeRun(old(used), maxBlocks, g, count)
      ensures r.None? ==> unchanged(this)
      ensures r.None? <==> count == 0 || !HasRun(old(used), maxBlocks, count)
    {
      hide CountTrue;
      if count == 0 || count > maxBlocks - usedBlocks {
        NoRunLeft(used, maxBlocks, count);
        return None;
      }
      r := FirstFreeRun(count);
      if r.None? {
        return None;
      }
      var first := r.value;
      var i := 0;
      while i < count
        invariant 0 <= i <= count && Valid() && maxBlocks == old(maxBlocks)
        invariant used == Marked(old(used), first, i, true)
      {
        Set(first + i, true);
        i := i + 1;
      }
    }

    /** `pmm_free_blocks`; addresses that are not frames of the map are ignored. */
    method FreeBlocks(address: nat, count: nat)
      requires Valid()
      modifies this
      ensures Valid() && maxBlocks == old(maxBlocks)
      ensures var f := address / FRAME_SIZE;
              used == if address % FRAME_SIZE == 0 && f > 0
                  && f + count <= maxBlocks then Marked(old(used), f, count, false) else old(used)
    {
      hide CountTrue;
      if address == 0 || count == 0 || address % FRAME_SIZE != 0 {
        assert Marked(used, address / FRAME_SIZE, 0, false) == used;
        return;
      }
      var first := address / FRAME_SIZE;
      if first == 0 || first >= maxBlocks || count > maxBlocks - first {
        return;
      }
      var i := 0;
      while i < count
        invariant 0 <= i <= count && Valid() && maxBlocks == old(maxBlocks)
        invariant used == Marked(old(used), first, i, false)
      {
        Set(first + i, false);
        i := i + 1;
      }
    }
  }

  lemma {:induction false} CountAll(s: seq<bool>)
    requires forall i :: 0 <= i < |s| ==> s[i]
    ensures CountTrue(s) == |s|
  {
    if s != [] {
      CountAll(s[..|s| - 1]);
    }
  }

  lemma NoRunLeft(used: seq<bool>, limit: nat, count: nat)
    requires limit <= |used|
    ensures count > limit - CountTrue(used[..limit]) ==> !HasRun(used, limit, count)
  {
    if f :| 0 <= f < limit && FreeRun(used, limit, f, count) {
      RunIsFree(used[..limit], f, count);
    }
  }
}
