/** Copy-on-write address spaces (`paging.c`): frames are shared behind the scenes, but every process
    sees the memory an eager fork would have given it, and no frame is lost or freed early. */
module Paging {
  import opened Blocks

  /** Frames of 32 MB, in 4 KB pages. */
  const FRAMES: nat := 8192
  /** The private low table and the mmap table. */
  const PAGES: nat := 2048
  /** The low table covers the first 4 MB. */
  const LOW_PAGES: nat := 1024

  /** A page-table entry; entries that are absent or still the kernel's identity mapping are not
      user mappings. */
  datatype Pte = Absent | User(frame: nat, rw: bool, shared: bool)

  /** A user space: its two table frames and their entries.  The space is named by the frame of its
      page directory. */
  datatype Space = Space(first: nat, ext: nat, pages: seq<Pte>)

  type Spaces = map<nat, Space>

  /** Page tables, extra-reference counts, free frames and physical memory. */
  datatype Mm = Mm(spaces: Spaces, pageRef: seq<nat>, free: set<nat>, mem: seq<Block>)

  ghost predicate Maps(spaces: Spaces, id: nat, p: nat, f: nat) {
    id in spaces && p < |spaces[id].pages| && spaces[id].pages[p].User? && spaces[id].pages[p].frame == f
  }

  /** All user mappings of a frame. */
  ghost function Refs(spaces: Spaces, f: nat): set<(nat, nat)> {
    set id, p | id in spaces && 0 <= p < |spaces[id].pages| && Maps(spaces, id, p, f) :: (id, p)
  }

  ghost predicate IsTable(spaces: Spaces, f: nat) {
    exists id :: id in spaces && f in TableFrames(spaces, id)
  }

  function TableFrames(spaces: Spaces, id: nat): set<nat>
    requires id in spaces
  {
    {id, spaces[id].first, spaces[id].ext}
  }

  // ------------------------------------------------------------------------ the invariant

  ghost predicate Shape(s: Mm) {
    && |s.pageRef| == |s.mem| == FRAMES
    && (forall id :: id in s.spaces ==> |s.spaces[id].pages| == PAGES)
    && (forall id :: id in s.spaces ==> id < FRAMES && s.spaces[id].first < FRAMES && s.spaces[id].ext < FRAMES)
    && (forall id :: id in s.spaces ==>
        id != s.spaces[id].first && id != s.spaces[id].ext && s.spaces[id].first != s.spaces[id].ext)
    && (forall id, jd :: id in s.spaces && jd in s.spaces && id != jd ==>
        TableFrames(s.spaces, id) !! TableFrames(s.spaces, jd))
  }

  /** The count is the number of mappings beyond the first. */
  ghost predicate Counted(s: Mm, f: nat)
    requires f < |s.pageRef|
  {
    && (Refs(s.spaces, f) != {} ==> |Refs(s.spaces, f)| == s.pageRef[f] + 1)
    && (Refs(s.spaces, f) == {} ==> s.pageRef[f] == 0)
  }

  /** Mappings of one frame sit at one page index and agree on being shared; a writable private one
      is alone; shared ones are writable. */
  ghost predicate Agree(spaces: Spaces, f: nat) {
    && (forall a, b :: a in Refs(spaces, f) && b in Refs(spaces, f) ==>
        a.1 == b.1 && PteAt(spaces, a).shared == PteAt(spaces, b).shared)
    && (forall a :: a in Refs(spaces, f) && PteAt(spaces, a).rw && !PteAt(spaces, a).shared ==> Refs(spaces, f) == {a})
    && (forall a :: a in Refs(spaces, f) && PteAt(spaces, a).shared ==> PteAt(spaces, a).rw)
  }

  ghost function PteAt(spaces: Spaces, a: (nat, nat)): Pte {
    if a.0 in spaces && a.1 < |spaces[a.0].pages| then spaces[a.0].pages[a.1] else Absent
  }

  /** Every frame is free, or the kernel's, or a table, or mapped: exactly one of these. */
  ghost predicate Placed(s: Mm, kernel: set<nat>, f: nat) {
    && (f in s.free <==> f !in kernel && !IsTable(s.spaces, f) && Refs(s.spaces, f) == {})
    && (IsTable(s.spaces, f) ==> f !in kernel)
    && (Refs(s.spaces, f) != {} ==> f !in kernel && !IsTable(s.spaces, f))
  }

  ghost predicate Inv(s: Mm, kernel: set<nat>) {
    && Shape(s)
    && (forall f :: f in s.free ==> f < FRAMES)
    && (forall f :: 0 <= f < FRAMES ==> Counted(s, f) && Agree(s.spaces, f) && Placed(s, kernel, f))
    && (forall f: nat :: Refs(s.spaces, f) != {} ==> f < FRAMES)
  }

  // ------------------------------------------------------------------------ changing one entry

  function SetPte(spaces: Spaces, id: nat, p: nat, pte: Pte): (r: Spaces)
    requires id in spaces && p < |spaces[id].pages|
  {
    spaces[id := spaces[id].(pages := spaces[id].pages[p := pte])]
  }

  lemma RefsAre(spaces: Spaces, f: nat)
    ensures forall a: (nat, nat) :: a in Refs(spaces, f) <==> Maps(spaces, a.0, a.1, f)
  {
    forall a: (nat, nat) | Maps(spaces, a.0, a.1, f) ensures a in Refs(spaces, f) {
      assert a == (a.0, a.1);
    }
  }

  /** How one entry's change moves the mappings of each frame. */
  lemma RefsSet(spaces: Spaces, id: nat, p: nat, pte: Pte, f: nat)
    requires id in spaces && p < |spaces[id].pages|
    ensures Refs(SetPte(spaces, id, p, pte), f) ==
            (Refs(spaces, f) - {(id, p)}) + if pte.User? && pte.frame == f then {(id, p)} else {}
  {
    hide Refs;
    var spaces' := SetPte(spaces, id, p, pte);
    RefsAre(spaces, f);
    RefsAre(spaces', f);
    var want := (Refs(spaces, f) - {(id, p)}) + if pte.User? && pte.frame == f then {(id, p)} else {};
    forall a: (nat, nat) ensures a in Refs(spaces', f) <==> a in want {
      assert a == (a.0, a.1);
      if a != (id, p) {
        assert Maps(spaces', a.0, a.1, f) <==> Maps(spaces, a.0, a.1, f);
      } else {
        assert Maps(spaces', id, p, f) <==> pte.User? && pte.frame == f;
      }
    }
  }

  lemma PteSet(spaces: Spaces, id: nat, p: nat, pte: Pte)
    requires id in spaces && p < |spaces[id].pages|
    ensures PteAt(SetPte(spaces, id, p, pte), (id, p)) == pte
    ensures forall a: (nat, nat) :: a != (id, p) ==> PteAt(SetPte(spaces, id, p, pte), a) == PteAt(spaces, a)
  {
    forall a: (nat, nat) | a != (id, p) ensures PteAt(SetPte(spaces, id, p, pte), a) == PteAt(spaces, a) {
      assert a.0 == id ==> a.1 != p;
    }
  }

  lemma TablesSet(spaces: Spaces, id: nat, p: nat, pte: Pte)
    requires id in spaces && p < |spaces[id].pages|
    ensures forall f :: IsTable(SetPte(spaces, id, p, pte), f) <==> IsTable(spaces, f)
  {
    var spaces' := SetPte(spaces, id, p, pte);
    assert spaces'.Keys == spaces.Keys;
    assert forall jd :: jd in spaces ==> TableFrames(spaces', jd) == TableFrames(spaces, jd);
    forall f ensures IsTable(spaces', f) <==> IsTable(spaces, f) {
      if IsTable(spaces, f) {
        var jd :| jd in spaces && f in TableFrames(spaces, jd);
        assert f in TableFrames(spaces', jd);
      }
    }
  }

  lemma ShapeSet(s: Mm, id: nat, p: nat, pte: Pte)
    requires Shape(s) && id in s.spaces && p < PAGES
    ensures Shape(s.(spaces := SetPte(s.spaces, id, p, pte)))
  {
    var spaces' := SetPte(s.spaces, id, p, pte);
    assert forall jd :: jd in s.spaces ==> TableFrames(spaces', jd) == TableFrames(s.spaces, jd);
  }

  /** Everything known about a frame that is neither the entry's old frame nor its new one. */
  lemma OtherFrame(s: Mm, s': Mm, kernel: set<nat>, id: nat, p: nat, pte: Pte, f: nat)
    requires Shape(s) && id in s.spaces && p < PAGES && s'.spaces == SetPte(s.spaces, id, p, pte)
    requires f < FRAMES && |s'.pageRef| == FRAMES && s'.pageRef[f] == s.pageRef[f] && (f in s'.free <==> f in s.free)
    requires (id, p) !in Refs(s.spaces, f) && (pte.User? ==> pte.frame != f)
    requires Counted(s, f) && Agree(s.spaces, f) && Placed(s, kernel, f)
    ensures Refs(s'.spaces, f) == Refs(s.spaces, f)
    ensures Counted(s', f) && Agree(s'.spaces, f) && Placed(s', kernel, f)
  {
    hide Refs, IsTable, PteAt, Agree;
    RefsSet(s.spaces, id, p, pte, f);
    PteSet(s.spaces, id, p, pte);
    TablesSet(s.spaces, id, p, pte);
    assert Refs(s'.spaces, f) == Refs(s.spaces, f);
    SameAgree(s.spaces, s'.spaces, f);
  }

  lemma SameAgree(spaces: Spaces, spaces': Spaces, f: nat)
    requires Agree(spaces, f) && Refs(spaces', f) == Refs(spaces, f)
    requires forall a :: a in Refs(spaces, f) ==> PteAt(spaces', a) == PteAt(spaces, a)
    ensures Agree(spaces', f)
  {
    hide Refs, PteAt;
  }

  lemma InRefs(spaces: Spaces, id: nat, p: nat, f: nat)
    requires id in spaces && p < |spaces[id].pages|
    ensures (id, p) in Refs(spaces, f) <==> spaces[id].pages[p].User? && spaces[id].pages[p].frame == f
    ensures PteAt(spaces, (id, p)) == spaces[id].pages[p]
  {
    RefsAre(spaces, f);
  }

  // ------------------------------------------------------------------------ operations on one entry

  /** A fresh, zeroed, writable page. */
  function Mapped(s: Mm, id: nat, p: nat, f: nat, shared: bool): (r: Mm)
    requires id in s.spaces && p < |s.spaces[id].pages| && f < |s.mem|
  {
    s.(spaces := SetPte(s.spaces, id, p, User(f, true, shared)), free := s.free - {f}, mem := s.mem[f := ZERO_BLOCK])
  }

  lemma MappedKeeps(s: Mm, kernel: set<nat>, id: nat, p: nat, f: nat, shared: bool)
    requires Inv(s, kernel) && id in s.spaces && p < PAGES && s.spaces[id].pages[p].Absent? && f in s.free
    ensures Inv(Mapped(s, id, p, f, shared), kernel)
  {
    hide Refs, IsTable, PteAt, Counted, Agree, Placed;
    var pte, s' := User(f, true, shared), Mapped(s, id, p, f, shared);
    ShapeSet(s, id, p, pte);
    FreshFrame(s, s', kernel, id, p, pte);
    forall g | 0 <= g < FRAMES ensures Counted(s', g) && Agree(s'.spaces, g) && Placed(s', kernel, g) {
      if g != f {
        InRefs(s.spaces, id, p, g);
        OtherFrame(s, s', kernel, id, p, pte, g);
      }
    }
    forall g: nat | Refs(s'.spaces, g) != {} ensures g < FRAMES {
      RefsSet(s.spaces, id, p, pte, g);
    }
  }

  /** A frame just taken from the free ones has exactly the one mapping. */
  lemma FreshFrame(s: Mm, s': Mm, kernel: set<nat>, id: nat, p: nat, pte: Pte)
    requires Shape(s) && id in s.spaces && p < PAGES && s'.spaces == SetPte(s.spaces, id, p, pte)
    requires pte.User? && (pte.shared ==> pte.rw) && pte.frame < FRAMES && |s'.pageRef| == FRAMES
    requires pte.frame in s.free && pte.frame !in s'.free && s'.pageRef[pte.frame] == s.pageRef[pte.frame]
    requires Counted(s, pte.frame) && Placed(s, kernel, pte.frame)
    ensures Refs(s'.spaces, pte.frame) == {(id, p)}
    ensures Counted(s', pte.frame) && Agree(s'.spaces, pte.frame) && Placed(s', kernel, pte.frame)
  {
    hide Refs, IsTable, PteAt;
    var f := pte.frame;
    RefsSet(s.spaces, id, p, pte, f);
    PteSet(s.spaces, id, p, pte);
    TablesSet(s.spaces, id, p, pte);
    assert Refs(s'.spaces, f) == {(id, p)};
  }

  /** Taking one mapping away: the count drops, or the last mapping frees the frame. */
  function Dropped(s: Mm, id: nat, p: nat): (r: Mm)
    requires id in s.spaces && p < |s.spaces[id].pages| && s.spaces[id].pages[p].User?
    requires s.spaces[id].pages[p].frame < |s.pageRef|
  {
    var f := s.spaces[id].pages[p].frame;
    var spaces := SetPte(s.spaces, id, p, Absent);
    if s.pageRef[f] > 0 then s.(spaces := spaces, pageRef := s.pageRef[f := s.pageRef[f] - 1])
    else s.(spaces := spaces, free := s.free + {f})
  }

  lemma DroppedFrame(s: Mm, s': Mm, kernel: set<nat>, id: nat, p: nat, pte: Pte)
    requires Shape(s) && id in s.spaces && p < PAGES && s.spaces[id].pages[p].User?
    requires s'.spaces == SetPte(s.spaces, id, p, pte)
    requires var f := s.spaces[id].pages[p].frame;
             && f < FRAMES && |s'.pageRef| == FRAMES && (pte.User? ==> pte.frame != f)
             && Counted(s, f) && Agree(s.spaces, f) && Placed(s, kernel, f)
             && (if s.pageRef[f] > 0 then s'.pageRef[f] == s.pageRef[f] - 1 && (f in s'.free <==> f in s.free)
                 else s'.pageRef[f] == 0 && f in s'.free)
    ensures var f := s.spaces[id].pages[p].frame; Counted(s', f) && Agree(s'.spaces, f) && Placed(s', kernel, f)
  {
    hide Refs, IsTable, PteAt;
    var f := s.spaces[id].pages[p].frame;
    var before, after := Refs(s.spaces, f), Refs(s'.spaces, f);
    InRefs(s.spaces, id, p, f);
    RefsSet(s.spaces, id, p, pte, f);
    PteSet(s.spaces, id, p, pte);
    TablesSet(s.spaces, id, p, pte);
    assert after == before - {(id, p)} && |after| == |before| - 1;
    assert |before| == 1 ==> after == {};
  }

  lemma DroppedKeeps(s: Mm, kernel: set<nat>, id: nat, p: nat)
    requires Inv(s, kernel) && id in s.spaces && p < PAGES && s.spaces[id].pages[p].User?
    ensures s.spaces[id].pages[p].frame < FRAMES
    ensures Inv(Dropped(s, id, p), kernel)
  {
    hide Refs, IsTable, PteAt, Counted, Agree, Placed;
    var f := s.spaces[id].pages[p].frame;
    InRefs(s.spaces, id, p, f);
    assert f < FRAMES;
    var s' := Dropped(s, id, p);
    ShapeSet(s, id, p, Absent);
    DroppedFrame(s, s', kernel, id, p, Absent);
    forall g | 0 <= g < FRAMES ensures Counted(s', g) && Agree(s'.spaces, g) && Placed(s', kernel, g) {
      if g != f {
        InRefs(s.spaces, id, p, g);
        OtherFrame(s, s', kernel, id, p, Absent, g);
      }
    }
    forall g: nat | Refs(s'.spaces, g) != {} ensures g < FRAMES {
      RefsSet(s.spaces, id, p, Absent, g);
    }
  }

  /** `cow_ref_inc` on the 16-bit count. */
  function CountUp(n: nat): nat {
    (n + 1) % 0x1_0000
  }

  /** One page of a clone: the child gets the parent's frame; private pages become read-only in both. */
  function Linked(s: Mm, parent: nat, child: nat, p: nat): (r: Mm)
    requires parent in s.spaces && p < |s.spaces[parent].pages| && child in s.spaces && p < |s.spaces[child].pages|
    requires parent != child
    requires s.spaces[parent].pages[p].User? && s.spaces[parent].pages[p].frame < |s.pageRef|
  {
    var pte := s.spaces[parent].pages[p];
    var given := if pte.shared then pte else pte.(rw := false);
    s.(spaces := SetPte(SetPte(s.spaces, parent, p, given), child, p, given),
       pageRef := s.pageRef[pte.frame := CountUp(s.pageRef[pte.frame])])
  }

  /** A frame is mapped at most once per space, so there are at most as many mappings as spaces. */
  lemma AtMostOncePerSpace(s: Mm, f: nat)
    requires Shape(s) && f < FRAMES && Agree(s.spaces, f)
    ensures |Refs(s.spaces, f)| <= |s.spaces.Keys| <= FRAMES
  {
    hide Refs, PteAt;
    var refs := Refs(s.spaces, f);
    RefsAre(s.spaces, f);
    if refs != {} {
      var a :| a in refs;
      assert forall b :: b in refs ==> b.1 == a.1 && b.0 in s.spaces.Keys;
      SameSecond(refs, s.spaces.Keys, a.1);
    }
    Bounded(s.spaces.Keys, FRAMES);
  }

  lemma {:induction false} SameSecond(refs: set<(nat, nat)>, ids: set<nat>, p: nat)
    requires forall b :: b in refs ==> b.1 == p && b.0 in ids
    ensures |refs| <= |ids|
    decreases refs
  {
    if refs != {} {
      var a :| a in refs;
      forall b | b in refs - {a} ensures b.1 == p && b.0 in ids - {a.0} {
        assert b == (b.0, b.1) && a == (a.0, a.1);
      }
      SameSecond(refs - {a}, ids - {a.0}, p);
    }
  }

  lemma {:induction false} Bounded(ids: set<nat>, n: nat)
    requires forall i :: i in ids ==> i < n
    ensures |ids| <= n
    decreases n
  {
    if n == 0 {
      assert ids == {};
    } else {
      Bounded(ids - {n - 1}, n - 1);
      assert |ids - {n - 1}| >= |ids| - 1;
    }
  }

  lemma LinkedFrame(s: Mm, s': Mm, kernel: set<nat>, parent: nat, child: nat, p: nat)
    requires Shape(s) && parent in s.spaces && child in s.spaces && parent != child && p < PAGES
    requires s.spaces[parent].pages[p].User? && s.spaces[child].pages[p].Absent?
    requires s.spaces[parent].pages[p].frame < FRAMES
    requires var f := s.spaces[parent].pages[p].frame;
             && s' == Linked(s, parent, child, p)
             && Counted(s, f) && Agree(s.spaces, f) && Placed(s, kernel, f)
    ensures var f := s.spaces[parent].pages[p].frame; Counted(s', f) && Agree(s'.spaces, f) && Placed(s', kernel, f)
  {
    hide Refs, IsTable, PteAt, Agree, Shape;
    PagesAre(s, parent);
    PagesAre(s, child);
    var pte := s.spaces[parent].pages[p];
    var given, f := if pte.shared then pte else pte.(rw := false), pte.frame;
    var mid := SetPte(s.spaces, parent, p, given);
    InRefs(s.spaces, parent, p, f);
    InRefs(s.spaces, child, p, f);
    RefsSet(s.spaces, parent, p, given, f);
    RefsSet(mid, child, p, given, f);
    PteSet(s.spaces, parent, p, given);
    PteSet(mid, child, p, given);
    TablesSet(s.spaces, parent, p, given);
    TablesSet(mid, child, p, given);
    var before, after := Refs(s.spaces, f), Refs(s'.spaces, f);
    assert Refs(mid, f) == before;
    assert after == before + {(child, p)} && |after| == |before| + 1;
    AtMostOncePerSpace(s, f);
    LinkedAgree(s.spaces, s'.spaces, f, parent, child, p);
  }

  lemma PagesAre(s: Mm, id: nat)
    requires Shape(s) && id in s.spaces
    ensures |s.spaces[id].pages| == PAGES && |s.pageRef| == |s.mem| == FRAMES
  {
  }

  lemma LinkedAgree(spaces: Spaces, spaces': Spaces, f: nat, parent: nat, child: nat, p: nat)
    requires Agree(spaces, f) && (parent, p) in Refs(spaces, f) && Refs(spaces', f) == Refs(spaces, f) + {(child, p)}
    requires PteAt(spaces', (parent, p)) == PteAt(spaces', (child, p))
    requires PteAt(spaces', (parent, p)) == var pte := PteAt(spaces, (parent, p)); if pte.shared then pte
               else pte.(rw := false)
    requires PteAt(spaces, (parent, p)).User?
    requires forall a :: a in Refs(spaces, f) && a != (parent, p) ==> PteAt(spaces', a) == PteAt(spaces, a)
    ensures Agree(spaces', f)
  {
    hide Refs, PteAt;
  }

  lemma LinkedKeeps(s: Mm, kernel: set<nat>, parent: nat, child: nat, p: nat)
    requires Inv(s, kernel) && parent in s.spaces && child in s.spaces && parent != child && p < PAGES
    requires s.spaces[parent].pages[p].User? && s.spaces[child].pages[p].Absent?
    ensures s.spaces[parent].pages[p].frame < FRAMES && Inv(Linked(s, parent, child, p), kernel)
  {
    hide Refs, IsTable, PteAt, Counted, Agree, Placed;
    var pte := s.spaces[parent].pages[p];
    var given, f := if pte.shared then pte else pte.(rw := false), pte.frame;
    var mid := s.(spaces := SetPte(s.spaces, parent, p, given));
    InRefs(s.spaces, parent, p, f);
    assert f < FRAMES;
    var s' := Linked(s, parent, child, p);
    ShapeSet(s, parent, p, given);
    ShapeSet(mid, child, p, given);
    LinkedFrame(s, s', kernel, parent, child, p);
    forall g | 0 <= g < FRAMES ensures Counted(s', g) && Agree(s'.spaces, g) && Placed(s', kernel, g) {
      if g != f {
        InRefs(s.spaces, parent, p, g);
        OtherFrame(s, mid, kernel, parent, p, given, g);
        InRefs(mid.spaces, child, p, g);
        OtherFrame(mid, s', kernel, child, p, given, g);
      }
    }
    forall g: nat | Refs(s'.spaces, g) != {} ensures g < FRAMES {
      RefsSet(s.spaces, parent, p, given, g);
      RefsSet(mid.spaces, child, p, given, g);
    }
  }

  /** A write fault on a page with other mappings: a private copy in a fresh frame. */
  function Copied(s: Mm, id: nat, p: nat, f': nat): (r: Mm)
    requires id in s.spaces && p < |s.spaces[id].pages| && s.spaces[id].pages[p].User?
    requires s.spaces[id].pages[p].frame < |s.pageRef| == |s.mem| && f' < |s.mem|
    requires s.pageRef[s.spaces[id].pages[p].frame] > 0
  {
    var pte := s.spaces[id].pages[p];
    Mm(SetPte(s.spaces, id, p, User(f', true, pte.shared)), s.pageRef[pte.frame := s.pageRef[pte.frame] - 1],
       s.free - {f'}, s.mem[f' := s.mem[pte.frame]])
  }

  lemma CopiedKeeps(s: Mm, kernel: set<nat>, id: nat, p: nat, f': nat)
    requires Inv(s, kernel) && id in s.spaces && p < PAGES && s.spaces[id].pages[p].User? && !s.spaces[id].pages[p].rw
    requires f' in s.free
    ensures s.spaces[id].pages[p].frame < FRAMES
    ensures s.pageRef[s.spaces[id].pages[p].frame] > 0 ==> Inv(Copied(s, id, p, f'), kernel)
  {
    hide Refs, IsTable, PteAt, Counted, Agree, Placed;
    var f := s.spaces[id].pages[p].frame;
    InRefs(s.spaces, id, p, f);
    assert f < FRAMES;
    if s.pageRef[f] > 0 {
      var pte, s' := User(f', true, s.spaces[id].pages[p].shared), Copied(s, id, p, f');
      MappedIsTaken(s, kernel, id, p);
      ShapeSet(s, id, p, pte);
      FreshFrame(s, s', kernel, id, p, pte);
      DroppedFrame(s, s', kernel, id, p, pte);
      forall g | 0 <= g < FRAMES ensures Counted(s', g) && Agree(s'.spaces, g) && Placed(s', kernel, g) {
        if g != f && g != f' {
          InRefs(s.spaces, id, p, g);
          OtherFrame(s, s', kernel, id, p, pte, g);
        }
      }
      forall g: nat | Refs(s'.spaces, g) != {} ensures g < FRAMES {
        RefsSet(s.spaces, id, p, pte, g);
      }
    }
  }

  /** A mapped frame is not free. */
  lemma MappedIsTaken(s: Mm, kernel: set<nat>, id: nat, p: nat)
    requires Inv(s, kernel) && id in s.spaces && p < PAGES && s.spaces[id].pages[p].User?
    ensures s.spaces[id].pages[p].frame < FRAMES && s.spaces[id].pages[p].frame !in s.free
  {
    hide Refs, IsTable, PteAt, Counted, Agree;
    var f := s.spaces[id].pages[p].frame;
    InRefs(s.spaces, id, p, f);
    assert Refs(s.spaces, f) != {} && Placed(s, kernel, f);
  }

  /** A write fault on a page nobody else maps: write access is simply granted again. */
  function Regranted(s: Mm, id: nat, p: nat): (r: Mm)
    requires id in s.spaces && p < |s.spaces[id].pages| && s.spaces[id].pages[p].User?
  {
    s.(spaces := SetPte(s.spaces, id, p, s.spaces[id].pages[p].(rw := true)))
  }

  lemma RegrantedKeeps(s: Mm, kernel: set<nat>, id: nat, p: nat)
    requires Inv(s, kernel) && id in s.spaces && p < PAGES && s.spaces[id].pages[p].User?
    ensures s.spaces[id].pages[p].frame < FRAMES
    ensures s.pageRef[s.spaces[id].pages[p].frame] == 0 ==> Inv(Regranted(s, id, p), kernel)
  {
    hide Refs, IsTable, PteAt, Counted, Agree, Placed;
    var f, pte := s.spaces[id].pages[p].frame, s.spaces[id].pages[p].(rw := true);
    InRefs(s.spaces, id, p, f);
    assert f < FRAMES;
    if s.pageRef[f] == 0 {
      var s' := Regranted(s, id, p);
      ShapeSet(s, id, p, pte);
      SoleFrame(s, s', kernel, id, p);
      forall g | 0 <= g < FRAMES ensures Counted(s', g) && Agree(s'.spaces, g) && Placed(s', kernel, g) {
        if g != f {
          InRefs(s.spaces, id, p, g);
          OtherFrame(s, s', kernel, id, p, pte, g);
        }
      }
      forall g: nat | Refs(s'.spaces, g) != {} ensures g < FRAMES {
        RefsSet(s.spaces, id, p, pte, g);
      }
    }
  }

  lemma SoleFrame(s: Mm, s': Mm, kernel: set<nat>, id: nat, p: nat)
    requires Shape(s) && id in s.spaces && p < PAGES && s.spaces[id].pages[p].User? && s' == Regranted(s, id, p)
    requires var f := s.spaces[id].pages[p].frame;
             f < FRAMES && s.pageRef[f] == 0 && Counted(s, f) && Agree(s.spaces, f) && Placed(s, kernel, f)
    ensures var f := s.spaces[id].pages[p].frame; Counted(s', f) && Agree(s'.spaces, f) && Placed(s', kernel, f)
  {
    hide Refs, IsTable, PteAt;
    var f, pte := s.spaces[id].pages[p].frame, s.spaces[id].pages[p].(rw := true);
    InRefs(s.spaces, id, p, f);
    RefsSet(s.spaces, id, p, pte, f);
    PteSet(s.spaces, id, p, pte);
    TablesSet(s.spaces, id, p, pte);
    var refs := Refs(s.spaces, f);
    assert |refs| == 1 && (id, p) in refs && refs == {(id, p)} by {
      assert |refs - {(id, p)}| == 0;
    }
    assert Refs(s'.spaces, f) == {(id, p)};
  }

  // ------------------------------------------------------------------------ whole spaces

  function NoPages(): (pages: seq<Pte>)
    ensures |pages| == PAGES
  {
    seq(PAGES, _ => Absent)
  }

  function Created(s: Mm, id: nat, first: nat, ext: nat): (r: Mm) {
    s.(spaces := s.spaces[id := Space(first, ext, NoPages())], free := s.free - {id, first, ext})
  }

  /** An empty space maps nothing. */
  lemma EmptySpaceRefs(spaces: Spaces, spaces': Spaces, id: nat, f: nat)
    requires spaces' == spaces - {id}
    requires id in spaces ==> forall p :: 0 <= p < |spaces[id].pages| ==> spaces[id].pages[p].Absent?
    ensures Refs(spaces', f) == Refs(spaces, f)
    ensures forall a :: a in Refs(spaces, f) ==> PteAt(spaces', a) == PteAt(spaces, a)
  {
    hide Refs;
    RefsAre(spaces, f);
    RefsAre(spaces', f);
    forall a: (nat, nat) ensures a in Refs(spaces', f) <==> a in Refs(spaces, f) {
      assert Maps(spaces', a.0, a.1, f) <==> Maps(spaces, a.0, a.1, f);
    }
  }

  lemma TablesWith(spaces: Spaces, id: nat, f: nat)
    requires id in spaces
    ensures IsTable(spaces, f) <==> IsTable(spaces - {id}, f) || f in TableFrames(spaces, id)
  {
    var rest := spaces - {id};
    if IsTable(spaces, f) && f !in TableFrames(spaces, id) {
      var jd :| jd in spaces && f in TableFrames(spaces, jd);
      assert jd in rest && f in TableFrames(rest, jd);
    }
    if IsTable(rest, f) {
      var jd :| jd in rest && f in TableFrames(rest, jd);
      assert f in TableFrames(spaces, jd);
    }
  }

  lemma CreatedKeeps(s: Mm, kernel: set<nat>, id: nat, first: nat, ext: nat)
    requires Inv(s, kernel) && id in s.free && first in s.free && ext in s.free && id != first && id != ext
    requires first != ext
    ensures id !in s.spaces && Inv(Created(s, id, first, ext), kernel)
  {
    hide Refs, IsTable, PteAt, Counted, Agree;
    var s' := Created(s, id, first, ext);
    NewIsUnused(s, kernel, id);
    assert s'.spaces - {id} == s.spaces;
    CreatedShape(s, kernel, id, first, ext);
    forall f | 0 <= f < FRAMES ensures Counted(s', f) && Agree(s'.spaces, f) && Placed(s', kernel, f) {
      EmptySpaceRefs(s'.spaces, s.spaces, id, f);
      SameFrame(s, s', f);
      TablesWith(s'.spaces, id, f);
      assert Placed(s, kernel, f);
    }
    forall f: nat | Refs(s'.spaces, f) != {} ensures f < FRAMES {
      EmptySpaceRefs(s'.spaces, s.spaces, id, f);
    }
  }

  lemma SameFrame(s: Mm, s': Mm, f: nat)
    requires f < |s.pageRef| && s'.pageRef == s.pageRef && Counted(s, f) && Agree(s.spaces, f)
    requires Refs(s'.spaces, f) == Refs(s.spaces, f)
    requires forall a :: a in Refs(s.spaces, f) ==> PteAt(s'.spaces, a) == PteAt(s.spaces, a)
    ensures Counted(s', f) && Agree(s'.spaces, f)
  {
    hide Refs, PteAt, Agree;
    SameAgree(s.spaces, s'.spaces, f);
  }

  /** A free frame names no space and is in no one's tables. */
  lemma NewIsUnused(s: Mm, kernel: set<nat>, f: nat)
    requires Inv(s, kernel) && f in s.free
    ensures f !in s.spaces && forall id :: id in s.spaces ==> f !in TableFrames(s.spaces, id)
  {
    hide Refs, Counted, Agree;
    assert Placed(s, kernel, f) && !IsTable(s.spaces, f);
    assert f in s.spaces ==> f in TableFrames(s.spaces, f);
  }

  lemma CreatedShape(s: Mm, kernel: set<nat>, id: nat, first: nat, ext: nat)
    requires Inv(s, kernel) && id in s.free && first in s.free && ext in s.free && id != first && id != ext
    requires first != ext
    ensures Shape(Created(s, id, first, ext))
  {
    hide Refs, IsTable, Counted, Agree, Placed;
    NewIsUnused(s, kernel, id);
    NewIsUnused(s, kernel, first);
    NewIsUnused(s, kernel, ext);
    var s' := Created(s, id, first, ext);
    assert forall jd :: jd in s.spaces ==> TableFrames(s'.spaces, jd) == TableFrames(s.spaces, jd);
    assert TableFrames(s'.spaces, id) == {id, first, ext};
  }

  function TablesFreed(s: Mm, id: nat): (r: Mm)
    requires id in s.spaces
  {
    s.(spaces := s.spaces - {id}, free := s.free + TableFrames(s.spaces, id))
  }

  lemma TablesFreedKeeps(s: Mm, kernel: set<nat>, id: nat)
    requires Inv(s, kernel) && id in s.spaces && forall p :: 0 <= p < PAGES ==> s.spaces[id].pages[p].Absent?
    ensures Inv(TablesFreed(s, id), kernel)
  {
    hide Refs, IsTable, PteAt, Counted, Agree;
    var s' := TablesFreed(s, id);
    FreedShape(s, id);
    forall f | 0 <= f < FRAMES ensures Counted(s', f) && Agree(s'.spaces, f) && Placed(s', kernel, f) {
      EmptySpaceRefs(s.spaces, s'.spaces, id, f);
      SameFrame(s, s', f);
      TablesWith(s.spaces, id, f);
      if f in TableFrames(s.spaces, id) {
        NotBothTables(s, id, f);
      }
      assert Placed(s, kernel, f);
    }
    forall f: nat | Refs(s'.spaces, f) != {} ensures f < FRAMES {
      EmptySpaceRefs(s.spaces, s'.spaces, id, f);
    }
  }

  lemma FreedShape(s: Mm, id: nat)
    requires Shape(s) && id in s.spaces
    ensures Shape(TablesFreed(s, id))
  {
    var s' := TablesFreed(s, id);
    assert forall jd :: jd in s'.spaces ==> TableFrames(s'.spaces, jd) == TableFrames(s.spaces, jd);
  }

  lemma NotBothTables(s: Mm, id: nat, f: nat)
    requires Shape(s) && id in s.spaces && f in TableFrames(s.spaces, id)
    ensures !IsTable(s.spaces - {id}, f)
  {
    var rest := s.spaces - {id};
    forall jd | jd in rest ensures f !in TableFrames(rest, jd) {
      assert TableFrames(rest, jd) == TableFrames(s.spaces, jd);
    }
  }
}
