/** The paging operations themselves (`paging.c`), each a step of the eager kernel. */
module PagingOps {
  import opened Blocks
  import opened Results
  import opened Paging
  import opened EagerFork

  class AddressSpaces {
    var spaces: Spaces
    var pageRef: seq<nat>
    var free: set<nat>
    var mem: seq<Block>
    /** Frames the rest of the kernel holds. */
    ghost const kernel: set<nat>

    ghost function State(): Mm
      reads this
    {
      Mm(spaces, pageRef, free, mem)
    }

    ghost predicate Valid()
      reads this
    {
      Inv(State(), kernel)
    }

    /** The memory as the processes see it. */
    ghost function View(): Eager
      reads this
    {
      Abs(State())
    }

    ghost predicate After(before: Eager, ev: Event)
      reads this
    {
      Valid() && Possible(before, ev) && View() == Step(before, ev)
    }

    constructor (available: set<nat>, memory: seq<Block>)
      requires (forall f :: f in available ==> f < FRAMES) && |memory| == FRAMES
      ensures Valid() && View() == map[] && free == available
    {
      spaces, pageRef, free, mem := map[], seq(FRAMES, _ => 0), available, memory;
      kernel := set f | 0 <= f < FRAMES && f !in available;
      new;
      assert forall f: nat :: Refs(spaces, f) == {};
      assert forall f: nat :: !IsTable(spaces, f);
      assert Shape(State());
      assert forall f :: 0 <= f < FRAMES ==> Counted(State(), f) && Agree(spaces, f) && Placed(State(), kernel, f);
    }

    /** `pmm_alloc_block`: some free frame, if there is one. */
    method AllocFrame() returns (r: Option<nat>)
      modifies this`free
      ensures r.None? <==> old(free) == {}
      ensures Obtained(r) <= old(free) && free == old(free) - Obtained(r)
      ensures r.None? ==> free == old(free)
    {
      if free == {} {
        return None;
      }
      var f :| f in free;
      free := free - {f};
      return Some(f);
    }

    /** A directory and two tables, or nothing at all. */
    method CreateSpace(haveRecord: bool) returns (r: Option<nat>)
      requires Valid()
      modifies this
      ensures After(old(View()), if r.Some? then Create(r.value) else Nothing)
      ensures r.Some? ==>
                State() == Created(old(State()), r.value, spaces[r.value].first, spaces[r.value].ext)
                && r.value !in old(spaces)
      ensures r.None? ==> State() == old(State()) && (haveRecord ==> |free| < 3)
    {
      hide Abs, Inv;
      ghost var s := State();
      if !haveRecord {
        return None;
      }
      var got := AllocTables();
      if got.None? {
        return None;
      }
      var (directory, first, ext) := got.value;
      CreatedKeeps(s, kernel, directory, first, ext);
      CreatedAbs(s, directory, first, ext);
      spaces := spaces[directory := Space(first, ext, NoPages())];
      return Some(directory);
    }

    /** Three frames; when one is missing, those obtained go back. */
    method AllocTables() returns (r: Option<(nat, nat, nat)>)
      modifies this`free
      ensures r.None? ==> free == old(free) && |free| < 3
      ensures r.Some? ==>
                {r.value.0, r.value.1, r.value.2} <= old(free) && free == old(free) - {r.value.0, r.value.1, r.value.2}
      ensures r.Some? ==> r.value.0 != r.value.1 && r.value.0 != r.value.2 && r.value.1 != r.value.2
    {
      hide Obtained;
      ghost var before := free;
      var directory := AllocFrame();
      var first := AllocFrame();
      var ext := AllocFrame();
      if directory.None? || first.None? || ext.None? {
        FewLeft(before, directory, first, ext);
        // The third is never obtained without the other two.
        free := free + Obtained(directory) + Obtained(first);
        return None;
      }
      ThreeTaken(before, directory.value, first.value, ext.value);
      return Some((directory.value, first.value, ext.value));
    }

    /** `paging_map_user_page`. */
    method MapUserPage(id: nat, p: nat) returns (ok: bool)
      requires Valid()
      modifies this
      ensures After(old(View()), if ok && !HasPage(old(View()), id, p) then Map(id, p) else Nothing)
      ensures ok ==> HasPage(View(), id, p)
      ensures !ok ==> id !in spaces || p >= PAGES || free == {}
    {
      hide Abs, Inv;
      ghost var s := State();
      InvShape(s, kernel);
      if id !in spaces || p >= PAGES {
        return false;
      }
      MappedHasCell(s, kernel, id, p);
      if spaces[id].pages[p].User? {
        return true;
      }
      var frame := AllocFrame();
      if frame.None? {
        return false;
      }
      MapFresh(id, p, frame.value, false, s);
      return true;
    }

    /** Installs a zeroed frame in an absent entry. */
    method MapFresh(id: nat, p: nat, frame: nat, shared: bool, ghost s: Mm)
      requires Inv(s, kernel) && id in s.spaces && p < PAGES && s.spaces[id].pages[p].Absent? && frame in s.free
      requires State() == s.(free := s.free - {frame})
      modifies this
      ensures After(Abs(s), if shared then Share(id, p, frame) else Map(id, p)) && HasPage(View(), id, p)
    {
      hide Abs, Inv;
      InvShape(s, kernel);
      FreeInRange(s, kernel, frame);
      MappedKeeps(s, kernel, id, p, frame, shared);
      MappedAbs(s, kernel, id, p, frame, shared);
      mem := mem[frame := ZERO_BLOCK];
      spaces := SetPte(spaces, id, p, User(frame, true, shared));
      MappedHasCell(State(), kernel, id, p);
    }

    /** `paging_share_page` on the active space. */
    method SharePage(id: nat, p: nat) returns (ok: bool)
      requires Valid()
      modifies this
      ensures old(HasPage(View(), id, p)) ==>
                After(old(View()), Nothing) && (ok <==> p < LOW_PAGES && old(View())[id][p].value.obj.Some?)
      ensures !old(HasPage(View(), id, p)) ==>
                if ok then exists o :: After(old(View()), Share(id, p, o)) else After(old(View()), Nothing)
      ensures !old(HasPage(View(), id, p)) && !ok ==> id !in spaces || p >= LOW_PAGES || free == {}
    {
      hide Abs, Inv;
      ghost var s := State();
      InvShape(s, kernel);
      if id !in spaces || p >= LOW_PAGES {
        return false;
      }
      MappedHasCell(s, kernel, id, p);
      if spaces[id].pages[p].User? {
        return spaces[id].pages[p].shared;
      }
      var frame := AllocFrame();
      if frame.None? {
        return false;
      }
      MapFresh(id, p, frame.value, true, s);
      return true;
    }

    /** `paging_unmap_user_page`: the count drops, or the last mapping frees the frame. */
    method UnmapUserPage(id: nat, p: nat)
      requires Valid()
      modifies this
      ensures After(old(View()), if old(HasPage(View(), id, p)) then Unmap(id, p) else Nothing)
      ensures id in old(spaces) && p < |old(spaces)[id].pages| && old(spaces)[id].pages[p].User? ==>
                var f := old(spaces)[id].pages[p].frame;
                free == old(free) + (if Refs(old(spaces), f) == {(id, p)} then {f} else {})
    {
      hide Abs, Inv;
      ghost var s := State();
      InvShape(s, kernel);
      if id !in spaces || p >= PAGES {
        return;
      }
      MappedHasCell(s, kernel, id, p);
      if spaces[id].pages[p].User? {
        ReleaseEntry(id, p);
      }
    }

    /** `cow_ref_release` and, for the last reference, `pmm_free_block`. */
    method ReleaseEntry(id: nat, p: nat)
      requires Valid() && id in spaces && |spaces[id].pages| == PAGES && p < PAGES && spaces[id].pages[p].User?
      modifies this
      ensures spaces == SetPte(old(spaces), id, p, Absent) && After(old(View()), Unmap(id, p))
      ensures var f := old(spaces)[id].pages[p].frame;
              free == old(free) + (if Refs(old(spaces), f) == {(id, p)} then {f} else {})
    {
      hide Abs, Inv, Refs;
      ghost var s := State();
      InvShape(s, kernel);
      MappedHasCell(s, kernel, id, p);
      DroppedKeeps(s, kernel, id, p);
      DroppedAbs(s, kernel, id, p);
      LastReference(s, kernel, id, p);
      var f := spaces[id].pages[p].frame;
      if pageRef[f] > 0 {
        pageRef := pageRef[f := pageRef[f] - 1];
      } else {
        free := free + {f};
      }
      spaces := SetPte(spaces, id, p, Absent);
    }

    /** `paging_destroy_user_address_space`. */
    method DestroySpace(id: nat)
      requires Valid()
      modifies this
      ensures After(old(View()), if id in old(spaces) then Destroy(id) else Nothing)
    {
      hide Abs, Inv;
      ghost var e := View();
      InvShape(State(), kernel);
      if id !in spaces {
        return;
      }
      ReleaseAll(id);
      TablesFreedKeeps(State(), kernel, id);
      FreedAbs(State(), id);
      ghost var s := State();
      free := free + {spaces[id].first} + {spaces[id].ext} + {id};
      spaces := spaces - {id};
      assert State() == TablesFreed(s, id);
    }

    /** Releases every entry of a space. */
    method ReleaseAll(id: nat)
      requires Valid() && id in spaces && |spaces[id].pages| == PAGES
      modifies this
      ensures Valid() && id in spaces && View() - {id} == old(View()) - {id}
      ensures |spaces[id].pages| == PAGES && forall q :: 0 <= q < PAGES ==> spaces[id].pages[q].Absent?
    {
      hide Abs, Inv, Refs, Step, Possible;
      var p := 0;
      while p < PAGES
        invariant 0 <= p <= PAGES && Valid() && id in spaces && |spaces[id].pages| == PAGES
        invariant View() - {id} == old(View()) - {id}
        invariant forall q :: 0 <= q < p ==> spaces[id].pages[q].Absent?
      {
        if spaces[id].pages[p].User? {
          ghost var before := View();
          ReleaseEntry(id, p);
          UnmappedInside(before, id, p);
        }
        p := p + 1;
      }
    }

    /** `paging_clone_address_space`: read-only sharing in place of copying. */
    method CloneSpace(parent: nat, haveRecord: bool) returns (r: Option<nat>)
      requires Valid()
      modifies this
      ensures After(old(View()), if r.Some? then Clone(parent, r.value) else Nothing)
      ensures r.None? ==> parent !in spaces || !haveRecord || |free| < 3
    {
      hide Abs, Inv, PartClone;
      ghost var e := View();
      InvShape(State(), kernel);
      if parent !in spaces {
        return None;
      }
      r := CreateSpace(haveRecord);
      if r.None? {
        return;
      }
      ClonedNothing(e, parent, r.value);
      CloneTables(parent, r.value, e);
      ClonedAll(e, parent, r.value);
    }

    /** `paging_cow_clone_table` on both tables of a fresh child. */
    method CloneTables(parent: nat, child: nat, ghost e: Eager)
      requires Valid() && parent in spaces && child in spaces && parent != child && parent in e && |e[parent]| == PAGES
      requires spaces[child].pages == NoPages() && View() == PartClone(e, parent, child, 0)
      modifies this
      ensures Valid() && View() == PartClone(e, parent, child, PAGES)
    {
      hide Abs, Inv, PartClone;
      InvShape(State(), kernel);
      var p := 0;
      while p < PAGES
        invariant 0 <= p <= PAGES && Valid() && parent in spaces && child in spaces
        invariant |spaces[parent].pages| == |spaces[child].pages| == PAGES && |pageRef| == FRAMES
        invariant View() == PartClone(e, parent, child, p)
        invariant forall q :: p <= q < PAGES ==> spaces[child].pages[q].Absent?
      {
        ghost var s := State();
        MappedHasCell(s, kernel, parent, p);
        ClonedOne(e, parent, child, p);
        if spaces[parent].pages[p].User? {
          LinkedKeeps(s, kernel, parent, child, p);
          LinkedAbs(s, kernel, parent, child, p);
          ClonePage(parent, child, p);
        }
        p := p + 1;
      }
    }

    /** One iteration of `paging_cow_clone_table`. */
    method ClonePage(parent: nat, child: nat, p: nat)
      requires parent in spaces && child in spaces && parent != child && p < |spaces[parent].pages|
      requires p < |spaces[child].pages|
      requires spaces[parent].pages[p].User? && spaces[parent].pages[p].frame < |pageRef|
      modifies this
      ensures State() == Linked(old(State()), parent, child, p)
    {
      var pte := spaces[parent].pages[p];
      if !pte.shared {
        pte := pte.(rw := false);
      }
      spaces := SetPte(spaces, parent, p, pte);
      spaces := SetPte(spaces, child, p, pte);
      pageRef := pageRef[pte.frame := CountUp(pageRef[pte.frame])];
    }

    /** A page the fault handler can make writable. */
    predicate IsCow(id: nat, p: nat)
      reads this
    {
      id in spaces && p < |spaces[id].pages| && spaces[id].pages[p].User? && !spaces[id].pages[p].rw
    }

    /** `paging_try_cow`: afterwards a read-only page is writable, unless it had to be copied and
        memory ran out; no one's bytes change. */
    method TryCow(id: nat, p: nat) returns (ok: bool)
      requires Valid()
      modifies this
      ensures Valid() && View() == old(View())
      ensures ok ==>
                old(IsCow(id, p)) && id in spaces && p < |spaces[id].pages| && spaces[id].pages[p].User?
                && spaces[id].pages[p].rw
      ensures !ok ==>
                State() == old(State())
                && (IsCow(id, p) ==> free == {} && |Refs(spaces, spaces[id].pages[p].frame)| > 1)
    {
      hide Abs, Inv;
      ghost var s := State();
      InvShape(s, kernel);
      if !IsCow(id, p) {
        return false;
      }
      MoreReferences(s, kernel, id, p);
      MappedIsTaken(s, kernel, id, p);
      RegrantedKeeps(s, kernel, id, p);
      RegrantedAbs(s, kernel, id, p);
      var frame := spaces[id].pages[p].frame;
      if pageRef[frame] > 0 {
        ReadOnlyIsPrivate(s, kernel, id, p);
        var fresh' := AllocFrame();
        if fresh'.None? {
          return false;
        }
        FreeInRange(s, kernel, fresh'.value);
        CopiedKeeps(s, kernel, id, p, fresh'.value);
        CopiedAbs(s, kernel, id, p, fresh'.value);
        mem := mem[fresh'.value := mem[frame]];
        pageRef := pageRef[frame := pageRef[frame] - 1];
        spaces := SetPte(spaces, id, p, User(fresh'.value, true, spaces[id].pages[p].shared));
      } else {
        spaces := SetPte(spaces, id, p, spaces[id].pages[p].(rw := true));
      }
      return true;
    }

    /** A user's store to a mapped page: straight through if the entry is writable, otherwise after
        the fault handler has made it so.  It reaches exactly what it would reach after an eager
        fork. */
    method StorePage(id: nat, p: nat, data: Block) returns (ok: bool)
      requires Valid()
      modifies this
      ensures After(old(View()), if ok then Store(id, p, data) else Nothing)
      ensures !ok ==> !HasPage(old(View()), id, p) || free == {}
    {
      hide Abs, Inv;
      InvShape(State(), kernel);
      if id !in spaces || p >= PAGES {
        return false;
      }
      MappedHasCell(State(), kernel, id, p);
      if !spaces[id].pages[p].User? {
        return false;
      }
      if !spaces[id].pages[p].rw {
        ok := TryCow(id, p);
        if !ok {
          return false;
        }
      }
      StoredAbs(State(), kernel, id, p, data);
      InvShape(State(), kernel);
      mem := mem[spaces[id].pages[p].frame := data];
      return true;
    }

    /** A user's load sees the eager kernel's bytes. */
    method LoadPage(id: nat, p: nat) returns (r: Option<Block>)
      requires Valid()
      ensures r.Some? <==> HasPage(View(), id, p)
      ensures r.Some? ==> r.value == View()[id][p].value.data
    {
      hide Inv;
      InvShape(State(), kernel);
      if id !in spaces || p >= PAGES {
        return None;
      }
      MappedHasCell(State(), kernel, id, p);
      if spaces[id].pages[p].Absent? {
        return None;
      }
      MappedIsTaken(State(), kernel, id, p);
      return Some(mem[spaces[id].pages[p].frame]);
    }
  }

  lemma MoreReferences(s: Mm, kernel: set<nat>, id: nat, p: nat)
    requires Inv(s, kernel) && id in s.spaces && p < PAGES && s.spaces[id].pages[p].User?
    ensures s.spaces[id].pages[p].frame < FRAMES
    ensures s.pageRef[s.spaces[id].pages[p].frame] + 1 == |Refs(s.spaces, s.spaces[id].pages[p].frame)|
  {
    hide Refs;
    var f := s.spaces[id].pages[p].frame;
    MappedIsTaken(s, kernel, id, p);
    InRefs(s.spaces, id, p, f);
    assert Counted(s, f);
  }

  function Obtained(frame: Option<nat>): set<nat> {
    if frame.Some? then {frame.value} else {}
  }

  /** When three allocations in a row do not all succeed, they have emptied the free set. */
  lemma FewLeft(before: set<nat>, a: Option<nat>, b: Option<nat>, c: Option<nat>)
    requires (a.None? <==> before == {}) && Obtained(a) <= before
    requires (b.None? <==> before - Obtained(a) == {}) && Obtained(b) <= before - Obtained(a)
    requires (c.None? <==> before - Obtained(a) - Obtained(b) == {})
    requires Obtained(c) <= before - Obtained(a) - Obtained(b)
    requires a.None? || b.None? || c.None?
    ensures |before| < 3 && before == (before - Obtained(a) - Obtained(b) - Obtained(c)) + Obtained(a) + Obtained(b)
  {
    assert before == Obtained(a) + Obtained(b);
    assert |Obtained(a) + Obtained(b)| <= |Obtained(a)| + |Obtained(b)|;
  }

  lemma ThreeTaken(before: set<nat>, a: nat, b: nat, c: nat)
    requires Obtained(Some(a)) <= before && Obtained(Some(b)) <= before - Obtained(Some(a))
    requires Obtained(Some(c)) <= before - Obtained(Some(a)) - Obtained(Some(b))
    ensures {a, b, c} <= before && a != b && a != c && b != c
    ensures before - Obtained(Some(a)) - Obtained(Some(b)) - Obtained(Some(c)) == before - {a, b, c}
  {
    assert a in Obtained(Some(a)) && b in Obtained(Some(b)) && c in Obtained(Some(c));
  }

  lemma CreatedAbs(s: Mm, id: nat, first: nat, ext: nat)
    requires id !in s.spaces
    ensures Abs(Created(s, id, first, ext)) == Step(Abs(s), Create(id))
  {
    hide Abs;
    SameEager(Abs(Created(s, id, first, ext)), Abs(s)[id := NoCells()]);
  }

  lemma UnmappedInside(e: Eager, id: nat, p: nat)
    requires Possible(e, Unmap(id, p))
    ensures Step(e, Unmap(id, p)) - {id} == e - {id}
  {
  }

  lemma FreedAbs(s: Mm, id: nat)
    requires id in s.spaces
    ensures Abs(TablesFreed(s, id)) == Abs(s) - {id}
  {
    hide Abs;
    SameEager(Abs(TablesFreed(s, id)), Abs(s) - {id});
  }

  /** With a zero count the entry is the only mapping of its frame. */
  lemma LastReference(s: Mm, kernel: set<nat>, id: nat, p: nat)
    requires Inv(s, kernel) && id in s.spaces && p < PAGES && s.spaces[id].pages[p].User?
    requires s.spaces[id].pages[p].frame < FRAMES
    ensures s.pageRef[s.spaces[id].pages[p].frame] == 0 <==> Refs(s.spaces, s.spaces[id].pages[p].frame) == {(id, p)}
  {
    hide Refs, Agree, Placed;
    var f := s.spaces[id].pages[p].frame;
    var refs := Refs(s.spaces, f);
    InRefs(s.spaces, id, p, f);
    assert Counted(s, f);
    assert |refs - {(id, p)}| == |refs| - 1;
    if s.pageRef[f] == 0 {
      assert refs - {(id, p)} == {};
    }
  }

  /** The clone with its first `n` pages done. */
  function PartClone(e: Eager, parent: nat, child: nat, n: nat): Eager
    requires parent in e && |e[parent]| == PAGES && n <= PAGES
  {
    e[child := e[parent][..n] + NoCells()[n..]]
  }

  lemma ClonedNothing(e: Eager, parent: nat, child: nat)
    requires parent in e && |e[parent]| == PAGES
    ensures PartClone(e, parent, child, 0) == e[child := NoCells()]
  {
    assert e[parent][..0] + NoCells()[0..] == NoCells();
  }

  lemma ClonedOne(e: Eager, parent: nat, child: nat, p: nat)
    requires parent in e && |e[parent]| == PAGES && p < PAGES && parent != child
    ensures var now := PartClone(e, parent, child, p);
            && now[parent] == e[parent] && |now[child]| == PAGES
            && PartClone(e, parent, child, p + 1) == Put(now, child, p, e[parent][p])
            && (e[parent][p].None? ==> PartClone(e, parent, child, p + 1) == now)
  {
    var now := e[parent][..p] + NoCells()[p..];
    assert e[parent][..p + 1] + NoCells()[p + 1..] == now[p := e[parent][p]];
    assert e[parent][p].None? ==> now[p := e[parent][p]] == now;
  }

  lemma ClonedAll(e: Eager, parent: nat, child: nat)
    requires parent in e && |e[parent]| == PAGES
    ensures PartClone(e, parent, child, PAGES) == e[child := e[parent]]
  {
    assert e[parent][..PAGES] + NoCells()[PAGES..] == e[parent];
  }

  // ------------------------------------------------------------------------ whole runs

  datatype Request =
    | NewSpace(haveRecord: bool)
    | MapPage(id: nat, page: nat)
    | ShareWith(id: nat, page: nat)
    | Fork(parent: nat, haveRecord: bool)
    | StoreTo(id: nat, page: nat, data: Block)
    | LoadFrom(id: nat, page: nat)
    | UnmapPage(id: nat, page: nat)
    | DestroySpace(id: nat)

  /** The event is what the request asks for, or nothing. */
  predicate Answers(ev: Event, q: Request) {
    match ev
    case Create(_) => q.NewSpace?
    case Map(id, p) => q == MapPage(id, p)
    case Share(id, p, _) => q == ShareWith(id, p)
    case Clone(parent, _) => q.Fork? && q.parent == parent
    case Store(id, p, data) => q == StoreTo(id, p, data)
    case Unmap(id, p) => q == UnmapPage(id, p)
    case Destroy(id) => q == DestroySpace(id)
    case Nothing => true
  }

  /** What a load returns in the eager kernel. */
  function Seen(e: Eager, q: Request): Option<Block> {
    if q.LoadFrom? && HasPage(e, q.id, q.page) then Some(e[q.id][q.page].value.data) else None
  }

  /** Any requests, one after the other: the copy-on-write kernel has gone through a run of the eager
      one, and every load on the way returned what it would return there. */
  method Serve(mm: AddressSpaces, requests: seq<Request>) returns (loads: seq<Option<Block>>, ghost events: seq<Event>)
    requires mm.Valid()
    modifies mm
    ensures mm.Valid() && Run(old(mm.View()), events) == Some(mm.View())
    ensures |loads| == |events| == |requests| && forall i :: 0 <= i < |events| ==> Answers(events[i], requests[i])
    ensures forall i :: 0 <= i < |events| ==> LoadedAt(old(mm.View()), events, i, requests[i], loads[i])
  {
    hide Inv, Abs, Step, Possible, Seen, Answers;
    loads, events := [], [];
    for k := 0 to |requests|
      invariant mm.Valid() && Run(old(mm.View()), events) == Some(mm.View())
      invariant |loads| == |events| == k && forall i :: 0 <= i < k ==> Answers(events[i], requests[i])
      invariant forall i :: 0 <= i < k ==> LoadedAt(old(mm.View()), events, i, requests[i], loads[i])
    {
      ghost var before, evs := mm.View(), events;
      var load;
      ghost var ev;
      load, ev := ServeOne(mm, requests[k]);
      RunMore(old(mm.View()), evs, ev);
      forall i | 0 <= i < k ensures LoadedAt(old(mm.View()), evs + [ev], i, requests[i], loads[i]) {
        assert (evs + [ev])[..i] == evs[..i];
      }
      assert (evs + [ev])[..k] == evs;
      loads, events := loads + [load], events + [ev];
    }
  }

  ghost predicate LoadedAt(start: Eager, events: seq<Event>, i: nat, q: Request, load: Option<Block>)
    requires i <= |events|
  {
    Run(start, events[..i]).Some? && load == Seen(Run(start, events[..i]).value, q)
  }

  lemma RunMore(start: Eager, evs: seq<Event>, ev: Event)
    requires Run(start, evs).Some? && Possible(Run(start, evs).value, ev)
    ensures Run(start, evs + [ev]) == Some(Step(Run(start, evs).value, ev))
  {
    assert (evs + [ev])[..|evs|] == evs;
  }

  method ServeOne(mm: AddressSpaces, q: Request) returns (load: Option<Block>, ghost ev: Event)
    requires mm.Valid()
    modifies mm
    ensures mm.After(old(mm.View()), ev) && Answers(ev, q)
    ensures load == Seen(old(mm.View()), q)
  {
    hide Inv, Abs, Step;
    load, ev := None, Nothing;
    ghost var before := mm.View();
    match q {
      case NewSpace(haveRecord) =>
        var r := mm.CreateSpace(haveRecord);
        ev := if r.Some? then Create(r.value) else Nothing;
      case MapPage(id, p) =>
        var ok := mm.MapUserPage(id, p);
        ev := if ok && !HasPage(before, id, p) then Map(id, p) else Nothing;
      case ShareWith(id, p) =>
        var ok := mm.SharePage(id, p);
        if !HasPage(before, id, p) && ok {
          var o :| mm.After(before, Share(id, p, o));
          ev := Share(id, p, o);
        }
      case Fork(parent, haveRecord) =>
        var r := mm.CloneSpace(parent, haveRecord);
        ev := if r.Some? then Clone(parent, r.value) else Nothing;
      case StoreTo(id, p, data) =>
        var ok := mm.StorePage(id, p, data);
        ev := if ok then Store(id, p, data) else Nothing;
      case LoadFrom(id, p) =>
        load := mm.LoadPage(id, p);
        Unchanged(mm.View());
      case UnmapPage(id, p) =>
        mm.UnmapUserPage(id, p);
        ev := if HasPage(before, id, p) then Unmap(id, p) else Nothing;
      case DestroySpace(id) =>
        mm.DestroySpace(id);
        ev := if id in before then Destroy(id) else Nothing;
    }
  }

  lemma Unchanged(e: Eager)
    ensures Step(e, Nothing) == e
  {
  }
}
