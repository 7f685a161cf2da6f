/** Copy-on-write against the fork it imitates (`paging.h`): an eager fork that copies every private
    page and shares only the pages marked shared. */
module EagerFork {
  import opened Blocks
  import opened Results
  import opened Paging

  // ------------------------------------------------------------------------ the eager kernel

  /** A page as its process sees it; pages of one shared object change together. */
  datatype Cell = Cell(data: Block, obj: Option<nat>)

  type Eager = map<nat, seq<Option<Cell>>>

  predicate HasPage(e: Eager, id: nat, p: nat) {
    id in e && p < |e[id]| && e[id][p].Some?
  }

  function Put(e: Eager, id: nat, p: nat, c: Option<Cell>): (r: Eager)
    requires id in e && p < |e[id]|
  {
    e[id := e[id][p := c]]
  }

  /** A store reaches its own page and, if that is shared, every page of the same object. */
  predicate Reached(e: Eager, id: nat, p: nat, jd: nat, q: nat)
    requires HasPage(e, id, p) && jd in e && q < |e[jd]|
  {
    e[jd][q].Some? && ((jd == id && q == p) || (e[id][p].value.obj.Some? && e[jd][q].value.obj == e[id][p].value.obj))
  }

  function Written(e: Eager, id: nat, p: nat, data: Block): (r: Eager)
    requires HasPage(e, id, p)
  {
    map jd | jd in e :: seq(|e[jd]|, q requires 0 <= q < |e[jd]| =>
      if Reached(e, id, p, jd, q) then Some(e[jd][q].value.(data := data)) else e[jd][q])
  }

  datatype Event =
    | Create(id: nat)
    | Map(id: nat, page: nat)
    | Share(id: nat, page: nat, obj: nat)
    | Clone(parent: nat, child: nat)
    | Store(id: nat, page: nat, data: Block)
    | Unmap(id: nat, page: nat)
    | Destroy(id: nat)
    | Nothing  // refused, out of memory, or already so

  function NoCells(): (cells: seq<Option<Cell>>)
    ensures |cells| == PAGES
  {
    seq(PAGES, _ => None)
  }

  predicate FreshObject(e: Eager, obj: nat) {
    forall jd, q :: jd in e && 0 <= q < |e[jd]| && e[jd][q].Some? ==> e[jd][q].value.obj != Some(obj)
  }

  /** When an event can happen in the eager kernel. */
  predicate Possible(e: Eager, ev: Event) {
    match ev
    case Create(id) => id !in e
    case Map(id, p) => id in e && p < |e[id]| && e[id][p].None?
    case Share(id, p, o) => id in e && p < |e[id]| && e[id][p].None? && FreshObject(e, o)
    case Clone(parent, child) => parent in e && child !in e
    case Store(id, p, _) => HasPage(e, id, p)
    case Unmap(id, p) => HasPage(e, id, p)
    case Destroy(id) => id in e
    case Nothing => true
  }

  function Step(e: Eager, ev: Event): (r: Eager)
    requires Possible(e, ev)
  {
    match ev
    case Create(id) => e[id := NoCells()]
    case Map(id, p) => Put(e, id, p, Some(Cell(ZERO_BLOCK, None)))
    case Share(id, p, o) => Put(e, id, p, Some(Cell(ZERO_BLOCK, Some(o))))
    case Clone(parent, child) => e[child := e[parent]]
    case Store(id, p, data) => Written(e, id, p, data)
    case Unmap(id, p) => Put(e, id, p, None)
    case Destroy(id) => e - {id}
    case Nothing => e
  }

  function Run(e: Eager, evs: seq<Event>): (r: Option<Eager>) {
    if evs == [] then Some(e)
    else
      var mid := Run(e, evs[..|evs| - 1]);
      if mid.Some? && Possible(mid.value, evs[|evs| - 1]) then Some(Step(mid.value, evs[|evs| - 1])) else None
  }

  /** The space an event acts on. */
  predicate ActsOn(ev: Event, id: nat) {
    match ev
    case Create(x) => x == id
    case Map(x, _) => x == id
    case Share(x, _, _) => x == id
    case Clone(_, child) => child == id
    case Store(x, _, _) => x == id
    case Unmap(x, _) => x == id
    case Destroy(x) => x == id
    case Nothing => false
  }

  /** Isolation over whole runs: what others do -- forking from it included -- never changes a
      private page of a space. */
  lemma {:induction false} PrivatePagesAreIsolated(e: Eager, evs: seq<Event>, id: nat, p: nat)
    requires Run(e, evs).Some? && HasPage(e, id, p) && e[id][p].value.obj.None?
    requires forall i :: 0 <= i < |evs| ==> !ActsOn(evs[i], id)
    ensures HasPage(Run(e, evs).value, id, p) && Run(e, evs).value[id][p] == e[id][p]
    decreases |evs|
  {
    if evs != [] {
      var n := |evs| - 1;
      PrivatePagesAreIsolated(e, evs[..n], id, p);
      assert !ActsOn(evs[n], id);
    }
  }

  /** A fork gives the child the parent's memory, whatever the parent then does to its private pages. */
  lemma ChildKeepsItsCopy(e: Eager, parent: nat, child: nat, evs: seq<Event>, p: nat)
    requires parent in e && child !in e && HasPage(e, parent, p) && e[parent][p].value.obj.None?
    requires Run(Step(e, Clone(parent, child)), evs).Some? && forall i :: 0 <= i < |evs| ==> !ActsOn(evs[i], child)
    ensures HasPage(Run(Step(e, Clone(parent, child)), evs).value, child, p)
    ensures Run(Step(e, Clone(parent, child)), evs).value[child][p] == e[parent][p]
  {
    PrivatePagesAreIsolated(Step(e, Clone(parent, child)), evs, child, p);
  }

  /** A private page keeps what its owner stored until the owner acts again. */
  lemma StoreLasts(e: Eager, evs: seq<Event>, id: nat, p: nat, data: Block)
    requires HasPage(e, id, p) && e[id][p].value.obj.None? && Run(Step(e, Store(id, p, data)), evs).Some?
    requires forall i :: 0 <= i < |evs| ==> !ActsOn(evs[i], id)
    ensures HasPage(Run(Step(e, Store(id, p, data)), evs).value, id, p)
    ensures Run(Step(e, Store(id, p, data)), evs).value[id][p] == Some(Cell(data, None))
  {
    PrivatePagesAreIsolated(Step(e, Store(id, p, data)), evs, id, p);
  }

  /** A new private page reads as zeros until its owner acts again. */
  lemma NewPageIsZero(e: Eager, evs: seq<Event>, id: nat, p: nat)
    requires Possible(e, Map(id, p)) && Run(Step(e, Map(id, p)), evs).Some?
    requires forall i :: 0 <= i < |evs| ==> !ActsOn(evs[i], id)
    ensures HasPage(Run(Step(e, Map(id, p)), evs).value, id, p)
    ensures Run(Step(e, Map(id, p)), evs).value[id][p] == Some(Cell(ZERO_BLOCK, None))
  {
    PrivatePagesAreIsolated(Step(e, Map(id, p)), evs, id, p);
  }

  /** Pages of one shared object hold the same data. */
  ghost predicate SharedAgree(e: Eager) {
    forall id, p: nat, jd, q: nat ::
      HasPage(e, id, p) && HasPage(e, jd, q) && e[id][p].value.obj.Some? &&
      e[id][p].value.obj == e[jd][q].value.obj ==>
        e[id][p].value.data == e[jd][q].value.data
  }

  /** Over whole runs, whoever stores, forks or goes away: a store to a shared page reaches every page of the
      object. */
  lemma {:induction false} SharedPagesAgree(evs: seq<Event>)
    requires Run(map[], evs).Some?
    ensures SharedAgree(Run(map[], evs).value)
  {
    if evs != [] {
      var n := |evs| - 1;
      SharedPagesAgree(evs[..n]);
      StepAgrees(Run(map[], evs[..n]).value, evs[n]);
    }
  }

  /** So in any run a store to a shared page is read at once through every mapping of the object. */
  lemma SharedStoreIsSeen(evs: seq<Event>, id: nat, p: nat, data: Block, jd: nat, q: nat)
    requires Run(map[], evs + [Store(id, p, data)]).Some?
    requires var e: Eager := Run(map[], evs + [Store(id, p, data)]).value;
             && HasPage(e, id, p) && HasPage(e, jd, q)
             && e[id][p].value.obj.Some? && e[jd][q].value.obj == e[id][p].value.obj
    ensures var e: Eager := Run(map[], evs + [Store(id, p, data)]).value; e[jd][q].value.data == data
  {
    hide SharedAgree;
    var all := evs + [Store(id, p, data)];
    assert all[..|evs|] == evs;
    var e: Eager := Run(map[], all).value;
    SharedPagesAgree(all);
    assert e == Step(Run(map[], evs).value, Store(id, p, data)) && e[id][p].value.data == data;
    AgreesAt(e, id, p, jd, q);
  }

  lemma AgreesAt(e: Eager, id: nat, p: nat, jd: nat, q: nat)
    requires SharedAgree(e) && HasPage(e, id, p) && HasPage(e, jd, q)
    requires e[id][p].value.obj.Some? && e[jd][q].value.obj == e[id][p].value.obj
    ensures e[jd][q].value.data == e[id][p].value.data
  {
  }

  lemma StepAgrees(e: Eager, ev: Event)
    requires SharedAgree(e) && Possible(e, ev)
    ensures SharedAgree(Step(e, ev))
  {
    hide SharedAgree;
    match ev {
      case Store(id, p, data) =>
        StoreAgrees(e, id, p, data);
      case Share(id, p, o) =>
        ShareAgrees(e, id, p, o);
      case Clone(parent, child) =>
        CloneAgrees(e, parent, child);
      case _ =>
        SomePagesAgree(e, Step(e, ev));
    }
  }

  /** Fewer pages, and new private ones. */
  lemma SomePagesAgree(e: Eager, e': Eager)
    requires SharedAgree(e)
    requires forall id, p: nat :: HasPage(e', id, p) && e'[id][p].value.obj.Some? ==>
               HasPage(e, id, p) && e[id][p] == e'[id][p]
    ensures SharedAgree(e')
  {
  }

  lemma CloneAgrees(e: Eager, parent: nat, child: nat)
    requires SharedAgree(e) && Possible(e, Clone(parent, child))
    ensures SharedAgree(Step(e, Clone(parent, child)))
  {
    var e' := Step(e, Clone(parent, child));
    forall id, p: nat, jd, q: nat | HasPage(e', id, p) && HasPage(e', jd, q) && e'[id][p].value.obj.Some? &&
        e'[id][p].value.obj == e'[jd][q].value.obj
      ensures e'[id][p].value.data == e'[jd][q].value.data
    {
      var i, j := if id == child then parent else id, if jd == child then parent else jd;
      assert HasPage(e, i, p) && HasPage(e, j, q);
    }
  }

  lemma ShareAgrees(e: Eager, id: nat, p: nat, o: nat)
    requires SharedAgree(e) && Possible(e, Share(id, p, o))
    ensures SharedAgree(Step(e, Share(id, p, o)))
  {
    var e' := Step(e, Share(id, p, o));
    forall jd, q: nat | HasPage(e', jd, q) && !(jd == id && q == p)
      ensures HasPage(e, jd, q) && e'[jd][q] == e[jd][q] && e[jd][q].value.obj != Some(o)
    {
    }
  }

  lemma StoreAgrees(e: Eager, id: nat, p: nat, data: Block)
    requires SharedAgree(e) && HasPage(e, id, p)
    ensures SharedAgree(Written(e, id, p, data))
  {
    var e' := Written(e, id, p, data);
    forall jd, q: nat | HasPage(e', jd, q)
      ensures HasPage(e, jd, q) && e'[jd][q].value.obj == e[jd][q].value.obj
      ensures e'[jd][q].value.data == if Reached(e, id, p, jd, q) then data else e[jd][q].value.data
    {
    }
  }

  // ------------------------------------------------------------------------ the abstraction

  function CellOf(mem: seq<Block>, pte: Pte): (c: Option<Cell>) {
    if pte.Absent? || pte.frame >= |mem| then None
    else Some(Cell(mem[pte.frame], if pte.shared then Some(pte.frame) else None))
  }

  function Abs(s: Mm): (e: Eager)
    ensures e.Keys == s.spaces.Keys
    ensures forall id :: id in e ==> |e[id]| == |s.spaces[id].pages|
    ensures forall id, p :: id in e && 0 <= p < |e[id]| ==> e[id][p] == CellOf(s.mem, s.spaces[id].pages[p])
  {
    map id | id in s.spaces ::
        seq(|s.spaces[id].pages|, p requires 0 <= p < |s.spaces[id].pages| => CellOf(s.mem, s.spaces[id].pages[p]))
  }

  /** Two eager states with the same spaces and pages are the same. */
  lemma SameEager(a: Eager, b: Eager)
    requires a.Keys == b.Keys && forall id :: id in a ==> |a[id]| == |b[id]|
    requires forall id, p :: id in a && 0 <= p < |a[id]| ==> a[id][p] == b[id][p]
    ensures a == b
  {
    forall id | id in a ensures a[id] == b[id] {
    }
  }

  lemma MappedHasCell(s: Mm, kernel: set<nat>, id: nat, p: nat)
    requires Inv(s, kernel) && id in s.spaces && p < PAGES
    ensures p < |Abs(s)[id]| && (HasPage(Abs(s), id, p) <==> s.spaces[id].pages[p].User?)
  {
    hide Counted, Agree, Placed, Abs;
    if s.spaces[id].pages[p].User? {
      MappedIsTaken(s, kernel, id, p);
    }
  }

  lemma MappedAbs(s: Mm, kernel: set<nat>, id: nat, p: nat, f: nat, shared: bool)
    requires Inv(s, kernel) && id in s.spaces && p < PAGES && s.spaces[id].pages[p].Absent? && f in s.free
    ensures var ev := if shared then Share(id, p, f) else Map(id, p);
            Possible(Abs(s), ev) && Abs(Mapped(s, id, p, f, shared)) == Step(Abs(s), ev)
  {
    hide Abs, Inv;
    InvShape(s, kernel);
    var ev := if shared then Share(id, p, f) else Map(id, p);
    forall jd, q | jd in s.spaces && 0 <= q < PAGES && s.spaces[jd].pages[q].User?
      ensures s.spaces[jd].pages[q].frame != f
    {
      MappedIsTaken(s, kernel, jd, q);
    }
    FreeInRange(s, kernel, f);
    SameEager(Abs(Mapped(s, id, p, f, shared)), Step(Abs(s), ev));
  }

  lemma InvShape(s: Mm, kernel: set<nat>)
    requires Inv(s, kernel)
    ensures |s.pageRef| == |s.mem| == FRAMES && forall id :: id in s.spaces ==> |s.spaces[id].pages| == PAGES
  {
    hide Counted, Agree, Placed;
  }

  lemma FreeInRange(s: Mm, kernel: set<nat>, f: nat)
    requires Inv(s, kernel) && f in s.free
    ensures f < FRAMES
  {
    hide Counted, Agree, Placed;
  }

  lemma LinkedAbs(s: Mm, kernel: set<nat>, parent: nat, child: nat, p: nat)
    requires Inv(s, kernel) && parent in s.spaces && child in s.spaces && parent != child && p < PAGES
    requires s.spaces[parent].pages[p].User? && s.spaces[parent].pages[p].frame < FRAMES
    ensures p < |Abs(s)[parent]| && p < |Abs(s)[child]|
    ensures Abs(Linked(s, parent, child, p)) == Put(Abs(s), child, p, Abs(s)[parent][p])
  {
    hide Abs, Inv;
    InvShape(s, kernel);
    SameEager(Abs(Linked(s, parent, child, p)), Put(Abs(s), child, p, Abs(s)[parent][p]));
  }

  lemma CopiedAbs(s: Mm, kernel: set<nat>, id: nat, p: nat, f': nat)
    requires Inv(s, kernel) && id in s.spaces && p < PAGES && s.spaces[id].pages[p].User? && !s.spaces[id].pages[p].rw
    requires f' in s.free
    requires s.spaces[id].pages[p].frame < FRAMES && s.pageRef[s.spaces[id].pages[p].frame] > 0
    ensures Abs(Copied(s, id, p, f')) == Abs(s)
  {
    hide Abs, Inv;
    InvShape(s, kernel);
    forall jd, q | jd in s.spaces && 0 <= q < PAGES && s.spaces[jd].pages[q].User?
      ensures s.spaces[jd].pages[q].frame != f'
    {
      MappedIsTaken(s, kernel, jd, q);
    }
    FreeInRange(s, kernel, f');
    ReadOnlyIsPrivate(s, kernel, id, p);
    SameEager(Abs(Copied(s, id, p, f')), Abs(s));
  }

  lemma ReadOnlyIsPrivate(s: Mm, kernel: set<nat>, id: nat, p: nat)
    requires Inv(s, kernel) && id in s.spaces && p < PAGES && s.spaces[id].pages[p].User? && !s.spaces[id].pages[p].rw
    ensures !s.spaces[id].pages[p].shared
  {
    hide Refs, Counted, Placed;
    var f := s.spaces[id].pages[p].frame;
    InRefs(s.spaces, id, p, f);
    assert Agree(s.spaces, f);
  }

  lemma RegrantedAbs(s: Mm, kernel: set<nat>, id: nat, p: nat)
    requires Inv(s, kernel) && id in s.spaces && p < PAGES && s.spaces[id].pages[p].User?
    ensures Abs(Regranted(s, id, p)) == Abs(s)
  {
    hide Abs, Inv;
    InvShape(s, kernel);
    SameEager(Abs(Regranted(s, id, p)), Abs(s));
  }

  /** A store through a writable entry. */
  function StoredTo(s: Mm, f: nat, data: Block): (r: Mm)
    requires f < |s.mem|
  {
    s.(mem := s.mem[f := data])
  }

  lemma StoredAbs(s: Mm, kernel: set<nat>, id: nat, p: nat, data: Block)
    requires Inv(s, kernel) && id in s.spaces && p < PAGES && s.spaces[id].pages[p].User? && s.spaces[id].pages[p].rw
    ensures s.spaces[id].pages[p].frame < FRAMES && Inv(StoredTo(s, s.spaces[id].pages[p].frame, data), kernel)
    ensures HasPage(Abs(s), id, p)
    ensures Abs(StoredTo(s, s.spaces[id].pages[p].frame, data)) == Written(Abs(s), id, p, data)
  {
    hide Abs, Inv;
    InvShape(s, kernel);
    var f := s.spaces[id].pages[p].frame;
    MappedIsTaken(s, kernel, id, p);
    MappedHasCell(s, kernel, id, p);
    MemoryOnly(s, kernel, f, data);
    var a, b := Abs(StoredTo(s, f, data)), Written(Abs(s), id, p, data);
    forall jd, q | jd in s.spaces && 0 <= q < PAGES ensures a[jd][q] == b[jd][q] {
      if s.spaces[jd].pages[q].User? {
        MappedIsTaken(s, kernel, jd, q);
        WritableReach(s, kernel, id, p, jd, q);
      }
    }
    SameEager(a, b);
  }

  lemma MemoryOnly(s: Mm, kernel: set<nat>, f: nat, data: Block)
    requires Inv(s, kernel) && f < FRAMES && |s.mem| == FRAMES
    ensures Inv(StoredTo(s, f, data), kernel)
  {
    hide Refs, Agree, IsTable;
    var s' := StoredTo(s, f, data);
    forall g | 0 <= g < FRAMES ensures Counted(s', g) && Agree(s'.spaces, g) && Placed(s', kernel, g) {
      assert Counted(s, g) && Agree(s.spaces, g) && Placed(s, kernel, g);
    }
  }

  /** Another mapping of a writable page's frame is a mapping of the same shared object. */
  lemma WritableReach(s: Mm, kernel: set<nat>, id: nat, p: nat, jd: nat, q: nat)
    requires Inv(s, kernel) && id in s.spaces && p < PAGES && s.spaces[id].pages[p].User? && s.spaces[id].pages[p].rw
    requires jd in s.spaces && q < PAGES && s.spaces[jd].pages[q].User?
    ensures s.spaces[jd].pages[q].frame == s.spaces[id].pages[p].frame ==>
              (jd == id && q == p) || (s.spaces[id].pages[p].shared && s.spaces[jd].pages[q].shared)
  {
    hide Refs, Counted, Placed;
    var f := s.spaces[id].pages[p].frame;
    InRefs(s.spaces, id, p, f);
    InRefs(s.spaces, jd, q, f);
    assert Agree(s.spaces, f);
  }

  lemma DroppedAbs(s: Mm, kernel: set<nat>, id: nat, p: nat)
    requires Inv(s, kernel) && id in s.spaces && p < PAGES && s.spaces[id].pages[p].User?
    requires s.spaces[id].pages[p].frame < FRAMES
    ensures p < |Abs(s)[id]| && Abs(Dropped(s, id, p)) == Put(Abs(s), id, p, None)
  {
    hide Abs, Inv;
    InvShape(s, kernel);
    SameEager(Abs(Dropped(s, id, p)), Put(Abs(s), id, p, None));
  }
}
