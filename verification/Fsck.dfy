/** The consistency audits of `fsck.rs`. */
module Fsck {
  import opened Bytes
  import opened Results
  import opened Sequences
  import opened Graph
  import opened Format
  import opened InodeTable
  import opened DirectoryTable

  const ROOT: u64 := 1

  type Kinds = map<u64, InodeKind>

  function KindMap(inodes: seq<Inode>): (kinds: Kinds)
    ensures forall x :: x in kinds <==> HasId(inodes, x)
    ensures inodes == [] <==> kinds == map[]
  {
    if inodes == [] then map[]
    else
      var last := inodes[|inodes| - 1];
      var kinds := KindMap(inodes[..|inodes| - 1])[last.id := last.kind];
      assert forall x :: HasId(inodes, x) <==> x == last.id || HasId(inodes[..|inodes| - 1], x);
      assert last.id in kinds;
      kinds
  }

  predicate HasId(inodes: seq<Inode>, x: u64) {
    exists i :: 0 <= i < |inodes| && inodes[i].id == x
  }

  function EdgeSet(es: seq<DirEntry>): Edges {
    set i | 0 <= i < |es| :: (es[i].parent, es[i].target)
  }

  predicate IsDir(kinds: Kinds, x: u64) {
    x in kinds && kinds[x].Directory?
  }

  /** The edges between directories. */
  function DirEdges(kinds: Kinds, es: seq<DirEntry>): Edges {
    set e | e in EdgeSet(es) && IsDir(kinds, e.1)
  }

  /** Every entry joins an existing directory to an existing inode. */
  predicate EntriesOk(kinds: Kinds, es: seq<DirEntry>) {
    forall i :: 0 <= i < |es| ==> IsDir(kinds, es[i].parent) && es[i].target in kinds
  }

  /** A legal namespace: a rooted, connected directory structure without cycles. */
  ghost predicate NamespaceOk(kinds: Kinds, es: seq<DirEntry>) {
    && EntriesOk(kinds, es)
    && (kinds != map[] ==>
          && IsDir(kinds, ROOT)
          && (forall x :: x in kinds ==> Reach(EdgeSet(es), ROOT, x))
          && Acyclic(DirEdges(kinds, es)))
  }

  // ------------------------------------------------------------------------ adjacency

  type Adjacency = map<u64, seq<u64>>

  predicate Adjacent(adj: Adjacency, a: u64, b: u64) {
    a in adj && b in adj[a]
  }

  ghost predicate Lists(adj: Adjacency, g: Edges) {
    forall a: u64, b: u64 :: Adjacent(adj, a, b) <==> (a, b) in g
  }

  /** Checks each entry and files it under its parent. */
  method BuildAdjacency(kinds: Kinds, es: seq<DirEntry>) returns (ok: bool, adj: Adjacency)
    ensures ok <==> EntriesOk(kinds, es)
    ensures ok ==> Lists(adj, EdgeSet(es))
  {
    adj := map[];
    var i := 0;
    while i < |es|
      invariant 0 <= i <= |es|
      invariant EntriesOk(kinds, es[..i])
      invariant Lists(adj, EdgeSet(es[..i]))
    {
      var e := es[i];
      if !IsDir(kinds, e.parent) || e.target !in kinds {
        return false, adj;
      }
      EdgeSetSnoc(es, i);
      var was := adj;
      adj := adj[e.parent := (if e.parent in adj then adj[e.parent] else []) + [e.target]];
      AdjacencyGrows(was, adj, e.parent, e.target);
      i := i + 1;
    }
    assert es[..i] == es;
    return true, adj;
  }

  lemma EdgeSetSnoc(es: seq<DirEntry>, i: nat)
    requires i < |es|
    ensures EdgeSet(es[..i + 1]) == EdgeSet(es[..i]) + {(es[i].parent, es[i].target)}
  {
    var a, b := EdgeSet(es[..i + 1]), EdgeSet(es[..i]) + {(es[i].parent, es[i].target)};
    forall e | e in a ensures e in b {
      var k :| 0 <= k < i + 1 && e == (es[..i + 1][k].parent, es[..i + 1][k].target);
      if k < i {
        assert e == (es[..i][k].parent, es[..i][k].target);
      }
    }
    forall e | e in b ensures e in a {
      if e in EdgeSet(es[..i]) {
        var k :| 0 <= k < i && e == (es[..i][k].parent, es[..i][k].target);
        assert e == (es[..i + 1][k].parent, es[..i + 1][k].target);
      } else {
        assert e == (es[..i + 1][i].parent, es[..i + 1][i].target);
      }
    }
  }

  lemma AdjacencyGrows(adj: Adjacency, adj': Adjacency, p: u64, t: u64)
    requires adj' == adj[p := (if p in adj then adj[p] else []) + [t]]
    ensures forall a, b :: Adjacent(adj', a, b) <==> Adjacent(adj, a, b) || (a == p && b == t)
  {
    forall a, b ensures Adjacent(adj', a, b) <==> Adjacent(adj, a, b) || (a == p && b == t) {
      if a == p {
        assert adj'[p] == (if p in adj then adj[p] else []) + [t];
      }
    }
  }

  // ------------------------------------------------------------------------ cycles

  /** `adj` restricted to directory targets. */
  ghost predicate ListsDirs(kinds: Kinds, adj: Adjacency, g: Edges) {
    forall a: u64, b: u64 :: (a, b) in g <==> Adjacent(adj, a, b) && IsDir(kinds, b)
  }

  const GRAY: nat := 1
  const BLACK: nat := 2

  type Colours = map<u64, nat>

  ghost predicate Coloured(states: Colours, colour: nat, x: u64) {
    x in states && states[x] == colour
  }

  /** Finished nodes are ranked by finishing time and lead only to finished nodes. */
  ghost predicate Finished(g: Edges, states: Colours, rank: map<u64, nat>) {
    && (forall x :: x in rank <==> Coloured(states, BLACK, x))
    && (forall x :: x in rank ==> rank[x] < |rank|)
    && Ranks(g, rank)
  }

  ghost predicate Colouring(kinds: Kinds, states: Colours) {
    forall x :: x in states ==> x in kinds && (states[x] == GRAY || states[x] == BLACK)
  }

  ghost predicate SameGray(before: Colours, after: Colours) {
    forall x :: Coloured(before, GRAY, x) <==> Coloured(after, GRAY, x)
  }

  ghost predicate KeepsBlack(before: Colours, after: Colours) {
    forall x :: Coloured(before, BLACK, x) ==> Coloured(after, BLACK, x)
  }

  /** The search's measure: inodes it has not met yet. */
  ghost function Uncoloured(kinds: Kinds, states: Colours): nat {
    |kinds.Keys - states.Keys|
  }

  lemma OneLessUncoloured(kinds: Kinds, states: Colours, x: u64)
    requires x in kinds && x !in states
    ensures Uncoloured(kinds, states[x := GRAY]) < Uncoloured(kinds, states)
  {
    assert kinds.Keys - states[x := GRAY].Keys == (kinds.Keys - states.Keys) - {x};
  }

  lemma NoMoreUncoloured(kinds: Kinds, before: Colours, after: Colours)
    requires before.Keys <= after.Keys
    ensures Uncoloured(kinds, after) <= Uncoloured(kinds, before)
  {
    SubsetSize(kinds.Keys - after.Keys, kinds.Keys - before.Keys);
  }

  /** Depth-first search from `inode`.  Every grey node has a path to it, so meeting a grey node
      closes a cycle; what turns black can no longer be on one. */
  method AuditDirectoryCycle(inode: u64, kinds: Kinds, adj: Adjacency, states: Colours, ghost g: Edges,
                             ghost rank: map<u64, nat>)
    returns (ok: bool, out: Colours, ghost ranked: map<u64, nat>)
    requires inode in kinds
    requires ListsDirs(kinds, adj, g)
    requires Colouring(kinds, states) && Finished(g, states, rank)
    requires forall x :: Coloured(states, GRAY, x) ==> ReachPlus(g, x, inode)
    ensures !ok ==> !Acyclic(g)
    ensures ok ==> Colouring(kinds, out) && Finished(g, out, ranked)
    ensures ok ==> Coloured(out, BLACK, inode) && SameGray(states, out) && KeepsBlack(states, out)
    decreases Uncoloured(kinds, states), 1
  {
    hide Finished, ReachPlus, Acyclic, SameGray, KeepsBlack, ListsDirs, Uncoloured, IsDir;
    if inode in states && states[inode] == GRAY {
      assert Coloured(states, GRAY, inode);
      LoopIsCycle(g, inode);
      return false, states, rank;
    }
    if inode in states {
      SameAsItself(states);
      return true, states, rank;
    }
    StartNode(g, states, rank, inode);
    NodeEdges(kinds, adj, g, inode);
    out, ranked := states[inode := GRAY], rank;
    OneLessUncoloured(kinds, states, inode);
    ok := true;
    if inode in adj {
      ok, out, ranked := AuditTargets(inode, adj[inode], kinds, adj, out, states, g, ranked);
    }
    if ok {
      FinishNode(g, states, out, ranked, inode);
      ranked, out := ranked[inode := |ranked|], out[inode := BLACK];
    }
  }

  lemma LoopIsCycle(g: Edges, x: u64)
    requires ReachPlus(g, x, x)
    ensures !Acyclic(g)
  {
  }

  lemma NodeEdges(kinds: Kinds, adj: Adjacency, g: Edges, inode: u64)
    requires ListsDirs(kinds, adj, g)
    ensures forall b: u64 :: (inode, b) in g <==> inode in adj && b in adj[inode] && IsDir(kinds, b)
  {
    assert forall b: u64 :: Adjacent(adj, inode, b) <==> inode in adj && b in adj[inode];
  }

  /** The loop over the targets of a node that has just turned grey. */
  method AuditTargets(inode: u64, targets: seq<u64>, kinds: Kinds, adj: Adjacency, start: Colours,
                      ghost states: Colours,
                      ghost g: Edges, ghost rank: map<u64, nat>)
    returns (ok: bool, out: Colours, ghost ranked: map<u64, nat>)
    requires ListsDirs(kinds, adj, g)
    requires forall b: u64 :: b in targets && IsDir(kinds, b) ==> (inode, b) in g
    requires start == states[inode := GRAY] && Colouring(kinds, start) && Finished(g, start, rank)
    requires forall x :: Coloured(states, GRAY, x) ==> ReachPlus(g, x, inode)
    ensures !ok ==> !Acyclic(g)
    ensures ok ==> Colouring(kinds, out) && Finished(g, out, ranked)
    ensures ok ==> SameGray(start, out) && KeepsBlack(start, out)
    ensures ok ==> forall b: u64 :: b in targets && IsDir(kinds, b) ==> Coloured(out, BLACK, b)
    decreases Uncoloured(kinds, start), 2
  {
    hide Finished, ReachPlus, Acyclic, SameGray, KeepsBlack, ListsDirs, Uncoloured;
    out, ranked := start, rank;
    SameAsItself(start);
    var i := 0;
    while i < |targets|
      invariant 0 <= i <= |targets|
      invariant Colouring(kinds, out) && Finished(g, out, ranked)
      invariant SameGray(start, out) && KeepsBlack(start, out) && start.Keys <= out.Keys
      invariant forall j :: 0 <= j < i && IsDir(kinds, targets[j]) ==> Coloured(out, BLACK, targets[j])
    {
      if IsDir(kinds, targets[i]) {
        GreyReach(g, states, out, inode, targets[i]);
        ghost var before := out;
        NoMoreUncoloured(kinds, start, out);
        ok, out, ranked := AuditDirectoryCycle(targets[i], kinds, adj, out, g, ranked);
        if !ok {
          return;
        }
        CarriedOver(start, before, out);
      }
      i := i + 1;
    }
    ok := true;
  }

  lemma SameAsItself(states: Colours)
    ensures SameGray(states, states) && KeepsBlack(states, states)
  {
  }

  lemma StartNode(g: Edges, states: Colours, rank: map<u64, nat>, inode: u64)
    requires Finished(g, states, rank) && inode !in states
    ensures Finished(g, states[inode := GRAY], rank)
    ensures SameGray(states[inode := GRAY], states[inode := GRAY])
    ensures KeepsBlack(states[inode := GRAY], states[inode := GRAY])
  {
  }

  lemma CarriedOver(start: Colours, before: Colours, out: Colours)
    requires SameGray(start, before) && KeepsBlack(start, before) && start.Keys <= before.Keys
    requires SameGray(before, out) && KeepsBlack(before, out)
    requires forall x :: x in before ==> before[x] == GRAY || before[x] == BLACK
    ensures SameGray(start, out) && KeepsBlack(start, out) && start.Keys <= out.Keys
    ensures forall x :: Coloured(before, BLACK, x) ==> Coloured(out, BLACK, x)
  {
    forall x | x in before ensures x in out {
      assert Coloured(before, GRAY, x) || Coloured(before, BLACK, x);
      assert Coloured(out, GRAY, x) || Coloured(out, BLACK, x);
    }
  }

  lemma GreyReach(g: Edges, states: Colours, out: Colours, inode: u64, target: u64)
    requires (inode, target) in g && SameGray(states[inode := GRAY], out)
    requires forall x :: Coloured(states, GRAY, x) ==> ReachPlus(g, x, inode)
    ensures forall x :: Coloured(out, GRAY, x) ==> ReachPlus(g, x, target)
  {
    ReachEdge(g, inode, target);
    forall x | Coloured(out, GRAY, x) ensures ReachPlus(g, x, target) {
      assert Coloured(states[inode := GRAY], GRAY, x);
      if x != inode {
        assert Coloured(states, GRAY, x);
        PlusIsReach(g, x, inode);
        ReachTrans(g, x, inode, target);
      }
    }
  }

  lemma PlusIsReach(g: Edges, a: u64, b: u64)
    requires ReachPlus(g, a, b)
    ensures Reach(g, a, b)
  {
    var p :| Joins(g, p, a, b) && |p| >= 2;
  }

  /** Turning a grey node black once all its directory targets are. */
  lemma FinishNode(g: Edges, states: Colours, out: Colours, rank: map<u64, nat>, inode: u64)
    requires Finished(g, out, rank) && inode !in states
    requires SameGray(states[inode := GRAY], out) && KeepsBlack(states[inode := GRAY], out)
    requires forall b :: (inode, b) in g ==> Coloured(out, BLACK, b)
    ensures Finished(g, out[inode := BLACK], rank[inode := |rank|])
    ensures SameGray(states, out[inode := BLACK]) && KeepsBlack(states, out[inode := BLACK])
  {
    var ranked := rank[inode := |rank|];
    assert Coloured(states[inode := GRAY], GRAY, inode);
    assert Coloured(out, GRAY, inode) && inode !in rank;
    assert ranked.Keys == rank.Keys + {inode};
    assert |ranked| == |rank| + 1;
    forall a, b | a in ranked && (a, b) in g ensures b in ranked && ranked[b] < ranked[a] {
      if a == inode {
        assert Coloured(out, BLACK, b);
      }
    }
    forall x ensures Coloured(states, GRAY, x) <==> Coloured(out[inode := BLACK], GRAY, x) {
      assert Coloured(states[inode := GRAY], GRAY, x) <==> Coloured(out, GRAY, x);
    }
    forall x | Coloured(states, BLACK, x) ensures Coloured(out[inode := BLACK], BLACK, x) {
      assert Coloured(states[inode := GRAY], BLACK, x);
    }
  }

  // ------------------------------------------------------------------------ the namespace audit

  /** Everything the adjacency reaches from `start`, by a worklist. */
  method Sweep(start: u64, adj: Adjacency, ghost g: Edges, ghost universe: set<u64>) returns (reachable: set<u64>)
    requires Lists(adj, g) && start in universe && Closed(g, universe)
    ensures forall x :: x in reachable <==> Reach(g, start, x)
  {
    hide Reach;
    reachable := {};
    var pending := [start];
    ReachSelf(g, start);
    while pending != []
      invariant reachable <= universe
      invariant forall x :: x in pending ==> x in universe && Reach(g, start, x)
      invariant forall x :: x in reachable ==> Reach(g, start, x)
      invariant start in reachable || start in pending
      invariant forall a: u64, b: u64 :: a in reachable && (a, b) in g ==> b in reachable || b in pending
      decreases universe - reachable, |pending|
    {
      var inode := pending[|pending| - 1];
      ghost var before := pending;
      pending := pending[..|pending| - 1];
      assert forall x :: x in before <==> x == inode || x in pending;
      if inode in reachable {
        continue;
      }
      reachable := reachable + {inode};
      if inode in adj {
        forall b | b in adj[inode] ensures b in universe && Reach(g, start, b) {
          assert Adjacent(adj, inode, b);
          ReachEdge(g, inode, b);
          ReachTrans(g, start, inode, b);
        }
        pending := pending + adj[inode];
      }
      assert forall b: u64 :: (inode, b) in g ==> Adjacent(adj, inode, b);
    }
    forall x | Reach(g, start, x) ensures x in reachable {
      ReachStaysInside(g, reachable, start, x);
    }
  }

  /** The audit accepts exactly the legal namespaces. */
  method AuditNamespace(inodes: seq<Inode>, es: seq<DirEntry>) returns (ok: bool)
    ensures ok <==> NamespaceOk(KindMap(inodes), es)
  {
    hide Reach, ReachPlus, Acyclic, KindMap, EdgeSet;
    var kinds := KindMap(inodes);
    var adj;
    ok, adj := BuildAdjacency(kinds, es);
    if !ok {
      return false;
    }
    if inodes == [] {
      return true;
    }
    if !IsDir(kinds, ROOT) {
      return false;
    }
    ok := AuditCycles(inodes, kinds, adj, es);
    if !ok {
      return false;
    }
    EdgesInside(kinds, es);
    var reachable := Sweep(ROOT, adj, EdgeSet(es), kinds.Keys);
    var i := 0;
    while i < |inodes|
      invariant 0 <= i <= |inodes|
      invariant forall j :: 0 <= j < i ==> inodes[j].id in reachable
    {
      if inodes[i].id !in reachable {
        assert HasId(inodes, inodes[i].id);
        return false;
      }
      i := i + 1;
    }
    return true;
  }

  lemma EdgesInside(kinds: Kinds, es: seq<DirEntry>)
    requires EntriesOk(kinds, es)
    ensures Closed(EdgeSet(es), kinds.Keys)
    ensures forall a, b :: (a, b) in EdgeSet(es) ==> IsDir(kinds, a) && b in kinds
  {
  }

  /** Depth-first search from every directory. */
  method AuditCycles(inodes: seq<Inode>, kinds: Kinds, adj: Adjacency, es: seq<DirEntry>) returns (ok: bool)
    requires kinds == KindMap(inodes) && EntriesOk(kinds, es) && Lists(adj, EdgeSet(es))
    ensures ok <==> Acyclic(DirEdges(kinds, es))
  {
    hide Reach, ReachPlus, KindMap, Acyclic, Finished, SameGray, KeepsBlack;
    ghost var g := DirEdges(kinds, es);
    var states: Colours := map[];
    ghost var rank: map<u64, nat> := map[];
    NothingFinished(g);
    var i := 0;
    while i < |inodes|
      invariant 0 <= i <= |inodes|
      invariant Colouring(kinds, states) && Finished(g, states, rank)
      invariant forall x :: !Coloured(states, GRAY, x)
      invariant forall j :: 0 <= j < i && inodes[j].kind.Directory? ==> Coloured(states, BLACK, inodes[j].id)
    {
      if inodes[i].kind.Directory? {
        assert HasId(inodes, inodes[i].id);
        ghost var before := states;
        DirsListed(kinds, adj, es);
        ok, states, rank := AuditDirectoryCycle(inodes[i].id, kinds, adj, states, g, rank);
        if !ok {
          return;
        }
        StillNoGrey(before, states);
      }
      i := i + 1;
    }
    AllFinished(inodes, kinds, es, states, rank);
    ok := true;
  }

  lemma DirsListed(kinds: Kinds, adj: Adjacency, es: seq<DirEntry>)
    requires Lists(adj, EdgeSet(es))
    ensures ListsDirs(kinds, adj, DirEdges(kinds, es))
  {
  }

  lemma StillNoGrey(before: Colours, after: Colours)
    requires SameGray(before, after) && KeepsBlack(before, after)
    requires forall x :: !Coloured(before, GRAY, x)
    ensures forall x :: !Coloured(after, GRAY, x)
    ensures forall x :: Coloured(before, BLACK, x) ==> Coloured(after, BLACK, x)
  {
  }

  lemma NothingFinished(g: Edges)
    ensures Finished(g, map[], map[])
  {
  }

  lemma {:induction false} KindOfSome(inodes: seq<Inode>, x: u64)
    requires IsDir(KindMap(inodes), x)
    ensures exists i :: 0 <= i < |inodes| && inodes[i].id == x && inodes[i].kind.Directory?
  {
    var n := |inodes| - 1;
    if inodes[n].id != x {
      KindOfSome(inodes[..n], x);
    }
  }

  lemma AllFinished(inodes: seq<Inode>, kinds: Kinds, es: seq<DirEntry>, states: Colours, rank: map<u64, nat>)
    requires kinds == KindMap(inodes) && EntriesOk(kinds, es)
    requires Finished(DirEdges(kinds, es), states, rank)
    requires forall j :: 0 <= j < |inodes| && inodes[j].kind.Directory? ==> Coloured(states, BLACK, inodes[j].id)
    ensures Acyclic(DirEdges(kinds, es))
  {
    var g := DirEdges(kinds, es);
    EdgesInside(kinds, es);
    forall a, b | (a, b) in g ensures a in rank {
      KindOfSome(inodes, a);
    }
    RankedIsAcyclic(g, rank);
  }

  // ------------------------------------------------------------------------ block ownership

  /** Inode `i` has an `a`th block. */
  predicate Slot(inodes: seq<Inode>, i: int, a: int) {
    0 <= i < |inodes| && 0 <= a < |inodes[i].blocks|
  }

  /** Every referenced block is an allocated data block, and no block is referenced twice. */
  ghost predicate OwnershipOk(sb: Superblock, owned: seq<bool>, inodes: seq<Inode>) {
    && (forall i, a :: Slot(inodes, i, a) ==> Allocated(sb, owned, inodes[i].blocks[a]))
    && (forall i, a, j, b | Slot(inodes, i, a) && Slot(inodes, j, b) ::
          inodes[i].blocks[a] == inodes[j].blocks[b] ==> i == j && a == b)
  }

  predicate Allocated(sb: Superblock, owned: seq<bool>, block: u64) {
    ReservedBlocks(sb) <= block < sb.totalBlocks && block < |owned| && owned[block]
  }

  function References(inodes: seq<Inode>): nat {
    if inodes == [] then 0 else References(inodes[..|inodes| - 1]) + |inodes[|inodes| - 1].blocks|
  }

  /** Blocks one inode may claim beside the owners so far. */
  predicate Claimable(sb: Superblock, owned: seq<bool>, blocks: seq<u64>, owners: map<u64, u64>) {
    NoRepeats(blocks) && forall a :: 0 <= a < |blocks| ==> Allocated(sb, owned, blocks[a]) && blocks[a] !in owners
  }

  method ClaimBlocks(sb: Superblock, owned: seq<bool>, inode: Inode, owners: map<u64, u64>)
    returns (ok: bool, out: map<u64, u64>)
    ensures ok <==> Claimable(sb, owned, inode.blocks, owners)
    ensures ok ==> forall x :: x in out <==> x in owners || x in inode.blocks
  {
    var blocks, a := inode.blocks, 0;
    out := owners;
    while a < |blocks|
      invariant 0 <= a <= |blocks| && Claimable(sb, owned, blocks[..a], owners)
      invariant forall x :: x in out <==> x in owners || x in blocks[..a]
    {
      if !Allocated(sb, owned, blocks[a]) || blocks[a] in out {
        return false, out;
      }
      out := out[blocks[a] := inode.id];
      a := a + 1;
    }
    assert blocks[..a] == blocks;
    return true, out;
  }

  /** `audit_inode_ownership`, on the ownership vector of the loaded allocator. */
  method AuditOwnership(sb: Superblock, owned: seq<bool>, inodes: seq<Inode>) returns (r: Result<nat>)
    ensures r.Ok? <==> OwnershipOk(sb, owned, inodes)
    ensures r.Ok? ==> r.value == References(inodes)
  {
    hide OwnershipOk, Claimable;
    var owners: map<u64, u64> := map[];
    var count, i := 0, 0;
    NobodyOwns(sb, owned);
    assert inodes[..0] == [];
    while i < |inodes|
      invariant 0 <= i <= |inodes| && count == References(inodes[..i])
      invariant OwnershipOk(sb, owned, inodes[..i]) && Owners(inodes[..i], owners)
    {
      assert inodes[..i + 1][..i] == inodes[..i];
      var ok, out := ClaimBlocks(sb, owned, inodes[i], owners);
      OwnershipSnoc(sb, owned, inodes, i, owners);
      if !ok {
        return Err(InvalidData);
      }
      owners, count, i := out, count + |inodes[i].blocks|, i + 1;
    }
    assert inodes[..i] == inodes;
    return Ok(count);
  }

  /** `owners` holds exactly the referenced blocks. */
  ghost predicate Owners(inodes: seq<Inode>, owners: map<u64, u64>) {
    forall x :: x in owners <==> exists k :: 0 <= k < |inodes| && x in inodes[k].blocks
  }

  lemma NobodyOwns(sb: Superblock, owned: seq<bool>)
    ensures OwnershipOk(sb, owned, [])
  {
  }

  lemma OwnershipSnoc(sb: Superblock, owned: seq<bool>, inodes: seq<Inode>, i: nat, owners: map<u64, u64>)
    requires i < |inodes| && OwnershipOk(sb, owned, inodes[..i]) && Owners(inodes[..i], owners)
    ensures Claimable(sb, owned, inodes[i].blocks, owners) ==> OwnershipOk(sb, owned, inodes[..i + 1])
    ensures !Claimable(sb, owned, inodes[i].blocks, owners) ==> !OwnershipOk(sb, owned, inodes)
  {
    if Claimable(sb, owned, inodes[i].blocks, owners) {
      ClaimedStaysOk(sb, owned, inodes, i, owners);
    } else {
      UnclaimableFails(sb, owned, inodes, i, owners);
    }
  }

  lemma UnclaimableFails(sb: Superblock, owned: seq<bool>, inodes: seq<Inode>, i: nat, owners: map<u64, u64>)
    requires i < |inodes| && Owners(inodes[..i], owners) && !Claimable(sb, owned, inodes[i].blocks, owners)
    ensures !OwnershipOk(sb, owned, inodes)
  {
    var blocks := inodes[i].blocks;
    if NoRepeats(blocks) {
      var a :| 0 <= a < |blocks| && (!Allocated(sb, owned, blocks[a]) || blocks[a] in owners);
      assert Slot(inodes, i, a);
      if blocks[a] in owners {
        var k :| 0 <= k < i && blocks[a] in inodes[..i][k].blocks;
        var b :| 0 <= b < |inodes[k].blocks| && inodes[k].blocks[b] == blocks[a];
        assert Slot(inodes, k, b);
      }
    } else {
      var a, b :| 0 <= a < b < |blocks| && blocks[a] == blocks[b];
      assert Slot(inodes, i, a) && Slot(inodes, i, b);
    }
  }

  lemma ClaimedStaysOk(sb: Superblock, owned: seq<bool>, inodes: seq<Inode>, i: nat, owners: map<u64, u64>)
    requires i < |inodes| && OwnershipOk(sb, owned, inodes[..i]) && Owners(inodes[..i], owners)
    requires Claimable(sb, owned, inodes[i].blocks, owners)
    ensures OwnershipOk(sb, owned, inodes[..i + 1])
  {
    var xs := inodes[..i + 1];
    assert forall j :: 0 <= j < i ==> xs[j] == inodes[..i][j] == inodes[j];
    forall j, a, b | 0 <= j < i && 0 <= a < |xs[j].blocks| && 0 <= b < |xs[i].blocks|
      ensures xs[j].blocks[a] != xs[i].blocks[b]
    {
      assert xs[j].blocks[a] in inodes[..i][j].blocks;
    }
    forall j, a, k, b | Slot(xs, j, a) && Slot(xs, k, b) && xs[j].blocks[a] == xs[k].blocks[b]
      ensures j == k && a == b
    {
      if j < i && k < i {
        assert Slot(inodes[..i], j, a) && Slot(inodes[..i], k, b);
      }
    }
    forall j, a | Slot(xs, j, a) ensures Allocated(sb, owned, xs[j].blocks[a]) {
      assert j < i ==> Slot(inodes[..i], j, a);
    }
  }
}
