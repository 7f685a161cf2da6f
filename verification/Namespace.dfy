/** What the namespace operations do to the directory graph (`rename_tx.rs`, `unlink_tx.rs`,
    `rename_overwrite_tx.rs`). */
module Namespace {
  import opened Bytes
  import opened Graph
  import opened DirectoryTable
  import opened Fsck

  function DirOnly(kinds: Kinds, g: Edges): Edges {
    set e | e in g && IsDir(kinds, e.1)
  }

  ghost predicate GraphOk(kinds: Kinds, g: Edges) {
    && (forall a, b :: (a, b) in g ==> IsDir(kinds, a) && b in kinds)
    && (kinds != map[] ==>
          && IsDir(kinds, ROOT)
          && (forall x :: x in kinds ==> Reach(g, ROOT, x))
          && Acyclic(DirOnly(kinds, g)))
  }

  /** Legality of a namespace depends on its graph only. */
  lemma LegalIsGraph(kinds: Kinds, es: seq<DirEntry>)
    ensures NamespaceOk(kinds, es) <==> GraphOk(kinds, EdgeSet(es))
  {
    hide Reach, Acyclic;
    assert DirEdges(kinds, es) == DirOnly(kinds, EdgeSet(es));
    if forall a, b :: (a, b) in EdgeSet(es) ==> IsDir(kinds, a) && b in kinds {
      forall i | 0 <= i < |es| ensures IsDir(kinds, es[i].parent) && es[i].target in kinds {
        assert (es[i].parent, es[i].target) in EdgeSet(es);
      }
    }
  }

  /** A node without outgoing edges reaches only itself. */
  lemma LeafReaches(g: Edges, x: u64, y: u64)
    requires Reach(g, x, y) && forall b :: (x, b) !in g
    ensures x == y
  {
    ReachStaysInside(g, {x}, x, y);
  }

  /** Moving one edge into `t` from `op` to `np`.  The worklist's test is what keeps it legal: for
      a directory, the new parent must not be below it without the moved edge. */
  lemma MoveEdge(kinds: Kinds, f: Edges, op: u64, np: u64, t: u64)
    requires GraphOk(kinds, f + {(op, t)}) && IsDir(kinds, np)
    requires IsDir(kinds, t) ==> !Reach(f, t, np)
    ensures GraphOk(kinds, f + {(np, t)})
  {
    hide Reach, Acyclic;
    var g, g' := f + {(op, t)}, f + {(np, t)};
    assert (op, t) in g && t in kinds;
    assert !Reach(f, t, np) by {
      if !IsDir(kinds, t) && Reach(f, t, np) {
        LeafReaches(f, t, np);
      }
    }
    // The new parent is reachable without the moved edge, so everything stays reachable.
    ReachWithEdge(f, op, t, ROOT, np);
    assert Reach(f, ROOT, np);
    ReachMonotone(f, g', ROOT, np);
    ReachEdge(g', np, t);
    ReachTrans(g', ROOT, np, t);
    forall x | x in kinds ensures Reach(g', ROOT, x) {
      ReachWithEdge(f, op, t, ROOT, x);
      if Reach(f, ROOT, x) {
        ReachMonotone(f, g', ROOT, x);
      } else {
        ReachMonotone(f, g', t, x);
        ReachTrans(g', ROOT, t, x);
      }
    }
    MoveKeepsAcyclic(kinds, f, op, np, t);
  }

  lemma MoveKeepsAcyclic(kinds: Kinds, f: Edges, op: u64, np: u64, t: u64)
    requires Acyclic(DirOnly(kinds, f + {(op, t)})) && !Reach(f, t, np)
    ensures Acyclic(DirOnly(kinds, f + {(np, t)}))
  {
    hide Reach, Acyclic;
    var d := DirOnly(kinds, f);
    AcyclicMonotone(d, DirOnly(kinds, f + {(op, t)}));
    if IsDir(kinds, t) {
      assert DirOnly(kinds, f + {(np, t)}) == d + {(np, t)};
      ReachMonotone(d, f, t, np);
      AddedEdgeCycles(d, np, t);
    } else {
      assert DirOnly(kinds, f + {(np, t)}) == d;
    }
  }

  function Without(g: Edges, x: u64): Edges {
    set e | e in g && e.1 != x
  }

  lemma {:induction false} PathAvoidsLeaf(g: Edges, x: u64, p: seq<u64>)
    requires IsPath(g, p) && p[|p| - 1] != x && forall b :: (x, b) !in g
    ensures IsPath(Without(g, x), p)
    decreases |p|
  {
    if |p| > 1 {
      assert (p[0], p[1]) in g;
      PathAvoidsLeaf(g, x, p[1..]);
      assert p[1..][0] == p[1];
      assert p[1] != x by {
        if |p| > 2 {
          assert (p[1], p[2]) in g;
        }
      }
      assert forall i :: 1 <= i < |p| ==> p[i] == p[1..][i - 1];
    }
  }

  /** Removing a childless inode and every edge into it. */
  lemma DropLeaf(kinds: Kinds, g: Edges, x: u64)
    requires GraphOk(kinds, g) && x in kinds && x != ROOT && forall b :: (x, b) !in g
    ensures GraphOk(kinds - {x}, Without(g, x))
  {
    hide Acyclic;
    var k', g' := kinds - {x}, Without(g, x);
    forall y | y in k' ensures Reach(g', ROOT, y) {
      var p :| Joins(g, p, ROOT, y);
      PathAvoidsLeaf(g, x, p);
      assert Joins(g', p, ROOT, y);
    }
    assert DirOnly(k', g') <= DirOnly(kinds, g);
    AcyclicMonotone(DirOnly(k', g'), DirOnly(kinds, g));
    assert forall a, b :: (a, b) in g' ==> (a, b) in g && a != x;
  }

  /** Removing one of several links to a childless inode. */
  lemma DropLink(kinds: Kinds, f: Edges, p: u64, x: u64, q: u64)
    requires GraphOk(kinds, f + {(p, x)}) && (q, x) in f && forall b :: (x, b) !in f + {(p, x)}
    ensures GraphOk(kinds, f)
  {
    hide Reach, Acyclic;
    var g := f + {(p, x)};
    assert (p, x) in g && (q, x) in g && IsDir(kinds, q);
    forall y | y in kinds && y != x ensures Reach(f, ROOT, y) {
      ReachWithEdge(f, p, x, ROOT, y);
      if !Reach(f, ROOT, y) {
        LeafReaches(f, x, y);
      }
    }
    assert q != x;
    ReachEdge(f, q, x);
    ReachTrans(f, ROOT, q, x);
    assert DirOnly(kinds, f) <= DirOnly(kinds, g);
    AcyclicMonotone(DirOnly(kinds, f), DirOnly(kinds, g));
  }
}
