/** Reachability in finite directed graphs, given as sets of edges. */
module Graph {
  import opened Bytes

  type Edges = set<(u64, u64)>

  ghost predicate IsPath(g: Edges, p: seq<u64>) {
    p != [] && forall i :: 0 <= i < |p| - 1 ==> (p[i], p[i + 1]) in g
  }

  ghost predicate Joins(g: Edges, p: seq<u64>, a: u64, b: u64) {
    IsPath(g, p) && p[0] == a && p[|p| - 1] == b
  }

  ghost predicate Reach(g: Edges, a: u64, b: u64) {
    exists p :: Joins(g, p, a, b)
  }

  /** Reachable along at least one edge. */
  ghost predicate ReachPlus(g: Edges, a: u64, b: u64) {
    exists p :: Joins(g, p, a, b) && |p| >= 2
  }

  ghost predicate Acyclic(g: Edges) {
    forall x :: !ReachPlus(g, x, x)
  }

  ghost predicate Closed(g: Edges, s: set<u64>) {
    forall a, b :: a in s && (a, b) in g ==> b in s
  }

  lemma ReachSelf(g: Edges, a: u64)
    ensures Reach(g, a, a)
  {
    assert Joins(g, [a], a, a);
  }

  lemma ReachEdge(g: Edges, a: u64, b: u64)
    requires (a, b) in g
    ensures Reach(g, a, b) && ReachPlus(g, a, b)
  {
    assert Joins(g, [a, b], a, b);
  }

  lemma JoinPaths(g: Edges, p: seq<u64>, q: seq<u64>, a: u64, b: u64, c: u64)
    requires Joins(g, p, a, b) && Joins(g, q, b, c)
    ensures Joins(g, p + q[1..], a, c)
  {
    var r := p + q[1..];
    forall i | 0 <= i < |r| - 1 ensures (r[i], r[i + 1]) in g {
      if i >= |p| - 1 {
        assert r[i] == q[i - (|p| - 1)] && r[i + 1] == q[i + 1 - (|p| - 1)];
      }
    }
  }

  lemma ReachTrans(g: Edges, a: u64, b: u64, c: u64)
    requires Reach(g, a, b) && Reach(g, b, c)
    ensures Reach(g, a, c)
    ensures ReachPlus(g, a, b) || ReachPlus(g, b, c) ==> ReachPlus(g, a, c)
  {
    var p, q :| Joins(g, p, a, b) && Joins(g, q, b, c);
    JoinPaths(g, p, q, a, b, c);
    if ReachPlus(g, a, b) {
      var p' :| Joins(g, p', a, b) && |p'| >= 2;
      JoinPaths(g, p', q, a, b, c);
    }
    if ReachPlus(g, b, c) {
      var q' :| Joins(g, q', b, c) && |q'| >= 2;
      JoinPaths(g, p, q', a, b, c);
    }
  }

  lemma ReachMonotone(g: Edges, h: Edges, a: u64, b: u64)
    requires g <= h
    ensures Reach(g, a, b) ==> Reach(h, a, b)
    ensures ReachPlus(g, a, b) ==> ReachPlus(h, a, b)
  {
    if Reach(g, a, b) {
      var p :| Joins(g, p, a, b);
      assert Joins(h, p, a, b);
    }
    if ReachPlus(g, a, b) {
      var p :| Joins(g, p, a, b) && |p| >= 2;
      assert Joins(h, p, a, b);
    }
  }

  lemma {:induction false} PathStaysInside(g: Edges, s: set<u64>, p: seq<u64>)
    requires IsPath(g, p) && Closed(g, s) && p[0] in s
    ensures p[|p| - 1] in s
    decreases |p|
  {
    if |p| > 1 {
      assert (p[0], p[1]) in g;
      PathStaysInside(g, s, p[1..]);
    }
  }

  /** A set closed under the edges holds everything reachable from it. */
  lemma ReachStaysInside(g: Edges, s: set<u64>, a: u64, b: u64)
    requires Closed(g, s) && a in s && Reach(g, a, b)
    ensures b in s
  {
    var p :| Joins(g, p, a, b);
    PathStaysInside(g, s, p);
  }

  /** Every edge leaving a ranked node goes to a ranked node of smaller rank. */
  ghost predicate Ranks(g: Edges, rank: map<u64, nat>) {
    forall a, b :: a in rank && (a, b) in g ==> b in rank && rank[b] < rank[a]
  }

  lemma {:induction false} PathDescends(g: Edges, rank: map<u64, nat>, p: seq<u64>)
    requires IsPath(g, p) && Ranks(g, rank) && p[0] in rank
    ensures p[|p| - 1] in rank && rank[p[|p| - 1]] <= rank[p[0]]
    ensures |p| >= 2 ==> rank[p[|p| - 1]] < rank[p[0]]
    decreases |p|
  {
    if |p| > 1 {
      assert (p[0], p[1]) in g;
      PathDescends(g, rank, p[1..]);
    }
  }

  /** A graph whose every source is ranked has no cycle. */
  lemma RankedIsAcyclic(g: Edges, rank: map<u64, nat>)
    requires Ranks(g, rank) && forall a, b :: (a, b) in g ==> a in rank
    ensures Acyclic(g)
  {
    forall x | ReachPlus(g, x, x) ensures false {
      var p :| Joins(g, p, x, x) && |p| >= 2;
      assert (p[0], p[1]) in g;
      PathDescends(g, rank, p);
    }
  }

  /** A path in a graph with one edge added avoids the new edge, or splits around its first and
      last use. */
  lemma {:induction false} AddedEdge(g: Edges, u: u64, v: u64, p: seq<u64>)
    requires IsPath(g + {(u, v)}, p)
    ensures IsPath(g, p) || (Reach(g, p[0], u) && Reach(g, v, p[|p| - 1]))
    decreases |p|
  {
    if |p| > 1 {
      var q := p[1..];
      assert forall i :: 0 <= i < |q| ==> q[i] == p[i + 1];
      AddedEdge(g, u, v, q);
      var last := p[|p| - 1];
      if (p[0], p[1]) in g {
        if IsPath(g, q) {
          assert forall i :: 1 <= i < |p| ==> p[i] == q[i - 1];
        } else {
          ReachEdge(g, p[0], p[1]);
          ReachTrans(g, p[0], p[1], u);
        }
      } else {
        assert p[0] == u && p[1] == v;
        ReachSelf(g, u);
        if IsPath(g, q) {
          assert Joins(g, q, v, last);
        }
      }
    }
  }

  lemma ReachWithEdge(g: Edges, u: u64, v: u64, a: u64, b: u64)
    requires Reach(g + {(u, v)}, a, b)
    ensures Reach(g, a, b) || (Reach(g, a, u) && Reach(g, v, b))
  {
    var p :| Joins(g + {(u, v)}, p, a, b);
    AddedEdge(g, u, v, p);
    if IsPath(g, p) {
      assert Joins(g, p, a, b);
    }
  }

  lemma CycleWithEdge(g: Edges, u: u64, v: u64, x: u64)
    requires ReachPlus(g + {(u, v)}, x, x)
    ensures ReachPlus(g, x, x) || Reach(g, v, u)
  {
    var p :| Joins(g + {(u, v)}, p, x, x) && |p| >= 2;
    AddedEdge(g, u, v, p);
    if IsPath(g, p) {
      assert Joins(g, p, x, x);
    } else {
      ReachTrans(g, v, x, u);
    }
  }

  /** Adding an edge to an acyclic graph makes a cycle exactly when it closes a path. */
  lemma AddedEdgeCycles(g: Edges, u: u64, v: u64)
    requires Acyclic(g)
    ensures Acyclic(g + {(u, v)}) <==> !Reach(g, v, u)
  {
    var h := g + {(u, v)};
    if Reach(g, v, u) {
      ReachEdge(h, u, v);
      ReachMonotone(g, h, v, u);
      ReachTrans(h, u, v, u);
      assert ReachPlus(h, u, u);
    } else {
      forall x ensures !ReachPlus(h, x, x) {
        if ReachPlus(h, x, x) {
          CycleWithEdge(g, u, v, x);
        }
      }
    }
  }

  lemma AcyclicMonotone(g: Edges, h: Edges)
    requires g <= h && Acyclic(h)
    ensures Acyclic(g)
  {
    forall x | ReachPlus(g, x, x) ensures false {
      ReachMonotone(g, h, x, x);
    }
  }
}
