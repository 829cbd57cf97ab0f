/**
 * Facts about the states of breadth-first search, stated over values (the matrix, the visited
 * set, the queue, the levels), so that the loop invariants of the graph queries can be
 * discharged by lemmas; also the parent tree and the path read back from it, which
 * breadth-first search and Dijkstra's algorithm share.
 */
module SearchFacts {
  import opened Paths

  /** The internal vertex indices 0 .. n-1. */
  ghost function AllVertices(n: int): (r: set<int>)
    ensures forall x :: x in r <==> 0 <= x < n
    decreases n
  {
    if n <= 0 then {} else AllVertices(n - 1) + {n - 1}
  }

  /** Every arc that leaves a vertex of C ends in S. */
  ghost predicate ArcsInto(m: Matrix, C: set<int>, S: set<int>)
  {
    forall x, y :: x in C && Edge(m, x, y) ==> y in S
  }

  /** A set of internal vertex indices has at most n elements. */
  lemma {:induction false} AtMostAllVertices(S: set<int>, n: int)
    requires n >= 0 && S <= AllVertices(n)
    ensures |S| <= n
    decreases n
  {
    if n > 0 {
      var S' := S - {n - 1};
      assert S' <= AllVertices(n - 1);
      AtMostAllVertices(S', n - 1);
    } else {
      assert S == {};
    }
  }

  /** Adding a vertex not yet in a set grows it by one. */
  lemma SizeGrows(S: set<int>, u: int)
    requires u !in S
    ensures |S + {u}| == |S| + 1
  {
  }

  /** The visited flags mark exactly the vertices of S. */
  ghost predicate Marks(visited: seq<bool>, S: set<int>)
  {
    && S <= AllVertices(|visited|)
    && forall x :: 0 <= x < |visited| ==> (visited[x] <==> x in S)
  }

  /**
   * The breadth-first search state: S is the visited set, holding the start; C the vertices whose
   * row has been scanned, all of whose arcs end in S; every other visited vertex waits in Q.
   * The target is visited only when it is the start.
   */
  ghost predicate Frontier(m: Matrix, s: int, e: int, Q: seq<int>, C: set<int>, S: set<int>)
  {
    && C <= S && s in S && (e in S <==> e == s)
    && (forall x :: x in Q ==> x in S)
    && (forall x :: x in S ==> x in C || x in Q)
    && ArcsInto(m, C, S)
  }

  /**
   * From (Q0, S0) to (Q, S) the scan of one row only added vertices: each new queue entry is
   * newly visited, each newly visited vertex is queued, nothing queued was lost, and the queue
   * is unchanged when nothing was visited.
   */
  ghost predicate Grown(Q0: seq<int>, Q: seq<int>, S0: set<int>, S: set<int>)
  {
    && S0 <= S
    && (forall x :: x in Q ==> x in Q0 || x in S)
    && (forall x :: x in S ==> x in S0 || x in Q)
    && (forall x :: x in Q0 ==> x in Q)
    && (S == S0 ==> Q == Q0)
  }

  /** Queuing and visiting a new vertex keeps the growth relation. */
  lemma GrowBy(Q0: seq<int>, Q: seq<int>, S0: set<int>, S: set<int>, y: int)
    requires Grown(Q0, Q, S0, S) && y !in S
    ensures Grown(Q0, Q + [y], S0, S + {y})
  {
  }

  /**
   * Scanning the row of the head of the queue, Q0[0], without meeting the target keeps the
   * search state, with the head moved into C, and makes progress.
   */
  lemma FrontierStep(m: Matrix, s: int, e: int, Q0: seq<int>, Q: seq<int>, C: set<int>, S0: set<int>, S: set<int>, n: int)
    requires Frontier(m, s, e, Q0, C, S0) && Q0 != []
    requires Grown(Q0[1..], Q, S0, S) && (e in S <==> e in S0)
    requires forall y :: Edge(m, Q0[0], y) ==> y in S
    requires S <= AllVertices(n)
    ensures Frontier(m, s, e, Q, C + {Q0[0]}, S)
    ensures AllVertices(n) - S < AllVertices(n) - S0 || (S == S0 && |Q| < |Q0|)
  {
    forall x | x in S ensures x in C + {Q0[0]} || x in Q {
      if x in S0 && x !in C && x != Q0[0] {
        assert x in Q0[1..];
      }
    }
    if S != S0 {
      var y :| y in S && y !in S0;
      assert y in AllVertices(n) - S0;
    }
  }

  /** What one arc a -> b costs: a hop, or its weight. */
  ghost function StepCost(m: Matrix, a: int, b: int, hops: bool): int
  {
    if hops then 1 else Cell(m, a, b)
  }

  /** What a path costs: its number of arcs, or its weight. */
  ghost function Cost(m: Matrix, p: seq<int>, hops: bool): int
  {
    if hops then |p| - 1 else Weight(m, p)
  }

  /** Putting a vertex in front of a path adds the cost of the arc into the old first vertex. */
  lemma CostPrepend(m: Matrix, a: int, q: seq<int>, hops: bool)
    requires |q| >= 1
    ensures Cost(m, [a] + q, hops) == StepCost(m, a, q[0], hops) + Cost(m, q, hops)
  {
    if !hops {
      WeightPrepend(m, a, q);
    }
  }

  /**
   * The parent table `par` is a tree over T rooted at s: the root has no parent, every other
   * vertex of T has a parent in T joined to it by an arc, and the rank `rk` grows along every
   * tree arc by at least that arc's positive cost.
   */
  ghost predicate ParentTree(m: Matrix, s: int, T: set<int>, par: seq<int>, rk: seq<int>, hops: bool)
  {
    && |rk| == |par| == |m| && T <= AllVertices(|par|)
    && s in T && par[s] == -1 && rk[s] == 0
    && (forall x :: x in T ==> rk[x] >= 0)
    && (forall x :: x in T && x != s ==>
          && par[x] in T && Edge(m, par[x], x)
          && StepCost(m, par[x], x, hops) > 0
          && rk[par[x]] + StepCost(m, par[x], x, hops) <= rk[x])
  }

  /**
   * Walking a parent tree back from e: `q` is the part of the path already read, ending at e,
   * and `curr` is the vertex to put in front of it next, or -1 once the root has been put in
   * front. The ranks bound what the finished path will cost.
   */
  ghost predicate Traced(m: Matrix, s: int, T: set<int>, rk: seq<int>, hops: bool, e: int, curr: int, q: seq<int>)
  {
    && T <= AllVertices(|rk|) && e in T
    && (curr == -1 || curr in T)
    && (curr in T && q == [] ==> curr == e)
    && (curr in T && q != [] ==> Edge(m, curr, q[0]))
    && (curr in T ==> rk[curr] + Cost(m, [curr] + q, hops) <= rk[e])
    && (curr == -1 ==> q != [] && q[0] == s && Cost(m, q, hops) <= rk[e])
    && (q != [] ==> IsPath(m, q) && q[|q| - 1] == e)
  }

  /** Putting `curr` in front and moving to its parent keeps the walk `Traced`, at a smaller rank. */
  lemma TraceStep(m: Matrix, s: int, T: set<int>, par: seq<int>, rk: seq<int>, hops: bool, e: int, curr: int, q: seq<int>)
    requires ParentTree(m, s, T, par, rk, hops) && e in T
    requires Traced(m, s, T, rk, hops, e, curr, q) && curr in T
    ensures Traced(m, s, T, rk, hops, e, par[curr], [curr] + q)
    ensures par[curr] == -1 || (par[curr] in T && 0 <= rk[par[curr]] < rk[curr])
  {
    var next := par[curr];
    if curr != s {
      CostPrepend(m, next, [curr] + q, hops);
    }
    var q' := [curr] + q;
    assert IsPath(m, q') by {
      if q != [] {
        forall k | 0 <= k < |q'| - 1 ensures Edge(m, q'[k], q'[k + 1]) {
          if k > 0 {
            assert q'[k] == q[k - 1] && q'[k + 1] == q[k];
          }
        }
      }
    }
  }

  /**
   * The hop levels of breadth-first search, with `cur` the level being scanned: S is the
   * visited set, kept as a parent tree whose ranks are the levels; closed vertices lie at
   * most at level cur; the queue holds levels cur and cur + 1 in that order; no path to a
   * visited vertex has fewer arcs than its level, and none to an unvisited one fewer than
   * cur + 1.
   */
  ghost predicate Layered(m: Matrix, s: int, Q: seq<int>, C: set<int>, S: set<int>, lvl: seq<int>, par: seq<int>, cur: int)
  {
    && ParentTree(m, s, S, par, lvl, true)
    && cur >= 0 && C <= S
    && (forall i :: 0 <= i < |Q| ==> Q[i] in S)
    && (forall x :: x in C ==> lvl[x] <= cur)
    && (forall i :: 0 <= i < |Q| ==> cur <= lvl[Q[i]] <= cur + 1)
    && (forall i, j :: 0 <= i < j < |Q| ==> lvl[Q[i]] <= lvl[Q[j]])
    && (forall x, p :: x in S && PathFromTo(m, p, s, x) ==> lvl[x] + 1 <= |p|)
    && (forall y, p :: y !in S && PathFromTo(m, p, s, y) ==> cur + 2 <= |p|)
  }

  /** The state right after the start vertex is queued: everything sits at level 0. */
  lemma LayeredStart(m: Matrix, s: int, n: int, par: seq<int>)
    requires 0 <= s < n && |par| == |m| == n && forall x :: 0 <= x < n ==> par[x] == -1
    ensures Layered(m, s, [s], {}, {s}, seq(n, _ => 0), par, 0)
  {
    forall y, p | y !in {s} && PathFromTo(m, p, s, y) ensures 2 <= |p| {
      assert p[0] == s && p[|p| - 1] == y;
    }
  }

  /**
   * Taking the head of the queue out, to be scanned, moves the scanned level to the head's:
   * when the head is one level further on, no vertex of the finished level is left in the
   * queue, so every vertex one arc beyond it has been visited already.
   */
  lemma TakeHead(m: Matrix, s: int, Q: seq<int>, C: set<int>, S: set<int>, lvl: seq<int>, par: seq<int>, cur: int)
    requires Layered(m, s, Q, C, S, lvl, par, cur) && Q != []
    requires ArcsInto(m, C, S) && forall x :: x in S ==> x in C || x in Q
    ensures Layered(m, s, Q[1..], C + {Q[0]}, S, lvl, par, lvl[Q[0]])
  {
    var next := lvl[Q[0]];
    if next == cur + 1 {
      assert forall i :: 0 <= i < |Q| ==> next <= lvl[Q[i]];
      forall y, p | y !in S && PathFromTo(m, p, s, y) ensures next + 2 <= |p| {
        var z := p[|p| - 2];
        assert PathFromTo(m, p[..|p| - 1], s, z) && Edge(m, z, y);
        if z in S {
          assert z in Q;
          var i :| 0 <= i < |Q| && Q[i] == z;
        }
      }
    }
    forall i | 0 <= i < |Q[1..]| ensures next <= lvl[Q[1..][i]] <= next + 1 {
      assert Q[1..][i] == Q[i + 1];
    }
  }

  /** Visiting an arc's far end y from the scanned vertex puts y at the next level. */
  lemma LayerAdd(m: Matrix, s: int, Q: seq<int>, C: set<int>, S: set<int>, lvl: seq<int>, par: seq<int>, cur: int, x: int, y: int)
    requires Layered(m, s, Q, C, S, lvl, par, cur)
    requires x in S && lvl[x] == cur && y !in S && 0 <= y < |par| && Edge(m, x, y)
    ensures Layered(m, s, Q + [y], C, S + {y}, lvl[y := cur + 1], par[y := x], cur)
  {
    var lvl', par' := lvl[y := cur + 1], par[y := x];
    forall z, p | z in S + {y} && PathFromTo(m, p, s, z) ensures lvl'[z] + 1 <= |p| {
      if z != y {
        assert lvl'[z] == lvl[z];
      }
    }
  }

  /**
   * The breadth-first search has met the target e, unvisited, along an arc: e extends the
   * parent tree one level below its parent, and no path reaches e with fewer arcs.
   */
  ghost predicate Hit(m: Matrix, s: int, e: int, S: set<int>, lvl: seq<int>, par: seq<int>)
  {
    && s in S && e !in S
    && ParentTree(m, s, S + {e}, par, lvl, true)
    && (forall p :: PathFromTo(m, p, s, e) ==> |p| >= lvl[e] + 1)
  }

  /**
   * The row scan of breadth-first search with parents, after columns 0 .. i-1 of row curr:
   * the flags mark S, the target is visited only if it was, the queue grew only by newly
   * visited vertices, the levels are kept, and every arc out of curr into those columns
   * ends in S.
   */
  ghost predicate ScanInv(m: Matrix, s: int, e: int, curr: int, i: int, Q0: seq<int>, Q: seq<int>, C: set<int>,
                          S0: set<int>, S: set<int>, lvl: seq<int>, par: seq<int>, vis: seq<bool>, cur: int)
  {
    && 0 <= i <= |vis| == |m|
    && Marks(vis, S) && (e in S <==> e in S0)
    && Grown(Q0, Q, S0, S)
    && Layered(m, s, Q, C, S, lvl, par, cur) && curr in S && lvl[curr] == cur
    && (forall y :: 0 <= y < i && Edge(m, curr, y) ==> y in S)
    && (forall y :: y in S && y !in S0 ==> par[y] == curr && lvl[y] == cur + 1)
  }

  /** Column i of row curr is an arc to an unvisited vertex other than the target: it is visited. */
  lemma ScanVisit(m: Matrix, s: int, e: int, curr: int, i: int, Q0: seq<int>, Q: seq<int>, C: set<int>,
                  S0: set<int>, S: set<int>, lvl: seq<int>, par: seq<int>, vis: seq<bool>, cur: int)
    requires ScanInv(m, s, e, curr, i, Q0, Q, C, S0, S, lvl, par, vis, cur)
    requires i < |vis| && Edge(m, curr, i) && !vis[i] && i != e
    ensures ScanInv(m, s, e, curr, i + 1, Q0, Q + [i], C, S0, S + {i}, lvl[i := cur + 1], par[i := curr], vis[i := true], cur)
  {
    var S', lvl', par', vis' := S + {i}, lvl[i := cur + 1], par[i := curr], vis[i := true];
    LayerAdd(m, s, Q, C, S, lvl, par, cur, curr, i);
    GrowBy(Q0, Q, S0, S, i);
    assert Marks(vis', S') && curr in S' && lvl'[curr] == cur;
    assert forall y :: 0 <= y < i + 1 && Edge(m, curr, y) ==> y in S';
    assert forall y :: y in S' && y !in S0 ==> par'[y] == curr && lvl'[y] == cur + 1;
  }

  /** Column i of row curr is no arc, or an arc to a visited vertex: nothing changes. */
  lemma ScanSkip(m: Matrix, s: int, e: int, curr: int, i: int, Q0: seq<int>, Q: seq<int>, C: set<int>,
                 S0: set<int>, S: set<int>, lvl: seq<int>, par: seq<int>, vis: seq<bool>, cur: int)
    requires ScanInv(m, s, e, curr, i, Q0, Q, C, S0, S, lvl, par, vis, cur)
    requires i < |vis| && !(Edge(m, curr, i) && !vis[i])
    ensures ScanInv(m, s, e, curr, i + 1, Q0, Q, C, S0, S, lvl, par, vis, cur)
  {
  }

  /** Column i of row curr is an arc to the unvisited target: the search has met it. */
  lemma ScanHit(m: Matrix, s: int, e: int, curr: int, i: int, Q0: seq<int>, Q: seq<int>, C: set<int>,
                S0: set<int>, S: set<int>, lvl: seq<int>, par: seq<int>, vis: seq<bool>, cur: int)
    requires ScanInv(m, s, e, curr, i, Q0, Q, C, S0, S, lvl, par, vis, cur)
    requires i < |vis| && Edge(m, curr, i) && !vis[i] && i == e
    ensures Layered(m, s, Q, C, S, lvl[i := cur + 1], par[i := curr], cur)
    ensures Hit(m, s, e, S, lvl[i := cur + 1], par[i := curr])
  {
    LayerAdd(m, s, Q, C, S, lvl, par, cur, curr, i);
    var lvl', par' := lvl[i := cur + 1], par[i := curr];
    assert Layered(m, s, Q + [i], C, S + {i}, lvl', par', cur);
    forall x, p | x in S && PathFromTo(m, p, s, x) ensures lvl'[x] + 1 <= |p| {
      assert lvl'[x] == lvl[x];
    }
  }

  /** Recording the target's parent and level leaves the vertices the scan visited as they were: children of curr, one level below it. */
  lemma ScanHitKeeps(S0: set<int>, S: set<int>, lvl: seq<int>, par: seq<int>, curr: int, i: int, cur: int)
    requires i !in S && 0 <= i < |lvl| == |par|
    requires forall y :: y in S && y !in S0 ==> 0 <= y < |par| && par[y] == curr && lvl[y] == cur + 1
    ensures forall y :: y in S && y !in S0 ==> par[i := curr][y] == curr && lvl[i := cur + 1][y] == cur + 1
  {
  }

  /**
   * A path read back from a met target through the parent tree has no more arcs than the
   * target's level, so it has the fewest arcs of all paths to the target, and repeats no vertex.
   */
  lemma HitGivesFewestHops(m: Matrix, s: int, e: int, S: set<int>, lvl: seq<int>, par: seq<int>, q: seq<int>)
    requires Hit(m, s, e, S, lvl, par) && PathFromTo(m, q, s, e) && Cost(m, q, true) <= lvl[e]
    ensures FewestHops(m, q, s, e) && Distinct(q) && s != e
  {
    FewestHopsIsDistinct(m, q, s, e);
  }
}
