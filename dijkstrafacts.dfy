/**
 * The search state of Dijkstra's algorithm as the graph engine runs it: tentative distances
 * that start at a sentinel, a parent table, a visited set, and a min-heap of (vertex, distance)
 * entries from which stale entries are skipped rather than removed. Stated over values, so
 * that each step of the algorithm is one lemma.
 */
module DijkstraFacts {
  import opened Paths
  import opened SearchFacts
  import opened MinHeaps
  import opened Errors

  /** The distance a vertex holds until some arc leads to it; it also bounds every distance found. */
  const Infinity := 999999

  /** Distances lie between 0 and the sentinel, and R holds exactly the vertices below it. */
  ghost predicate Distances(R: set<int>, D: seq<int>)
  {
    forall x :: 0 <= x < |D| ==> 0 <= D[x] <= Infinity && (x in R <==> D[x] < Infinity)
  }

  /** No path from s to a vertex of S is lighter than that vertex's distance. */
  ghost predicate Settled(m: Matrix, s: int, S: set<int>, D: seq<int>)
    requires S <= AllVertices(|D|)
  {
    forall x, p :: x in S && PathFromTo(m, p, s, x) ==> D[x] <= Weight(m, p)
  }

  /**
   * Every heap entry names a vertex, is no lighter than that vertex's distance nor than
   * `last`, and is below the sentinel.
   */
  ghost predicate Entries(H: multiset<Vertex>, D: seq<int>, last: int)
  {
    forall v :: v in H ==> 0 <= v.index < |D| && D[v.index] <= v.weight && last <= v.weight < Infinity
  }

  /** Every reached vertex not yet visited has an entry carrying its current distance. */
  ghost predicate Pending(R: set<int>, S: set<int>, D: seq<int>, H: multiset<Vertex>)
    requires R <= AllVertices(|D|)
  {
    forall x :: x in R && x !in S ==> Vertex(x, D[x]) in H
  }

  /**
   * The tentative state, with `last` the distance of the vertex visited most recently: R is
   * the set of reached vertices; the parents form a tree over R whose ranks are the
   * distances; every visited vertex is reached, settled, and no further than `last`; the heap
   * entries are sound and every reached, unvisited vertex is pending.
   */
  ghost predicate Tentative(m: Matrix, s: int, S: set<int>, R: set<int>, D: seq<int>, P: seq<int>, H: multiset<Vertex>, last: int)
  {
    && |D| == |P| == |m|
    && S <= R && R <= AllVertices(|m|)
    && Distances(R, D)
    && ParentTree(m, s, R, P, D, false)
    && (forall x :: x in S ==> D[x] <= last)
    && Settled(m, s, S, D)
    && Entries(H, D, last)
    && Pending(R, S, D, H)
  }

  /** Every arc out of a visited vertex has been relaxed: it leads no further than its tail's distance plus its weight. */
  ghost predicate Relaxed(m: Matrix, S: set<int>, D: seq<int>)
  {
    |D| == |m| && forall v, x :: v in S && Edge(m, v, x) ==> D[x] <= D[v] + m[v][x]
  }

  /** As `Relaxed`, except that of the arcs out of u only those into columns below i have been relaxed. */
  ghost predicate RelaxedBut(m: Matrix, S: set<int>, D: seq<int>, u: int, i: int)
  {
    |D| == |m| && forall v, x :: v in S && Edge(m, v, x) && (v != u || x < i) ==> D[x] <= D[v] + m[v][x]
  }

  /**
   * A path from s to an unvisited vertex leaves the visited set somewhere: at an unvisited
   * vertex y on it whose distance is at most the weight of the whole path.
   */
  lemma {:induction false} ExitBound(m: Matrix, s: int, S: set<int>, D: seq<int>, p: seq<int>) returns (y: int)
    requires NonNegative(m) && |D| == |m| && 0 <= s < |m| && D[s] == 0
    requires Relaxed(m, S, D)
    requires forall x, q :: x in S && PathFromTo(m, q, s, x) ==> D[x] <= Weight(m, q)
    requires IsPath(m, p) && p[0] == s && p[|p| - 1] !in S
    ensures y !in S && 0 <= y < |m| && D[y] <= Weight(m, p)
    decreases |p|
  {
    if |p| == 1 {
      y := s;
    } else {
      var p' := p[..|p| - 1];
      var z, t := p[|p| - 2], p[|p| - 1];
      assert Edge(m, z, t);
      assert Weight(m, p) == Weight(m, p') + m[z][t];
      if z in S {
        assert PathFromTo(m, p', s, z);
        y := t;
      } else {
        y := ExitBound(m, s, S, D, p');
      }
    }
  }

  /**
   * Popping the least entry, for a vertex u not visited yet, visits u: its distance is final
   * (no path to it is lighter), and the state holds with u as the last vertex visited and
   * none of u's arcs relaxed yet.
   */
  lemma PopFresh(m: Matrix, s: int, S: set<int>, R: set<int>, D: seq<int>, P: seq<int>, H: multiset<Vertex>, last: int, top: Vertex)
    requires NonNegative(m) && Tentative(m, s, S, R, D, P, H, last) && Relaxed(m, S, D)
    requires top in H && (forall v :: v in H ==> top.weight <= v.weight) && top.index !in S
    ensures top.index in R && D[top.index] <= top.weight
    ensures Tentative(m, s, S + {top.index}, R, D, P, H - multiset{top}, D[top.index])
    ensures RelaxedBut(m, S + {top.index}, D, top.index, 0)
  {
    var u := top.index;
    assert Vertex(u, D[u]) in H;
    forall p | PathFromTo(m, p, s, u) ensures D[u] <= Weight(m, p) {
      var y := ExitBound(m, s, S, D, p);
      if y in R {
        assert Vertex(y, D[y]) in H;
      }
    }
    forall x | x in R && x !in S + {u} ensures Vertex(x, D[x]) in H - multiset{top} {
      assert Vertex(x, D[x]) in H && Vertex(x, D[x]) != top;
    }
  }

  /** Popping an entry of a vertex already visited changes nothing else. */
  lemma PopStale(m: Matrix, s: int, S: set<int>, R: set<int>, D: seq<int>, P: seq<int>, H: multiset<Vertex>, last: int, top: Vertex)
    requires Tentative(m, s, S, R, D, P, H, last) && top in H && top.index in S
    ensures Tentative(m, s, S, R, D, P, H - multiset{top}, last)
  {
    forall x | x in R && x !in S ensures Vertex(x, D[x]) in H - multiset{top} {
      assert Vertex(x, D[x]) in H && Vertex(x, D[x]) != top;
    }
  }

  /** The arc u -> i exists and going through it gives i a shorter distance than it has. */
  ghost predicate Shortens(m: Matrix, D: seq<int>, u: int, i: int)
  {
    0 <= u < |D| && 0 <= i < |D| && Edge(m, u, i) && D[i] > D[u] + m[u][i]
  }

  /**
   * What relaxing the arcs out of u into columns below i did to the distances D0 and parents
   * P0, u's distance being du: a vertex whose distance or parent changed is in one of those
   * columns, its distance dropped to du plus the weight of its arc from u, and its parent is u.
   */
  ghost predicate RowUpdated(m: Matrix, D0: seq<int>, P0: seq<int>, D: seq<int>, P: seq<int>, u: int, du: int, i: int)
  {
    && |D| == |D0| == |P| == |P0|
    && forall k :: 0 <= k < |D| && (D[k] != D0[k] || P[k] != P0[k]) ==> k < i && D[k] == du + Cell(m, u, k) < D0[k] && P[k] == u
  }

  /** Relaxing column i, or leaving it when it does not shorten, extends `RowUpdated` to column i + 1. */
  lemma RowUpdateStep(m: Matrix, D0: seq<int>, P0: seq<int>, D: seq<int>, P: seq<int>, D': seq<int>, P': seq<int>, u: int, du: int, i: int, d: int)
    requires RowUpdated(m, D0, P0, D, P, u, du, i) && 0 <= i < |D| && 0 <= u < |D| && D[u] == du
    requires Shortens(m, D, u, i) ==> d == du + m[u][i] && D' == D[i := d] && P' == P[i := u]
    requires !Shortens(m, D, u, i) ==> D' == D && P' == P
    ensures RowUpdated(m, D0, P0, D', P', u, du, i + 1)
  {
  }

  /**
   * Relaxing the arc u -> i of the last visited vertex u, when it gives i a shorter distance:
   * i gets that distance and u as its parent, and an entry for it is pushed. The state holds,
   * with one more arc of u relaxed.
   */
  lemma RelaxStep(m: Matrix, s: int, S: set<int>, R: set<int>, D: seq<int>, P: seq<int>, H: multiset<Vertex>, u: int, i: int, d: int)
    requires NonNegative(m) && 0 <= u < |D| && Tentative(m, s, S, R, D, P, H, D[u]) && u in S
    requires RelaxedBut(m, S, D, u, i) && Edge(m, u, i) && d == D[u] + m[u][i] && D[i] > d
    ensures Tentative(m, s, S, R + {i}, D[i := d], P[i := u], H + multiset{Vertex(i, d)}, D[u])
    ensures RelaxedBut(m, S, D[i := d], u, i + 1)
    ensures D[i := d][u] == D[u]
  {
    assert i !in S && i != s && i != u;
    RelaxKeepsTree(m, s, R, D, P, u, i, d);
    RelaxKeepsHeap(S, R, D, H, D[u], i, d);
    var D' := D[i := d];
    forall x, p | x in S && PathFromTo(m, p, s, x) ensures D'[x] <= Weight(m, p) {
      assert D'[x] == D[x];
    }
  }

  /** Lowering the distance of an unvisited vertex i to d, and pushing an entry for it, keeps the heap sound and complete. */
  lemma RelaxKeepsHeap(S: set<int>, R: set<int>, D: seq<int>, H: multiset<Vertex>, last: int, i: int, d: int)
    requires R <= AllVertices(|D|) && Distances(R, D) && Entries(H, D, last) && Pending(R, S, D, H)
    requires 0 <= i < |D| && i !in S && 0 <= d && last <= d < D[i]
    ensures Distances(R + {i}, D[i := d])
    ensures Entries(H + multiset{Vertex(i, d)}, D[i := d], last)
    ensures Pending(R + {i}, S, D[i := d], H + multiset{Vertex(i, d)})
  {
    var D', R', H' := D[i := d], R + {i}, H + multiset{Vertex(i, d)};
    forall v | v in H' ensures 0 <= v.index < |D'| && D'[v.index] <= v.weight && last <= v.weight < Infinity {
      if v != Vertex(i, d) {
        assert v in H;
      }
    }
    forall x | x in R' && x !in S ensures Vertex(x, D'[x]) in H' {
      if x != i {
        assert Vertex(x, D[x]) in H;
      }
    }
  }

  /** Re-parenting i under u with the shorter distance d keeps the parent tree. */
  lemma RelaxKeepsTree(m: Matrix, s: int, R: set<int>, D: seq<int>, P: seq<int>, u: int, i: int, d: int)
    requires ParentTree(m, s, R, P, D, false) && u in R && i != s && 0 <= i < |D|
    requires Edge(m, u, i) && 0 < m[u][i] && d == D[u] + m[u][i] && d < D[i] && 0 <= d
    ensures ParentTree(m, s, R + {i}, P[i := u], D[i := d], false)
  {
    var D', P' := D[i := d], P[i := u];
    assert u != i;
    forall x | x in R + {i} && x != s
      ensures P'[x] in R + {i} && Edge(m, P'[x], x) && StepCost(m, P'[x], x, false) > 0
      ensures D'[P'[x]] + StepCost(m, P'[x], x, false) <= D'[x]
    {
      if x != i {
        assert P'[x] == P[x];
      }
    }
  }

  /** Column i of row u is no arc, or relaxing it gives nothing shorter: it counts as relaxed. */
  lemma RelaxSkip(m: Matrix, S: set<int>, D: seq<int>, u: int, i: int)
    requires RelaxedBut(m, S, D, u, i) && 0 <= u < |m|
    requires !(Edge(m, u, i) && D[i] > D[u] + m[u][i])
    ensures RelaxedBut(m, S, D, u, i + 1)
  {
  }

  /** Once every column of row u has been looked at, all arcs out of visited vertices are relaxed. */
  lemma RelaxedAll(m: Matrix, S: set<int>, D: seq<int>, u: int)
    requires RelaxedBut(m, S, D, u, |m|)
    ensures Relaxed(m, S, D)
  {
  }

  /**
   * With the heap empty and every arc out of a visited vertex relaxed, an unvisited vertex
   * has no path to it lighter than the sentinel.
   */
  lemma Exhausted(m: Matrix, s: int, S: set<int>, R: set<int>, D: seq<int>, P: seq<int>, last: int, t: int)
    requires NonNegative(m) && Tentative(m, s, S, R, D, P, multiset{}, last) && Relaxed(m, S, D)
    requires t !in S
    ensures !ReachableBelow(m, s, t, Infinity)
  {
    forall p | PathFromTo(m, p, s, t) ensures Weight(m, p) >= Infinity {
      var y := ExitBound(m, s, S, D, p);
      assert y !in R;
    }
  }

  /**
   * Room in the heap: with k < n vertices visited before, at most n * k entries are left,
   * and the row of one more vertex adds at most n more, which is still at most n * n.
   */
  lemma RowRoom(n: int, k: int, k': int)
    requires 0 <= k < n && k' == k + 1
    ensures n * k + n == n * k' <= n * n
  {
  }

  /** The state before the first pop: only the start is reached, at distance 0, with one entry. */
  lemma DijkstraStart(m: Matrix, s: int, D: seq<int>, P: seq<int>)
    requires 0 <= s < |m| && |D| == |P| == |m|
    requires forall x :: 0 <= x < |m| ==> P[x] == -1 && D[x] == (if x == s then 0 else Infinity)
    ensures Tentative(m, s, {}, {s}, D, P, multiset{Vertex(s, 0)}, 0) && Relaxed(m, {}, D)
  {
  }

  /**
   * What the engine promises of a weighted path query between public vertices start and end:
   * nothing when they coincide; otherwise a path exactly when some path weighs less than the
   * sentinel, and then a lightest one, numbered from 1, that visits no vertex twice.
   */
  ghost predicate PathAnswer(m: Matrix, start: int, end: int, path: seq<int>)
  {
    && (start == end ==> path == [])
    && (path != [] <==> start != end && ReachableBelow(m, start - 1, end - 1, Infinity))
    && (path != [] ==> Lightest(m, ZeroBased(path), start - 1, end - 1) && Weight(m, ZeroBased(path)) < Infinity && Distinct(path))
  }

  /** A weighted path query answers as `PathAnswer`, or fails with a full heap, which needs more than 999 < n * n entries. */
  ghost predicate DijkstraAnswer(m: Matrix, n: int, start: int, end: int, r: Result<seq<int>>)
  {
    match r
    case Failure(err) => err == HeapFull && DefaultCapacity < n * n
    case Success(path) => PathAnswer(m, start, end, path)
  }
}
