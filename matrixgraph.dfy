/**
 * The weighted graph engine (MatrixGraph_Ilano.cpp): an n-by-n adjacency matrix, a
 * directedness flag and an edge counter, with edge mutators, breadth-first reachability and
 * shortest-hop paths, and Dijkstra's shortest weighted paths. Public vertex numbers run from
 * 1 to n; the matrix is indexed from 0.
 */
module MatrixGraphs {
  import opened Errors
  import opened Paths
  import opened Queues
  import opened MinHeaps
  import opened SearchFacts
  import opened DijkstraFacts

  class MatrixGraph {
    /** The weight matrix; cell (a, b) is the arc a -> b, and 0 means no arc. */
    const adj: array2<int>
    /** The number of vertices, fixed at construction. */
    const vertices: int
    /** Whether arcs are one-way; an undirected graph writes every cell and its mirror. */
    const directed: bool
    /** The edge counter kept by the mutators. */
    var edges: int

    /** The matrix is n-by-n and, in an undirected graph, symmetric. */
    ghost predicate Valid()
      reads adj
    {
      && vertices >= 0
      && adj.Length0 == vertices && adj.Length1 == vertices
      && (!directed ==> forall a, b :: 0 <= a < vertices && 0 <= b < vertices ==> adj[a, b] == adj[b, a])
    }

    /** The matrix as a value. */
    ghost function Cells(): (m: Matrix)
      reads adj
      requires Valid()
      ensures IsMatrix(m, vertices)
      ensures forall a, b :: 0 <= a < vertices && 0 <= b < vertices ==> m[a][b] == adj[a, b]
    {
      seq(vertices, a reads adj requires 0 <= a < vertices =>
        seq(vertices, b reads adj requires 0 <= b < vertices => adj[a, b]))
    }

    /** A graph of `vertices` vertices with no edge. */
    constructor (vertices: int, directed: bool)
      requires vertices >= 0
      ensures Valid() && fresh(adj)
      ensures this.vertices == vertices && this.directed == directed && edges == 0
      ensures forall a, b :: 0 <= a < vertices && 0 <= b < vertices ==> adj[a, b] == 0
    {
      adj := new int[vertices, vertices]((_, _) => 0);
      this.directed := directed;
      this.vertices := vertices;
      edges := 0;
    }

    /**
     * Writes `weight` into cell (start, end), and into its mirror when undirected; the counter
     * grows by one exactly when the cell held 0 before.
     */
    method AddEdge(start: int, end: int, weight: int)
      requires Valid()
      requires 1 <= start <= vertices && 1 <= end <= vertices
      modifies this, adj
      ensures Valid()
      ensures edges == old(edges) + (if old(adj[start - 1, end - 1]) == 0 then 1 else 0)
      ensures GetEdgeWeight(start, end) == weight && (weight != 0 ==> Adjacent(start, end))
      ensures forall a, b :: 0 <= a < vertices && 0 <= b < vertices ==>
        adj[a, b] == (if (a, b) == (start - 1, end - 1) || (!directed && (a, b) == (end - 1, start - 1))
                      then weight else old(adj[a, b]))
    {
      if adj[start - 1, end - 1] == 0 {
        edges := edges + 1;
      }
      adj[start - 1, end - 1] := weight;
      if !directed {
        adj[end - 1, start - 1] := weight;
      }
    }

    /**
     * Zeroes cell (start, end), and its mirror when undirected; the counter drops by one
     * whether or not there was an edge.
     */
    method RemoveEdge(start: int, end: int)
      requires Valid()
      requires 1 <= start <= vertices && 1 <= end <= vertices
      modifies this, adj
      ensures Valid()
      ensures edges == old(edges) - 1
      ensures GetEdgeWeight(start, end) == 0 && (!directed ==> !Adjacent(start, end))
      ensures forall a, b :: 0 <= a < vertices && 0 <= b < vertices ==>
        adj[a, b] == (if (a, b) == (start - 1, end - 1) || (!directed && (a, b) == (end - 1, start - 1))
                      then 0 else old(adj[a, b]))
    {
      adj[start - 1, end - 1] := 0;
      if !directed {
        adj[end - 1, start - 1] := 0;
      }
      edges := edges - 1;
    }

    /** The two vertices are joined by an arc in one direction or the other. */
    function Adjacent(start: int, end: int): (r: bool)
      reads adj
      requires Valid()
      requires 1 <= start <= vertices && 1 <= end <= vertices
      ensures r <==> Edge(Cells(), start - 1, end - 1) || Edge(Cells(), end - 1, start - 1)
    {
      adj[start - 1, end - 1] != 0 || adj[end - 1, start - 1] != 0
    }

    /** The weight of the arc start -> end: the weight of the two-vertex path, nonzero exactly when it is a path. */
    function GetEdgeWeight(start: int, end: int): (r: int)
      reads adj
      requires Valid()
      requires 1 <= start <= vertices && 1 <= end <= vertices
      ensures r == Weight(Cells(), [start - 1, end - 1])
      ensures r != 0 <==> IsPath(Cells(), [start - 1, end - 1])
    {
      adj[start - 1, end - 1]
    }

    /** The number of vertices: the side of the matrix. */
    function GetVertices(): (r: int)
      reads adj
      requires Valid()
      ensures r == |Cells()| && r >= 0
    {
      vertices
    }

    /** The edge counter. */
    function GetEdges(): (r: int)
      reads this
      ensures r == edges
    {
      edges
    }

    /** Writes the same cell(s) as `AddEdge` but leaves the edge counter alone. */
    method SetEdgeWeight(start: int, end: int, weight: int)
      requires Valid()
      requires 1 <= start <= vertices && 1 <= end <= vertices
      modifies adj
      ensures Valid()
      ensures edges == old(edges) && GetEdgeWeight(start, end) == weight
      ensures forall a, b :: 0 <= a < vertices && 0 <= b < vertices ==>
        adj[a, b] == (if (a, b) == (start - 1, end - 1) || (!directed && (a, b) == (end - 1, start - 1))
                      then weight else old(adj[a, b]))
    {
      adj[start - 1, end - 1] := weight;
      if !directed {
        adj[end - 1, start - 1] := weight;
      }
    }

    /**
     * Breadth-first search from `start`: true as soon as an arc into `end` is found from a
     * visited vertex. The start is marked visited before any arc is examined, so a vertex is
     * never reported as reaching itself.
     */
    method PathExists(start: int, end: int) returns (found: bool)
      requires Valid()
      requires 1 <= start <= vertices && 1 <= end <= vertices
      ensures found <==> start != end && Reachable(Cells(), start - 1, end - 1)
    {
      var s, e := start - 1, end - 1;
      ghost var m := Cells();
      var visited := new bool[vertices](_ => false);
      var queue := new Queue<int>();
      queue.Enqueue(s);
      visited[s] := true;
      ghost var S: set<int> := {s};
      ghost var C: set<int> := {};
      assert PathFromTo(m, [s], s, s);
      while !queue.IsEmpty()
        invariant queue.Valid() && Marks(visited[..], S)
        invariant Frontier(m, s, e, queue.items, C, S)
        invariant forall x :: x in S ==> Reachable(m, s, x)
        decreases AllVertices(vertices) - S, |queue.items|
      {
        ghost var Q0, S0 := queue.items, S;
        var front := queue.Front();
        var curr := front.value;
        queue.Dequeue();
        var hit;
        hit, S := ScanForEnd(curr, e, queue, visited, m, s, S);
        if hit {
          ReachStep(m, s, curr, e);
          return true;
        }
        FrontierStep(m, s, e, Q0, queue.items, C, S0, S, vertices);
        C := C + {curr};
      }
      assert S <= C;
      if s != e {
        ClosedSetUnreachable(m, s, S, e);
      }
      return false;
    }

    /**
     * Breadth-first search from start that records, for every vertex it reaches, the vertex it
     * was reached from, stopping as soon as end is met; the path read back from end along the
     * recorded parents, numbered from 1, has the fewest arcs of any path from start to end.
     * When start and end coincide, or end cannot be reached, the path is empty.
     */
    method GetBFSPath(start: int, end: int) returns (path: seq<int>)
      requires Valid()
      requires 1 <= start <= vertices && 1 <= end <= vertices
      ensures start == end ==> path == []
      ensures path != [] <==> start != end && Reachable(Cells(), start - 1, end - 1)
      ensures path != [] ==> FewestHops(Cells(), ZeroBased(path), start - 1, end - 1) && Distinct(path)
    {
      var s, e := start - 1, end - 1;
      var pathFound, parent, S, lvl := SearchWithParents(s, e);
      path := [];
      if pathFound {
        path := TracePath(parent, e, Cells(), s, S + {e}, lvl, true);
        HitGivesFewestHops(Cells(), s, e, S, lvl, parent[..], ZeroBased(path));
        DistinctRenumbered(path);
      }
    }

    /**
     * The search loop of `GetBFSPath`: breadth-first from s, recording parents, until the
     * queue runs dry or e is met. When e is met the parent table holds a tree that reaches
     * e at its fewest-arcs level; otherwise e is s or cannot be reached.
     */
    method SearchWithParents(s: int, e: int) returns (pathFound: bool, parent: array<int>, ghost S: set<int>, ghost lvl: seq<int>)
      requires Valid() && 0 <= s < vertices && 0 <= e < vertices
      ensures pathFound ==> Hit(Cells(), s, e, S, lvl, parent[..])
      ensures !pathFound ==> s == e || !Reachable(Cells(), s, e)
    {
      ghost var m := Cells();
      parent := new int[vertices];
      for i := 0 to vertices
        invariant forall k :: 0 <= k < i ==> parent[k] == -1
      {
        parent[i] := -1;
      }
      var visited := new bool[vertices](_ => false);
      var queue := new Queue<int>();
      queue.Enqueue(s);
      visited[s] := true;
      pathFound, S, lvl := SearchFrom(s, e, queue, visited, parent, m);
      assert m == Cells();
    }

    /** The loop of `GetBFSPath`, from the state where only s is visited and queued and no vertex has a parent. */
    method SearchFrom(s: int, e: int, queue: Queue<int>, visited: array<bool>, parent: array<int>, ghost m: Matrix)
      returns (pathFound: bool, ghost S: set<int>, ghost lvl: seq<int>)
      requires Valid() && m == Cells() && 0 <= s < vertices && 0 <= e < vertices
      requires queue.Valid() && queue.items == [s] && visited.Length == parent.Length == vertices
      requires forall k :: 0 <= k < vertices ==> parent[k] == -1 && visited[k] == (k == s)
      modifies queue, visited, parent
      ensures pathFound ==> Hit(m, s, e, S, lvl, parent[..])
      ensures !pathFound ==> s == e || !Reachable(m, s, e)
    {
      pathFound := false;
      ghost var C: set<int>, cur := {}, 0;
      S, lvl := {s}, seq(vertices, _ => 0);
      LayeredStart(m, s, vertices, parent[..]);
      while !queue.IsEmpty() && !pathFound
        invariant queue.Valid() && Marks(visited[..], S)
        invariant Layered(m, s, queue.items, C, S, lvl, parent[..], cur)
        invariant !pathFound ==> Frontier(m, s, e, queue.items, C, S)
        invariant pathFound ==> Hit(m, s, e, S, lvl, parent[..])
        decreases !pathFound, AllVertices(vertices) - S, |queue.items|
      {
        pathFound, C, S, lvl, cur := SearchStep(e, queue, visited, parent, m, s, C, S, lvl, cur);
      }
      if !pathFound && s != e {
        ClosedSetUnreachable(m, s, S, e);
      }
    }

    /**
     * One round of the loop of `GetBFSPath`: takes the head of the queue and scans its row.
     * The search state is kept, and either the target is met or the round made progress.
     */
    method SearchStep(e: int, queue: Queue<int>, visited: array<bool>, parent: array<int>, ghost m: Matrix, ghost s: int,
                      ghost C0: set<int>, ghost S0: set<int>, ghost lvl0: seq<int>, ghost cur0: int)
      returns (found: bool, ghost C: set<int>, ghost S: set<int>, ghost lvl: seq<int>, ghost cur: int)
      requires Valid() && m == Cells() && queue.Valid() && queue.items != []
      requires visited.Length == vertices && 0 <= e < vertices
      requires Marks(visited[..], S0) && Layered(m, s, queue.items, C0, S0, lvl0, parent[..], cur0)
      requires Frontier(m, s, e, queue.items, C0, S0)
      modifies queue, visited, parent
      ensures queue.Valid() && Marks(visited[..], S) && Layered(m, s, queue.items, C, S, lvl, parent[..], cur)
      ensures !found ==> Frontier(m, s, e, queue.items, C, S)
      ensures found ==> Hit(m, s, e, S, lvl, parent[..])
      ensures found || AllVertices(vertices) - S < AllVertices(vertices) - S0 || (S == S0 && |queue.items| < |old(queue.items)|)
    {
      ghost var Q0 := queue.items;
      var front := queue.Front();
      var curr := front.value;
      queue.Dequeue();
      TakeHead(m, s, Q0, C0, S0, lvl0, parent[..], cur0);
      cur, C := lvl0[curr], C0 + {curr};
      found, S, lvl := ScanWithParents(curr, e, queue, visited, parent, m, s, C, S0, lvl0, cur);
      if !found {
        FrontierStep(m, s, e, Q0, queue.items, C0, S0, S, vertices);
      }
    }

    /**
     * The row loop of `GetBFSPath`: every unvisited neighbour of `curr` gets `curr` as its
     * parent; the scan stops at the first one that is `end`, and every other one is enqueued
     * and marked, one level below `curr`.
     */
    method ScanWithParents(curr: int, e: int, queue: Queue<int>, visited: array<bool>, parent: array<int>,
                           ghost m: Matrix, ghost s: int, ghost C: set<int>, ghost S0: set<int>, ghost lvl0: seq<int>, ghost cur: int)
      returns (hit: bool, ghost S: set<int>, ghost lvl: seq<int>)
      requires Valid() && m == Cells() && queue.Valid()
      requires visited.Length == vertices && 0 <= curr < vertices && 0 <= e < vertices
      requires Layered(m, s, queue.items, C, S0, lvl0, parent[..], cur)
      requires Marks(visited[..], S0) && curr in S0 && lvl0[curr] == cur
      modifies queue, visited, parent
      ensures queue.Valid() && Marks(visited[..], S)
      ensures e in S <==> e in S0
      ensures Grown(old(queue.items), queue.items, S0, S)
      ensures Layered(m, s, queue.items, C, S, lvl, parent[..], cur)
      ensures hit ==> Hit(m, s, e, S, lvl, parent[..]) && parent[e] == curr && lvl[e] == cur + 1
      ensures !hit ==> forall y :: Edge(m, curr, y) ==> y in S
      ensures forall y :: y in S && y !in S0 ==> parent[y] == curr && lvl[y] == cur + 1
    {
      S, lvl := S0, lvl0;
      var i := 0;
      while i < vertices
        invariant queue.Valid()
        invariant ScanInv(m, s, e, curr, i, old(queue.items), queue.items, C, S0, S, lvl, parent[..], visited[..], cur)
      {
        hit, S, lvl := ScanColumn(curr, i, e, queue, visited, parent, m, s, C, S0, old(queue.items), S, lvl, cur);
        if hit {
          return;
        }
        i := i + 1;
      }
      hit := false;
    }

    /**
     * One column of the row loop of `GetBFSPath`: an arc from `curr` to an unvisited vertex
     * gives it `curr` as its parent; it is then the target, or it is enqueued and marked.
     */
    method ScanColumn(curr: int, i: int, e: int, queue: Queue<int>, visited: array<bool>, parent: array<int>, ghost m: Matrix, ghost s: int,
                      ghost C: set<int>, ghost S0: set<int>, ghost Q0: seq<int>, ghost S1: set<int>, ghost lvl1: seq<int>, ghost cur: int)
      returns (hit: bool, ghost S: set<int>, ghost lvl: seq<int>)
      requires Valid() && m == Cells() && queue.Valid()
      requires visited.Length == vertices && 0 <= curr < vertices && 0 <= e < vertices && 0 <= i < vertices
      requires ScanInv(m, s, e, curr, i, Q0, queue.items, C, S0, S1, lvl1, parent[..], visited[..], cur)
      modifies queue, visited, parent
      ensures queue.Valid()
      ensures !hit ==> ScanInv(m, s, e, curr, i + 1, Q0, queue.items, C, S0, S, lvl, parent[..], visited[..], cur)
      ensures hit ==> queue.items == old(queue.items) && S == S1 && Marks(visited[..], S) && (e in S <==> e in S0)
      ensures hit ==> Layered(m, s, queue.items, C, S, lvl, parent[..], cur) && Hit(m, s, e, S, lvl, parent[..])
      ensures hit ==> parent[e] == curr && lvl[e] == cur + 1
      ensures hit ==> forall y :: y in S && y !in S0 ==> parent[y] == curr && lvl[y] == cur + 1
    {
      S, lvl := S1, lvl1;
      ghost var Q, par, vis := queue.items, parent[..], visited[..];
      assert adj[curr, i] == m[curr][i];
      if adj[curr, i] != 0 && !visited[i] {
        parent[i] := curr;
        assert parent[..] == par[i := curr];
        if i == e {
          ScanHit(m, s, e, curr, i, Q0, Q, C, S0, S, lvl, par, vis, cur);
          ScanHitKeeps(S0, S, lvl, par, curr, i, cur);
          return true, S, lvl[i := cur + 1];
        }
        ScanVisit(m, s, e, curr, i, Q0, Q, C, S0, S, lvl, par, vis, cur);
        queue.Enqueue(i);
        visited[i] := true;
        assert visited[..] == vis[i := true];
        S, lvl := S + {i}, lvl[i := cur + 1];
      } else {
        ScanSkip(m, s, e, curr, i, Q0, Q, C, S0, S, lvl, par, vis, cur);
      }
      hit := false;
    }

    /**
     * Dijkstra's algorithm from start: every vertex starts at the sentinel distance, the
     * least heap entry is popped until the heap is empty, entries of visited vertices are
     * skipped, and every arc out of a newly visited vertex is relaxed, pushing an entry for each
     * shorter distance. The path read back from end along the parents is the lightest; it is
     * empty when start and end coincide or no path weighs less than the sentinel. A push onto
     * the full heap fails the query.
     */
    method GetDijkstraPath(start: int, end: int) returns (r: Result<seq<int>>)
      requires Valid() && NonNegative(Cells())
      requires 1 <= start <= vertices && 1 <= end <= vertices
      ensures DijkstraAnswer(Cells(), vertices, start, end, r)
    {
      if start == end {
        return Success([]);
      }
      var s, e := start - 1, end - 1;
      var o, pathFound, parent, distance, R := SettleAll(s, e);
      if o.Fail? {
        return Failure(o.error);
      }
      var path := [];
      if pathFound {
        path := TracePath(parent, e, Cells(), s, R, distance[..], false);
        assert Lightest(Cells(), ZeroBased(path), s, e);
        LightestIsDistinct(Cells(), ZeroBased(path), s, e);
        DistinctRenumbered(path);
      }
      return Success(path);
    }

    /**
     * The loop of `GetDijkstraPath`. When it completes, the parents form a tree over the
     * reached vertices whose ranks are the distances; end is visited exactly when some path to
     * it weighs less than the sentinel, and then no path to it is lighter than its distance.
     */
    method SettleAll(s: int, e: int) returns (o: Outcome, pathFound: bool, parent: array<int>, distance: array<int>, ghost R: set<int>)
      requires Valid() && NonNegative(Cells()) && 0 <= s < vertices && 0 <= e < vertices
      ensures o.Fail? ==> o.error == HeapFull && DefaultCapacity < vertices * vertices
      ensures o.Pass? ==> ParentTree(Cells(), s, R, parent[..], distance[..], false)
      ensures o.Pass? && pathFound ==> e in R && distance[e] < Infinity
      ensures o.Pass? && pathFound ==> forall p :: PathFromTo(Cells(), p, s, e) ==> distance[e] <= Weight(Cells(), p)
      ensures o.Pass? && !pathFound ==> !ReachableBelow(Cells(), s, e, Infinity)
    {
      ghost var m := Cells();
      var pq, visited;
      pq, visited, distance, parent := StartDijkstra(s, m);
      pathFound := false;
      ghost var S: set<int>, last := {}, 0;
      R := {s};
      assert |S| == 0 && vertices * 0 == 0;
      while !pq.IsEmpty()
        invariant fresh(pq) && fresh(pq.arr) && pq.Valid() && pq.capacity == DefaultCapacity
        invariant Marks(visited[..], S)
        invariant Tentative(m, s, S, R, distance[..], parent[..], pq.Contents(), last) && Relaxed(m, S, distance[..])
        invariant pathFound == (e in S) && pq.count <= vertices * |S| + 1
        decreases AllVertices(vertices) - S, pq.count
      {
        ghost var U0, c0 := AllVertices(vertices) - S, pq.count;
        o, pathFound, S, R, last := DijkstraStep(e, pq, visited, distance, parent, m, s, S, R, last, pathFound);
        if o.Fail? {
          return;
        }
        assert AllVertices(vertices) - S < U0 || (AllVertices(vertices) - S == U0 && pq.count < c0);
      }
      o := Pass;
      if !pathFound {
        Exhausted(m, s, S, R, distance[..], parent[..], last, e);
      }
      assert m == Cells();
    }

    /** The set-up of `GetDijkstraPath`: every distance infinite but the start's 0, no parents, nothing visited, the start on the heap. */
    method StartDijkstra(s: int, ghost m: Matrix) returns (pq: MinHeap, visited: array<bool>, distance: array<int>, parent: array<int>)
      requires Valid() && m == Cells() && 0 <= s < vertices
      ensures fresh(pq) && fresh(pq.arr) && fresh(visited) && fresh(distance) && fresh(parent) && distance != parent
      ensures pq.Valid() && pq.capacity == DefaultCapacity && pq.count == 1
      ensures visited.Length == distance.Length == parent.Length == vertices && Marks(visited[..], {})
      ensures Tentative(m, s, {}, {s}, distance[..], parent[..], pq.Contents(), 0) && Relaxed(m, {}, distance[..])
    {
      distance := new int[vertices];
      parent := new int[vertices];
      for i := 0 to vertices
        invariant forall k :: 0 <= k < i ==> distance[k] == Infinity && parent[k] == -1
      {
        distance[i] := Infinity;
        parent[i] := -1;
      }
      visited := new bool[vertices](_ => false);
      distance[s] := 0;
      pq := new MinHeap();
      var o := pq.Enqueue(s, 0);
      DijkstraStart(m, s, distance[..], parent[..]);
      assert visited[..] == seq(vertices, _ => false);
    }

    /**
     * One round of the loop of `GetDijkstraPath`: pops the least entry; a visited vertex is
     * skipped, an unvisited one is visited (noting whether it is end) and its row relaxed.
     */
    method DijkstraStep(e: int, pq: MinHeap, visited: array<bool>, distance: array<int>, parent: array<int>,
                        ghost m: Matrix, ghost s: int, ghost S0: set<int>, ghost R0: set<int>, ghost last0: int, pathFound0: bool)
      returns (o: Outcome, pathFound: bool, ghost S: set<int>, ghost R: set<int>, ghost last: int)
      requires Valid() && m == Cells() && NonNegative(m) && 0 <= e < vertices
      requires pq.Valid() && pq.capacity == DefaultCapacity && pq.count > 0
      requires visited.Length == vertices && distance != parent
      requires Marks(visited[..], S0)
      requires Tentative(m, s, S0, R0, distance[..], parent[..], pq.Contents(), last0) && Relaxed(m, S0, distance[..])
      requires pathFound0 == (e in S0) && pq.count <= vertices * |S0| + 1
      modifies pq, pq.arr, visited, distance, parent
      ensures o.Fail? ==> o.error == HeapFull && DefaultCapacity < vertices * vertices
      ensures o.Pass? ==> pq.Valid() && Marks(visited[..], S)
      ensures o.Pass? ==> Tentative(m, s, S, R, distance[..], parent[..], pq.Contents(), last) && Relaxed(m, S, distance[..])
      ensures o.Pass? ==> pathFound == (e in S) && pq.count <= vertices * |S| + 1
      ensures o.Pass? ==> AllVertices(vertices) - S < AllVertices(vertices) - S0 || (S == S0 && pq.count < old(pq.count))
    {
      var top := pq.Peek();
      var u := top.index;
      ghost var H0, D0, P0 := pq.Contents(), distance[..], parent[..];
      o := pq.Dequeue();
      if visited[u] {
        PopStale(m, s, S0, R0, D0, P0, H0, last0, top);
        return Pass, pathFound0, S0, R0, last0;
      }
      PopFresh(m, s, S0, R0, D0, P0, H0, last0, top);
      SizeGrows(S0, u);
      o, pathFound, S, R, last := SettleVertex(u, e, pq, visited, distance, parent, m, s, S0, R0, pathFound0);
    }

    /** `GetDijkstraPath` on taking an unvisited vertex u off the heap: marks it visited and relaxes its row. */
    method SettleVertex(u: int, e: int, pq: MinHeap, visited: array<bool>, distance: array<int>, parent: array<int>,
                        ghost m: Matrix, ghost s: int, ghost S0: set<int>, ghost R0: set<int>, pathFound0: bool)
      returns (o: Outcome, pathFound: bool, ghost S: set<int>, ghost R: set<int>, ghost last: int)
      requires Valid() && m == Cells() && NonNegative(m) && 0 <= e < vertices && 0 <= u < vertices
      requires pq.Valid() && pq.capacity == DefaultCapacity
      requires visited.Length == distance.Length == vertices && distance != parent
      requires Marks(visited[..], S0) && u !in S0 && |S0 + {u}| == |S0| + 1
      requires Tentative(m, s, S0 + {u}, R0, distance[..], parent[..], pq.Contents(), distance[u])
      requires RelaxedBut(m, S0 + {u}, distance[..], u, 0)
      requires pathFound0 == (e in S0) && pq.count <= vertices * |S0|
      modifies pq, pq.arr, visited, distance, parent
      ensures S == S0 + {u}
      ensures o.Fail? ==> o.error == HeapFull && DefaultCapacity < vertices * vertices
      ensures o.Pass? ==> pq.Valid() && Marks(visited[..], S)
      ensures o.Pass? ==> Tentative(m, s, S, R, distance[..], parent[..], pq.Contents(), last) && Relaxed(m, S, distance[..])
      ensures o.Pass? ==> pathFound == (e in S) && pq.count <= vertices * |S|
    {
      pathFound := pathFound0 || u == e;
      visited[u] := true;
      S, last := S0 + {u}, distance[u];
      ghost var V := visited[..];
      assert Marks(V, S);
      AtMostAllVertices(S, vertices);
      RowRoom(vertices, |S0|, |S|);
      o, R := RelaxRow(u, pq, distance, parent, m, s, S, R0, vertices * |S0|);
      assert visited[..] == V;
    }

    /** The row loop of `GetDijkstraPath`: relaxes every arc out of u, pushing an entry for each distance it lowers. */
    method RelaxRow(u: int, pq: MinHeap, distance: array<int>, parent: array<int>, ghost m: Matrix, ghost s: int, ghost S: set<int>, ghost R0: set<int>, ghost base: int)
      returns (o: Outcome, ghost R: set<int>)
      requires Valid() && m == Cells() && NonNegative(m) && distance != parent
      requires pq.Valid() && pq.capacity == DefaultCapacity && 0 <= u < vertices == distance.Length
      requires Tentative(m, s, S, R0, distance[..], parent[..], pq.Contents(), distance[u]) && u in S
      requires RelaxedBut(m, S, distance[..], u, 0) && pq.count <= base && base + vertices <= vertices * vertices
      modifies pq, pq.arr, distance, parent
      ensures o.Fail? ==> o.error == HeapFull && DefaultCapacity < vertices * vertices
      ensures o.Pass? ==> pq.Valid() && pq.count <= base + vertices
      ensures o.Pass? ==> Tentative(m, s, S, R, distance[..], parent[..], pq.Contents(), old(distance[u])) && Relaxed(m, S, distance[..])
      ensures o.Pass? ==> RowUpdated(m, old(distance[..]), old(parent[..]), distance[..], parent[..], u, old(distance[u]), vertices)
    {
      R := R0;
      ghost var du, D0, P0 := distance[u], distance[..], parent[..];
      for i := 0 to vertices
        invariant pq.Valid() && pq.count <= base + i && distance[u] == du
        invariant Tentative(m, s, S, R, distance[..], parent[..], pq.Contents(), du) && RelaxedBut(m, S, distance[..], u, i)
        invariant RowUpdated(m, D0, P0, distance[..], parent[..], u, du, i)
      {
        o, R := RelaxArc(u, i, pq, distance, parent, m, s, S, R, D0, P0, distance[..], parent[..]);
        if o.Fail? {
          return;
        }
      }
      RelaxedAll(m, S, distance[..], u);
      o := Pass;
    }

    /** One column of the row loop of `GetDijkstraPath`: relaxes the arc u -> i if there is one and it gives a shorter distance. */
    method RelaxArc(u: int, i: int, pq: MinHeap, distance: array<int>, parent: array<int>, ghost m: Matrix, ghost s: int, ghost S: set<int>, ghost R0: set<int>,
                    ghost D0: seq<int>, ghost P0: seq<int>, ghost D: seq<int>, ghost P: seq<int>)
      returns (o: Outcome, ghost R: set<int>)
      requires Valid() && m == Cells() && NonNegative(m) && distance != parent
      requires pq.Valid() && 0 <= u < vertices == distance.Length && 0 <= i < vertices
      requires D == distance[..] && P == parent[..]
      requires Tentative(m, s, S, R0, D, P, pq.Contents(), D[u]) && u in S
      requires RelaxedBut(m, S, D, u, i) && RowUpdated(m, D0, P0, D, P, u, D[u], i)
      modifies pq, pq.arr, distance, parent
      ensures o.Fail? ==> o.error == HeapFull && old(pq.count) == pq.capacity
      ensures o.Pass? ==> pq.Valid() && pq.count <= old(pq.count) + 1
      ensures o.Pass? ==> Tentative(m, s, S, R, distance[..], parent[..], pq.Contents(), D[u]) && RelaxedBut(m, S, distance[..], u, i + 1)
      ensures RowUpdated(m, D0, P0, distance[..], parent[..], u, D[u], i + 1)
      ensures Shortens(m, D, u, i) ==> distance[i] == D[u] + m[u][i] && distance[..] == D[i := distance[i]] && parent[..] == P[i := u]
      ensures o.Pass? && Shortens(m, D, u, i) ==> pq.Contents() == old(pq.Contents()) + multiset{Vertex(i, distance[i])}
      ensures !Shortens(m, D, u, i) ==> o.Pass? && distance[..] == D && parent[..] == P && pq.Contents() == old(pq.Contents())
    {
      R := R0;
      o := Pass;
      assert adj[u, i] == m[u][i] && distance[u] == D[u] && distance[i] == D[i];
      if adj[u, i] != 0 && distance[i] > distance[u] + adj[u, i] {
        var d := distance[u] + adj[u, i];
        assert Shortens(m, D, u, i) && d == D[u] + m[u][i];
        o, R := Lower(u, i, d, pq, distance, parent, m, s, S, R0, D0, P0, D, P);
      } else {
        assert !Shortens(m, D, u, i);
        RelaxSkip(m, S, D, u, i);
        RowUpdateStep(m, D0, P0, D, P, D, P, u, D[u], i, D[i]);
      }
    }

    /** The shortening branch of `RelaxArc`: i gets distance d through u, and an entry for it is pushed. */
    method Lower(u: int, i: int, d: int, pq: MinHeap, distance: array<int>, parent: array<int>, ghost m: Matrix, ghost s: int, ghost S: set<int>, ghost R0: set<int>,
                 ghost D0: seq<int>, ghost P0: seq<int>, ghost D: seq<int>, ghost P: seq<int>)
      returns (o: Outcome, ghost R: set<int>)
      requires Valid() && m == Cells() && NonNegative(m) && distance != parent
      requires pq.Valid() && 0 <= u < vertices == distance.Length && 0 <= i < vertices
      requires D == distance[..] && P == parent[..]
      requires Tentative(m, s, S, R0, D, P, pq.Contents(), D[u]) && u in S
      requires RelaxedBut(m, S, D, u, i) && RowUpdated(m, D0, P0, D, P, u, D[u], i)
      requires Shortens(m, D, u, i) && d == D[u] + m[u][i]
      modifies pq, pq.arr, distance, parent
      ensures o.Fail? ==> o.error == HeapFull && old(pq.count) == pq.capacity
      ensures o.Pass? ==> pq.Valid() && pq.count <= old(pq.count) + 1
      ensures o.Pass? ==> Tentative(m, s, S, R, distance[..], parent[..], pq.Contents(), D[u]) && RelaxedBut(m, S, distance[..], u, i + 1)
      ensures RowUpdated(m, D0, P0, distance[..], parent[..], u, D[u], i + 1)
      ensures distance[..] == D[i := d] && parent[..] == P[i := u] && distance[i] == d
      ensures o.Pass? ==> pq.Contents() == old(pq.Contents()) + multiset{Vertex(i, d)}
    {
      ghost var H := pq.Contents();
      RelaxStep(m, s, S, R0, D, P, H, u, i, d);
      distance[i] := d;
      parent[i] := u;
      ghost var D', P' := distance[..], parent[..];
      assert D' == D[i := d] && P' == P[i := u];
      RowUpdateStep(m, D0, P0, D, P, D', P', u, D[u], i, d);
      o := pq.Enqueue(i, d);
      assert distance[..] == D' && parent[..] == P';
      R := R0 + {i};
    }

    /**
     * The lightest paths from vertex to every vertex, in vertex order, each answered as
     * `GetDijkstraPath` answers it; a failing query fails the whole.
     */
    method GetDijkstraAll(vertex: int) returns (r: Result<seq<seq<int>>>)
      requires Valid() && NonNegative(Cells()) && 1 <= vertex <= vertices
      ensures r.Failure? ==> r.error == HeapFull && DefaultCapacity < vertices * vertices
      ensures r.Success? ==> |r.value| == vertices
      ensures r.Success? ==> forall i :: 0 <= i < vertices ==> PathAnswer(Cells(), vertex, i + 1, r.value[i])
    {
      var paths: seq<seq<int>> := seq(vertices, _ => []);
      for i := 0 to vertices
        invariant |paths| == vertices
        invariant forall k :: 0 <= k < i ==> PathAnswer(Cells(), vertex, k + 1, paths[k])
      {
        var p := GetDijkstraPath(vertex, i + 1);
        if p.Failure? {
          return Failure(p.error);
        }
        paths := paths[i := p.value];
      }
      return Success(paths);
    }

    /**
     * The row loop of `PathExists`: visits row `curr`, stopping at the first unvisited
     * neighbour that is `end`; every other unvisited neighbour is enqueued and marked.
     */
    method ScanForEnd(curr: int, e: int, queue: Queue<int>, visited: array<bool>, ghost m: Matrix, ghost s: int, ghost S0: set<int>)
      returns (hit: bool, ghost S: set<int>)
      requires Valid() && m == Cells() && queue.Valid()
      requires visited.Length == vertices && 0 <= curr < vertices && 0 <= e < vertices
      requires Marks(visited[..], S0) && curr in S0
      requires forall x :: x in S0 ==> Reachable(m, s, x)
      modifies queue, visited
      ensures queue.Valid() && Marks(visited[..], S)
      ensures e in S <==> e in S0
      ensures Grown(old(queue.items), queue.items, S0, S)
      ensures forall x :: x in S ==> Reachable(m, s, x)
      ensures hit ==> Edge(m, curr, e) && e !in S
      ensures !hit ==> forall y :: Edge(m, curr, y) ==> y in S
    {
      S := S0;
      var i := 0;
      while i < vertices
        invariant 0 <= i <= vertices
        invariant queue.Valid() && Marks(visited[..], S)
        invariant e in S <==> e in S0
        invariant Grown(old(queue.items), queue.items, S0, S)
        invariant forall x :: x in S ==> Reachable(m, s, x)
        invariant forall y :: 0 <= y < i && Edge(m, curr, y) ==> y in S
      {
        if adj[curr, i] != 0 && !visited[i] {
          if i == e {
            return true, S;
          }
          ReachStep(m, s, curr, i);
          GrowBy(old(queue.items), queue.items, S0, S, i);
          queue.Enqueue(i);
          visited[i] := true;
          S := S + {i};
        }
        i := i + 1;
      }
      hit := false;
    }
  }

  /**
   * Walks the parent table back from e to the root, putting each vertex in front, numbered
   * from 1; the result is a path from the root to e whose cost is at most e's rank.
   */
  method TracePath(parent: array<int>, e: int, ghost m: Matrix, ghost s: int, ghost T: set<int>, ghost rk: seq<int>, ghost hops: bool)
    returns (path: seq<int>)
    requires ParentTree(m, s, T, parent[..], rk, hops) && e in T
    ensures PathFromTo(m, ZeroBased(path), s, e)
    ensures Cost(m, ZeroBased(path), hops) <= rk[e]
  {
    path := [];
    var curr := e;
    ghost var q: seq<int> := [];
    while curr != -1
      invariant Traced(m, s, T, rk, hops, e, curr, q)
      invariant |path| == |q| && forall k :: 0 <= k < |q| ==> path[k] == q[k] + 1
      decreases if curr == -1 then 0 else rk[curr] + 1
    {
      TraceStep(m, s, T, parent[..], rk, hops, e, curr, q);
      path := [curr + 1] + path;
      q := [curr] + q;
      curr := parent[curr];
    }
    assert ZeroBased(path) == q;
  }
}
