# Adjacency-matrix graph engine

A model of a small graph library. The library stores a weighted graph as an n-by-n adjacency matrix. It answers three kinds of query over that matrix:

- breadth-first reachability;
- shortest-hop paths;
- Dijkstra shortest weighted paths.

Its two helper containers are modelled too: a linked FIFO queue and a fixed-capacity binary min-heap of (vertex, weight) entries.

The model is imperative where the library is:

- The graph is a class over an `array2<int>` with an edge counter.
- The heap is a class over an `array<Vertex>`, and its sift-down and rebuild work in place.
- The queue is a class whose linked chain is a `seq` field.
- The search procedures are methods with the library's loops, its `visited` and `parent` arrays and the library's own queue and heap objects.

Each search is proved against a specification stated over values. That vocabulary lives in three modules:

- `Paths`: paths, reachability, path weight, fewest-hop and lightest paths.
- `SearchFacts`: the layered breadth-first state and the parent tree.
- `DijkstraFacts`: the tentative-distance state and the answer a weighted query must give.

Public vertex numbers run from 1 to n, and the matrix is indexed from 0, as in the library. The behaviours below are modelled as the code has them:

- Asking whether a vertex reaches itself answers false, and its breadth-first path is empty. The start is marked visited before any arc is looked at.
- A Dijkstra query from a vertex to itself returns the empty path.
- Distances start at the sentinel 999999. A vertex is found only through a path lighter than that.
- Relaxation does not look at `visited`. Stale heap entries are skipped when they are popped.
- The heap holds 999 entries. Pushing onto a full heap is the library's "Heap is Full" exception, modelled as `Failure(HeapFull)`. The model proves that this can only happen on graphs with more than 999 < n·n cells.
- `RemoveEdge` decrements the edge counter whether or not the cell held an arc. `AddEdge` increments it whenever the cell held 0, even when the new weight is 0.

Exceptions the library throws become values of the `Errors` datatypes: `Result` and `Outcome`.

## Model

| member | source | states |
|---|---|---|
| MatrixGraphs.MatrixGraph.constructor | MatrixGraph_Ilano.cpp:14-22 | The graph has the given size and directedness, every cell is 0, and the edge counter is 0. |
| MatrixGraphs.MatrixGraph.AddEdge | MatrixGraph_Ilano.cpp:33-43 | The cell (start, end) is written, and its mirror too when the graph is undirected; no other cell changes. The counter grows by one exactly when the cell held 0. The weight reads back, and a nonzero weight makes the two vertices adjacent. |
| MatrixGraphs.MatrixGraph.RemoveEdge | MatrixGraph_Ilano.cpp:45-52 | The cell and, when undirected, its mirror become 0; nothing else changes. The counter always drops by one. The weight reads back as 0, and in an undirected graph the vertices are no longer adjacent. |
| MatrixGraphs.MatrixGraph.Adjacent | MatrixGraph_Ilano.cpp:54-59 | True exactly when there is an arc in either direction between the two vertices. |
| MatrixGraphs.MatrixGraph.GetEdgeWeight | MatrixGraph_Ilano.cpp:61-63 | The result is the weight of the two-vertex path start, end. It is nonzero exactly when that is a path. |
| MatrixGraphs.MatrixGraph.GetVertices | MatrixGraph_Ilano.cpp:65-67 | The side of the matrix. |
| MatrixGraphs.MatrixGraph.GetEdges | MatrixGraph_Ilano.cpp:69-71 | The edge counter. |
| MatrixGraphs.MatrixGraph.SetEdgeWeight | MatrixGraph_Ilano.cpp:73-79 | Writes the same cells as `AddEdge` and leaves the counter unchanged. The weight reads back. |
| MatrixGraphs.MatrixGraph.PathExists | MatrixGraph_Ilano.cpp:110-139 | True exactly when start differs from end and some path leads from start to end. |
| MatrixGraphs.MatrixGraph.ScanForEnd | MatrixGraph_Ilano.cpp:125-134 | The row scan stops at an unvisited arc into end. Otherwise every neighbour of the row ends up visited and queued, and every visited vertex stays reachable from start. |
| MatrixGraphs.MatrixGraph.GetBFSPath | MatrixGraph_Ilano.cpp:141-189 | The path is empty when start equals end. It is nonempty exactly when start differs from end and end is reachable. A nonempty path, numbered from 1, runs from start to end, has no more arcs than any other such path, and repeats no vertex. |
| MatrixGraphs.MatrixGraph.SearchWithParents | MatrixGraph_Ilano.cpp:146-173 | When end is met, the parent table is a tree that reaches end at its fewest-arc level. Otherwise end is start or is unreachable. |
| MatrixGraphs.MatrixGraph.SearchFrom | MatrixGraph_Ilano.cpp:158-173 | Started with only start visited and queued and no parents, the loop meets end with the parent table a fewest-arc tree reaching it, or stops with end equal to start or unreachable. |
| MatrixGraphs.MatrixGraph.SearchStep | MatrixGraph_Ilano.cpp:158-173 | One round keeps the layered search state: levels in the queue are sorted and within one of the current level, and parents sit one level up. The round either meets end or makes progress. |
| MatrixGraphs.MatrixGraph.ScanWithParents | MatrixGraph_Ilano.cpp:162-172 | Every vertex the scan newly visits has the scanned vertex as its parent and sits one level below it, and is in the queue. On meeting end the scan stops with end's parent the scanned vertex and end's level fewest-arc. Otherwise every neighbour of the scanned vertex is visited afterwards. |
| MatrixGraphs.MatrixGraph.ScanColumn | MatrixGraph_Ilano.cpp:163-171 | One column: an arc to an unvisited vertex other than end gives it the scanned vertex as parent, queues it and marks it visited, keeping the scan state. An arc to an unvisited end sets end's parent and stops with end met, leaving the queue as it was. |
| MatrixGraphs.TracePath | MatrixGraph_Ilano.cpp:177-183 | Walking the parent tree back from a vertex gives a path from the root to that vertex, numbered from 1. Its cost (arcs, or weight) is at most the vertex's rank in the tree. |
| MatrixGraphs.MatrixGraph.GetDijkstraPath | MatrixGraph_Ilano.cpp:191-249 | The path is empty when start equals end. It is nonempty exactly when start differs from end and some path to end weighs less than 999999. A nonempty path, numbered from 1, weighs no more than any path from start to end and repeats no vertex. The query fails only on a full heap, which needs n·n > 999. |
| MatrixGraphs.MatrixGraph.SettleAll | MatrixGraph_Ilano.cpp:198-230 | When the heap runs dry, the parents form a tree whose ranks are the distances. End was visited exactly when some path to it weighs less than the sentinel, and then no path is lighter than its distance. |
| MatrixGraphs.MatrixGraph.StartDijkstra | MatrixGraph_Ilano.cpp:198-213 | Set-up: only start is reached, at distance 0, and it is the one heap entry. Nothing is visited. The tentative state holds. |
| MatrixGraphs.MatrixGraph.DijkstraStep | MatrixGraph_Ilano.cpp:215-229 | One pop keeps the tentative state and the relaxed-arcs invariant, and the heap stays within n·visited+1 entries. A stale entry is skipped; a fresh one is settled. |
| MatrixGraphs.MatrixGraph.SettleVertex | MatrixGraph_Ilano.cpp:219-229 | Visiting a vertex u marks it, records whether it is end, and relaxes its row. The state holds with every arc out of a visited vertex relaxed. |
| MatrixGraphs.MatrixGraph.RelaxRow | MatrixGraph_Ilano.cpp:223-229 | A vertex whose distance or parent the row changes now has a strictly lower distance, equal to u's distance plus the weight of the arc from u, and has u as its parent. At most n entries are pushed. Afterwards all arcs out of visited vertices are relaxed and the state holds. |
| MatrixGraphs.MatrixGraph.RelaxArc | MatrixGraph_Ilano.cpp:226-228 | When the arc u -> i exists and gives i a shorter distance, i's distance becomes u's distance plus the arc's weight, its parent becomes u, no other cell changes, and exactly the entry (i, new distance) is pushed. Otherwise distances, parents and heap are unchanged. Either way the arc counts as relaxed and the state holds. A push fails only on a heap already at capacity. |
| MatrixGraphs.MatrixGraph.Lower | MatrixGraph_Ilano.cpp:227-229 | The distance of i becomes d and its parent u, no other cell changes, and the heap gains exactly the entry (i, d). The state holds with the arc relaxed. |
| MatrixGraphs.MatrixGraph.GetDijkstraAll | MatrixGraph_Ilano.cpp:251-257 | n answers, the i-th answering the weighted query from vertex to i+1 as `GetDijkstraPath` does. The whole fails only on a full heap. |
| DijkstraFacts.PopFresh | MatrixGraph_Ilano.cpp:215-224 | Popping the least entry of an unvisited vertex: no path to it is lighter than its distance, and the state holds with it visited. |
| DijkstraFacts.PopStale | MatrixGraph_Ilano.cpp:216-218 | Dropping an entry of a visited vertex keeps the state. |
| DijkstraFacts.ExitBound | MatrixGraph_Ilano.cpp:213-230 | Every path from start to an unvisited vertex crosses at an unvisited vertex whose distance is at most the path's weight. |
| DijkstraFacts.RelaxStep | MatrixGraph_Ilano.cpp:226-228 | Lowering a distance through the arc u -> i, setting the parent and pushing the entry keeps the state. |
| DijkstraFacts.RelaxSkip | MatrixGraph_Ilano.cpp:226 | A column that is no arc, or gives nothing shorter, counts as relaxed. |
| DijkstraFacts.Exhausted | MatrixGraph_Ilano.cpp:213-230 | With the heap empty, no unvisited vertex has a path lighter than the sentinel. |
| SearchFacts.TakeHead | MatrixGraph_Ilano.cpp:159-160 | Taking the head of the queue closes its vertex and moves the current level up to that vertex's level. |
| SearchFacts.FrontierStep | MatrixGraph_Ilano.cpp:121-135 | After a row scan, the search frontier still separates closed vertices from those not yet seen. |
| SearchFacts.TraceStep | MatrixGraph_Ilano.cpp:179-182 | One step back along the parent table extends the path read so far by an arc, moves to a strictly lower rank, and keeps the cost bound. |
| SearchFacts.HitGivesFewestHops | MatrixGraph_Ilano.cpp:165-183 | A path read from the parent tree, when end is met, has the fewest arcs of any path and does not start at end. |
| Paths.ClosedSetUnreachable | MatrixGraph_Ilano.cpp:121-138 | A set closed under arcs that holds start but not end: end is unreachable. |
| Paths.FewestHopsIsDistinct | MatrixGraph_Ilano.cpp:175-183 | A fewest-arc path repeats no vertex. |
| Paths.LightestIsDistinct | MatrixGraph_Ilano.cpp:232-240 | With no negative weight, a lightest path repeats no vertex. |
| Paths.CutLoopLighter | MatrixGraph_Ilano.cpp:232-240 | With no negative weight, cutting a loop out of a path makes it strictly lighter. |
| MinHeaps.MinHeap.constructor | minmaxheap_ilano.hpp:25-29 | An empty heap of capacity 999. |
| MinHeaps.MinHeap.WithCapacity | minmaxheap_ilano.hpp:31-35 | An empty heap of the given capacity. |
| MinHeaps.MinHeap.Enqueue | minmaxheap_ilano.hpp:41-49 | Fails with HeapFull exactly when the heap is full, and then nothing changes. Otherwise the entry is added and the heap property holds. |
| MinHeaps.MinHeap.Dequeue | minmaxheap_ilano.hpp:51-59 | Fails with HeapEmpty exactly when the heap is empty. Otherwise exactly one copy of the old root is removed and the heap property holds. |
| MinHeaps.MinHeap.Peek | minmaxheap_ilano.hpp:61-63 | An entry of the heap no heavier than any entry. |
| MinHeaps.MinHeap.GetSize | minmaxheap_ilano.hpp:65-67 | The number of entries, between 0 and the capacity. |
| MinHeaps.MinHeap.GetCapacity | minmaxheap_ilano.hpp:69-71 | The length of the store, at least the size. |
| MinHeaps.MinHeap.IsEmpty | minmaxheap_ilano.hpp:73-78 | True exactly when the heap holds no entry. |
| MinHeaps.MinHeap.MinHeapify | minmaxheap_ilano.hpp:80-95 | Sift-down only permutes the live slots and leaves the rest alone. Started where only slot i may be out of order, it restores the heap property. |
| MinHeaps.MinHeap.BuildMinHeap | minmaxheap_ilano.hpp:97-103 | Makes the live slots a heap, a permutation of what they held. |
| MinHeaps.RootIsMin | minmaxheap_ilano.hpp:61-63 | In a heap the root is no heavier than any entry. |
| MinHeaps.MoveLastToRoot | minmaxheap_ilano.hpp:56-57 | Moving the last entry to the root and dropping the last slot removes exactly one copy of the root. |
| Queues.Queue.constructor | Queue_Ilano.hpp:43-46 | An empty queue with counter 0. |
| Queues.Queue.Enqueue | Queue_Ilano.hpp:52-64 | The item goes after the last one, and the counter grows by one. |
| Queues.Queue.Dequeue | Queue_Ilano.hpp:66-73 | The head is removed and the counter drops by one. An empty queue is left as it is. |
| Queues.Queue.Front | Queue_Ilano.hpp:75-82 | The oldest item, or `QueueEmpty` exactly when the queue is empty. |
| Queues.Queue.Size | Queue_Ilano.hpp:84-86 | The number of items. |
| Queues.Queue.Empty | Queue_Ilano.hpp:88-95 | The queue holds no item and the counter is 0. |
| Queues.Queue.IsEmpty | Queue_Ilano.hpp:97-99 | True exactly when there is no item. |
| Queues.DrainInOrder | Queue_Ilano.hpp:52-82 | First in, first out: items come back out in the order they went in. |

## Left out

- Edge weights are `float` in the library and integers in the model. Rounding in distance sums is not modelled.
- GetDijkstraPath, GetDijkstraAll: no matrix cell may be negative. With a negative cell the library's answer is not guaranteed to be a lightest path, and worse, a negative arc back into the start can give the start a parent. The path reconstruction (MatrixGraph_Ilano.cpp:238-241) then walks the parent table in a cycle and never ends. For example, an undirected two-vertex graph with `addEdge(1, 2, -1)` loops forever in `getDijkstraPath(1, 2)`. The model's `TracePath` terminates because the rank falls strictly at every step back: `ParentTree` demands a positive `StepCost` on every parent arc, and with weighted costs that holds only because no cell is negative (`NonNegative`).
- MatrixGraphs.MatrixGraph.constructor requires `vertices >= 0`. In the library, `new float*[vertices]` (MatrixGraph_Ilano.cpp:15) throws on a negative count.
- Out-of-range vertex numbers are preconditions of every graph operation. The library indexes outside the matrix there.
- MinHeaps.MinHeap.Peek requires a non-empty heap. On an empty heap the library returns whatever slot 0 holds.
- MinHeaps.MinHeap.WithCapacity requires a non-negative size. A negative size throws from the allocation.
- Queues.Queue: the singly linked chain of `QNode`s is modelled as a sequence of items. Walking the chain to its tail on each enqueue, node allocation and deletion, and aliasing of nodes are not modelled.
- MinHeaps.MinHeap.MinHeapify, MinHeaps.MinHeap.BuildMinHeap: these are instance methods over the heap's own array in the library. They are static methods over an array here, because neither touches any other field.
- The search loops of PathExists, GetBFSPath and GetDijkstraPath are split into helper methods, one per loop, round or column. The order of operations is the library's.
- The destructors and the memory they free are left out.
- `toString` and `printRaw` are left out; they only format and print the matrix.
- The test driver and the header file are left out; they declare or exercise the core without adding behaviour.
