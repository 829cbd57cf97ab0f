/**
 * The fixed-capacity binary min-heap of (vertex index, weight) entries that Dijkstra's
 * search uses as its priority queue (minmaxheap_ilano.hpp). Every insertion and removal
 * rebuilds the whole heap bottom-up with sift-down.
 */
module MinHeaps {
  import opened Errors

  /** The capacity of a heap built with the default constructor. */
  const DefaultCapacity := 999

  /** A heap entry: a vertex index and its tentative distance (weights are modelled as integers). */
  datatype Vertex = Vertex(index: int, weight: int)

  /** Index of the parent of slot `k` (for `k > 0`). */
  function Parent(k: int): int
  {
    (k - 1) / 2
  }

  /** Every parent/child pair inside `s[..count)` whose parent index is at least `lo` is ordered by weight. */
  ghost predicate HeapFrom(s: seq<Vertex>, count: int, lo: int)
    requires count <= |s|
  {
    forall k :: 0 < k < count && lo <= Parent(k) ==> s[Parent(k)].weight <= s[k].weight
  }

  /** `s[..count)` is a min-heap: no entry is lighter than its parent. */
  ghost predicate IsHeap(s: seq<Vertex>, count: int)
    requires count <= |s|
  {
    HeapFrom(s, count, 0)
  }

  /**
   * What sift-down at slot `i` needs to finish the heap from `lo` on: every pair below `lo`'s
   * region is ordered except those whose parent is `i`, and the parent of `i`, if it is in the
   * region, is no heavier than the children of `i`.
   */
  ghost predicate SiftReady(s: seq<Vertex>, count: int, lo: int, i: int)
    requires count <= |s|
  {
    && lo <= i
    && (forall k :: 0 < k < count && lo <= Parent(k) && Parent(k) != i ==> s[Parent(k)].weight <= s[k].weight)
    && (0 < i < count && lo <= Parent(i) ==>
          forall c :: 0 < c < count && Parent(c) == i ==> s[Parent(i)].weight <= s[c].weight)
  }

  /** In a heap, the root is no heavier than any entry. */
  lemma {:induction false} RootIsMin(s: seq<Vertex>, count: int, k: int)
    requires 0 <= k < count <= |s|
    requires IsHeap(s, count)
    ensures s[0].weight <= s[k].weight
    decreases k
  {
    if k > 0 {
      RootIsMin(s, count, Parent(k));
    }
  }

  /**
   * Replacing the root by the last entry and dropping the last slot removes exactly one copy
   * of the old root.
   */
  lemma MoveLastToRoot(s: seq<Vertex>, n: int)
    requires 0 < n <= |s|
    ensures multiset(s[0 := s[n - 1]][..n - 1]) == multiset(s[..n]) - multiset{s[0]}
  {
    var t := s[0 := s[n - 1]][..n - 1];
    if n > 1 {
      assert t == [s[n - 1]] + s[1..n - 1];
      assert s[..n] == [s[0]] + s[1..n - 1] + [s[n - 1]];
    }
  }

  class MinHeap {
    /** The backing store; its length is the capacity. */
    const arr: array<Vertex>
    /** The number of entries in use, at the front of `arr`. */
    var count: int
    /** The capacity given at construction, never changed. */
    const capacity: int

    ghost predicate Valid()
      reads this, arr
    {
      && arr.Length == capacity
      && 0 <= count <= capacity
      && IsHeap(arr[..], count)
    }

    /** The entries in the heap, as a multiset. */
    ghost function Contents(): multiset<Vertex>
      reads this, arr
      requires Valid()
    {
      multiset(arr[..count])
    }

    /** A heap of the default capacity, 999. */
    constructor ()
      ensures Valid() && fresh(arr)
      ensures capacity == DefaultCapacity && count == 0 && Contents() == multiset{}
    {
      arr := new Vertex[DefaultCapacity](_ => Vertex(0, 0));
      count := 0;
      capacity := DefaultCapacity;
    }

    /** A heap of the given capacity. */
    constructor WithCapacity(size: int)
      requires size >= 0
      ensures Valid() && fresh(arr)
      ensures capacity == size && count == 0 && Contents() == multiset{}
    {
      arr := new Vertex[size](_ => Vertex(0, 0));
      count := 0;
      capacity := size;
    }

    /**
     * Sift-down: swaps slot `i` with its lighter child until neither child is lighter.
     * It only permutes `a[..count)`, and finishes the heap from `lo` on when started in a
     * state that is `SiftReady`.
     */
    static method MinHeapify(a: array<Vertex>, count: int, i: int, ghost lo: int)
      requires 0 <= i && 0 <= count <= a.Length
      modifies a
      ensures multiset(a[..count]) == old(multiset(a[..count]))
      ensures a[count..] == old(a[count..])
      ensures old(SiftReady(a[..], count, lo, i)) ==> HeapFrom(a[..], count, lo)
      decreases count - i
    {
      var smallest := i;
      var left := 2 * i + 1;
      var right := 2 * i + 2;
      if left < count && a[left].weight < a[smallest].weight {
        smallest := left;
      }
      if right < count && a[right].weight < a[smallest].weight {
        smallest := right;
      }
      if smallest != i {
        ghost var s := a[..];
        ghost var ready := SiftReady(s, count, lo, i);
        a[i], a[smallest] := a[smallest], a[i];
        SwapFacts(s, a[..], count, lo, i, smallest, ready);
        MinHeapify(a, count, smallest, lo);
      } else {
        assert SiftReady(a[..], count, lo, i) ==> HeapFrom(a[..], count, lo);
      }
    }

    /** Applies sift-down to every inner slot, from the last one back to the root. */
    static method BuildMinHeap(a: array<Vertex>, count: int)
      requires 0 <= count <= a.Length
      modifies a
      ensures IsHeap(a[..], count)
      ensures multiset(a[..count]) == old(multiset(a[..count]))
      ensures a[count..] == old(a[count..])
    {
      var i := count / 2 - 1;
      while i >= 0
        invariant -1 <= i <= count / 2 - 1
        invariant HeapFrom(a[..], count, i + 1)
        invariant multiset(a[..count]) == old(multiset(a[..count]))
        invariant a[count..] == old(a[count..])
      {
        MinHeapify(a, count, i, i);
        i := i - 1;
      }
    }

    /** Inserts `(index, weight)`; a full heap throws "Heap is Full" and is left as it was. */
    method Enqueue(index: int, weight: int) returns (o: Outcome)
      requires Valid()
      modifies this, arr
      ensures Valid()
      ensures o.Fail? <==> old(count) == capacity
      ensures o.Fail? ==> o.error == HeapFull && count == old(count) && Contents() == old(Contents())
      ensures o.Pass? ==> count == old(count) + 1 && Contents() == old(Contents()) + multiset{Vertex(index, weight)}
    {
      if count == capacity {
        return Fail(HeapFull);
      }
      arr[count] := Vertex(index, weight);
      count := count + 1;
      BuildMinHeap(arr, count);
      o := Pass;
    }

    /** Removes the root, an entry of least weight; an empty heap throws "Heap is Empty". */
    method Dequeue() returns (o: Outcome)
      requires Valid()
      modifies this, arr
      ensures Valid()
      ensures o.Fail? <==> old(count) == 0
      ensures o.Fail? ==> o.error == HeapEmpty && count == 0 && Contents() == old(Contents())
      ensures o.Pass? ==> count == old(count) - 1 && Contents() == old(Contents()) - multiset{old(Peek())}
    {
      if IsEmpty() {
        return Fail(HeapEmpty);
      }
      ghost var s := arr[..];
      arr[0] := arr[count - 1];
      count := count - 1;
      MoveLastToRoot(s, count + 1);
      assert arr[..count] == s[0 := s[count]][..count];
      BuildMinHeap(arr, count);
      o := Pass;
    }

    /** The root: an entry of the heap whose weight is least among all entries. */
    function Peek(): (r: Vertex)
      reads this, arr
      requires Valid() && count > 0
      ensures r in Contents()
      ensures forall k :: 0 <= k < count ==> r.weight <= arr[k].weight
      ensures forall v :: v in Contents() ==> r.weight <= v.weight
    {
      assert arr[0] == arr[..count][0];
      forall k | 0 <= k < count ensures arr[0].weight <= arr[k].weight {
        RootIsMin(arr[..], count, k);
      }
      forall v | v in Contents() ensures arr[0].weight <= v.weight {
        var k :| 0 <= k < count && arr[..count][k] == v;
      }
      arr[0]
    }

    /** The number of entries. */
    function GetSize(): (r: int)
      reads this, arr
      requires Valid()
      ensures r == |Contents()| && 0 <= r <= capacity
    {
      count
    }

    /** The capacity fixed at construction. */
    function GetCapacity(): (r: int)
      reads this, arr
      requires Valid()
      ensures r == arr.Length && r >= GetSize()
    {
      capacity
    }

    /** True exactly when the heap holds no entry. */
    function IsEmpty(): (r: bool)
      reads this, arr
      requires Valid()
      ensures r <==> Contents() == multiset{}
    {
      count == 0
    }
  }

  /** A swap of slot `i` with its lighter child `c` permutes `s[..count)` and keeps the heap ready at `c`. */
  lemma SwapFacts(s: seq<Vertex>, t: seq<Vertex>, count: int, lo: int, i: int, c: int, ready: bool)
    requires 0 <= i < c < count <= |s| == |t|
    requires c == 2 * i + 1 || c == 2 * i + 2
    requires s[c].weight < s[i].weight
    requires 2 * i + 1 < count ==> s[c].weight <= s[2 * i + 1].weight
    requires 2 * i + 2 < count ==> s[c].weight <= s[2 * i + 2].weight
    requires t == s[i := s[c]][c := s[i]]
    requires ready == SiftReady(s, count, lo, i)
    ensures multiset(t[..count]) == multiset(s[..count])
    ensures t[count..] == s[count..]
    ensures ready ==> SiftReady(t, count, lo, c)
  {
    assert t[..count] == s[..count][i := s[c]][c := s[i]];
    if ready {
      SwapKeepsReady(s, t, count, lo, i, c);
    }
  }

  /** One sift-down step keeps the heap `SiftReady` at the child that was swapped up. */
  lemma SwapKeepsReady(s: seq<Vertex>, t: seq<Vertex>, count: int, lo: int, i: int, c: int)
    requires 0 <= i < c < count <= |s| == |t|
    requires Parent(c) == i
    requires SiftReady(s, count, lo, i)
    requires s[c].weight < s[i].weight
    requires 2 * i + 1 < count ==> s[c].weight <= s[2 * i + 1].weight
    requires 2 * i + 2 < count ==> s[c].weight <= s[2 * i + 2].weight
    requires t == s[i := s[c]][c := s[i]]
    ensures SiftReady(t, count, lo, c)
  {
    forall k | 0 < k < count && lo <= Parent(k) && Parent(k) != c
      ensures t[Parent(k)].weight <= t[k].weight
    {
      if Parent(k) == i {
      } else if k == i {
      } else {
        assert k != c;
      }
    }
  }
}
