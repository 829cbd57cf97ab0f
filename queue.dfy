/**
 * The FIFO queue used by breadth-first search (Queue_Ilano.hpp).
 * The singly linked chain of nodes is represented by the sequence of the items it holds,
 * head first; `count` is the item counter kept beside the chain.
 */
module Queues {
  import opened Errors

  class Queue<T> {
    /** The items of the linked chain, oldest first. */
    var items: seq<T>
    /** The item counter kept next to the chain. */
    var count: int

    /** The counter always equals the number of linked items. */
    ghost predicate Valid()
      reads this
    {
      count == |items|
    }

    /** A new queue holds no items. */
    constructor ()
      ensures Valid() && items == [] && count == 0
    {
      items := [];
      count := 0;
    }

    /** Links `item` after the last node. */
    method Enqueue(item: T)
      requires Valid()
      modifies this
      ensures Valid()
      ensures items == old(items) + [item] && count == old(count) + 1
    {
      items := items + [item];
      count := count + 1;
    }

    /** Unlinks the head node; on an empty queue nothing happens. */
    method Dequeue()
      requires Valid()
      modifies this
      ensures Valid()
      ensures old(items) == [] ==> items == [] && count == 0
      ensures old(items) != [] ==> items == old(items)[1..] && count == old(count) - 1
    {
      if items != [] {
        items := items[1..];
        count := count - 1;
      }
    }

    /** The oldest item; an empty queue throws "Queue is empty". */
    method Front() returns (r: Result<T>)
      requires Valid()
      ensures r.Failure? <==> items == []
      ensures r.Failure? ==> r.error == QueueEmpty
      ensures r.Success? ==> r.value == items[0] && r.value in items
    {
      if items != [] {
        r := Success(items[0]);
      } else {
        r := Failure(QueueEmpty);
      }
    }

    /** The number of items, read from the counter. */
    function Size(): (r: int)
      reads this
      requires Valid()
      ensures r == |items| && r >= 0
    {
      count
    }

    /** Unlinks every node, one at a time from the head, and resets the counter. */
    method Empty()
      requires Valid()
      modifies this
      ensures Valid() && items == [] && count == 0
    {
      while items != []
        decreases |items|
      {
        items := items[1..];
      }
      count := 0;
    }

    /** True exactly when the queue holds no item. */
    function IsEmpty(): (r: bool)
      reads this
      requires Valid()
      ensures r <==> items == []
      ensures r <==> Size() == 0
    {
      count == 0
    }
  }

  /**
   * First in, first out: enqueuing `xs` into a new queue and then taking the front and
   * dequeuing until the queue is empty yields the items in the order they went in.
   */
  method DrainInOrder<T>(xs: seq<T>) returns (out: seq<T>)
    ensures out == xs
  {
    var q := new Queue<T>();
    var i := 0;
    while i < |xs|
      invariant 0 <= i <= |xs|
      invariant q.Valid() && q.items == xs[..i]
    {
      q.Enqueue(xs[i]);
      i := i + 1;
    }
    out := [];
    while !q.IsEmpty()
      invariant q.Valid() && out + q.items == xs
      decreases |q.items|
    {
      var front := q.Front();
      out := out + [front.value];
      q.Dequeue();
    }
  }
}
