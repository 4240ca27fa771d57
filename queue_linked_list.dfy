/**
 * A FIFO queue over a singly-linked chain of nodes
 * (fundamentals/queue_linked_list.rb): `enqueue` links a new node after
 * `@last`, `dequeue` unlinks `@first`.
 */
module QueueLinkedLists {
  import opened Errors

  /** `QueueNode`: an item and the node enqueued after it. */
  class Node<T> {
    var item: T
    var next: Node?<T>

    constructor (item: T, next: Node?<T>)
      ensures this.item == item && this.next == next
    {
      this.item := item;
      this.next := next;
    }
  }

  class QueueLinkedList<T> {
    /** `@first`, the oldest node, or `nil`. */
    var first: Node?<T>
    /** `@last`, the newest node, or `nil`. */
    var last: Node?<T>
    /** `@size` */
    var size: nat
    /** The items in the queue, oldest first. */
    ghost var contents: seq<T>
    /** The nodes of the chain, from `@first` to `@last`. */
    ghost var nodes: seq<Node<T>>

    /**
     * The queue's invariant: the chain from `first` visits `nodes` in order,
     * each node once, and ends at `last`, whose `next` is `nil`; the `k`-th
     * node holds the `k`-th oldest item, and both ends are `nil` when the
     * queue is empty.
     */
    ghost predicate Valid()
      reads this, nodes
    {
      |nodes| == size && |contents| == size &&
      first == (if size == 0 then null else nodes[0]) &&
      last == (if size == 0 then null else nodes[size - 1]) &&
      (forall k :: 0 <= k < size ==> nodes[k].item == contents[k]) &&
      (forall k :: 0 <= k < size - 1 ==> nodes[k].next == nodes[k + 1]) &&
      (size > 0 ==> nodes[size - 1].next == null) &&
      (forall i, j :: 0 <= i < j < size ==> nodes[i] != nodes[j])
    }

    /** `size`: the number of items in the queue. */
    function Size(): (n: nat)
      reads this, nodes
      requires Valid()
      ensures n == |contents|
    {
      size
    }

    /** `empty?`: true exactly when the queue holds no item. */
    function IsEmpty(): (b: bool)
      reads this, nodes
      requires Valid()
      ensures b <==> contents == []
    {
      size == 0
    }

    /** `new`: an empty queue. */
    constructor ()
      ensures Valid() && contents == []
    {
      first := null;
      last := null;
      size := 0;
      contents := [];
      nodes := [];
    }

    /**
     * `enqueue(item)`: a new node holding the item becomes `@last`; it is
     * linked after the old last node, or becomes `@first` as well when the
     * queue was empty.
     */
    method Enqueue(item: T)
      requires Valid()
      modifies this, last
      ensures Valid() && contents == old(contents) + [item]
      ensures fresh(last)
    {
      var oldLast := last;
      last := new Node(item, null);
      if size == 0 {
        first := last;
      } else {
        oldLast.next := last;
      }
      size := size + 1;
      contents := contents + [item];
      nodes := nodes + [last];
    }

    /**
     * `dequeue`: QueueEmptyError on an empty queue; otherwise returns the
     * oldest item and unlinks its node, setting `@last` to `nil` when the
     * queue becomes empty.
     */
    method Dequeue() returns (r: Result<T>)
      requires Valid()
      modifies this
      ensures Valid() && (last == null || last == old(last))
      ensures old(contents) == [] ==> r == Err(QueueEmptyError) && contents == []
      ensures old(contents) != [] ==> r == Ok(old(contents)[0]) && contents == old(contents)[1..]
    {
      if size == 0 {
        return Err(QueueEmptyError);
      }
      var item := first.item;
      first := first.next;
      size := size - 1;
      if size == 0 {
        last := null;
      }
      contents := contents[1..];
      nodes := nodes[1..];
      return Ok(item);
    }

    /** `peek`: the oldest item, or QueueEmptyError on an empty queue. */
    method Peek() returns (r: Result<T>)
      requires Valid()
      ensures contents == [] ==> r == Err(QueueEmptyError)
      ensures contents != [] ==> r == Ok(contents[0])
    {
      if size == 0 {
        return Err(QueueEmptyError);
      }
      return Ok(first.item);
    }

    /** `each`: walks `size` nodes from `@first`, yielding the items in FIFO order. */
    method Each() returns (s: seq<T>)
      requires Valid()
      ensures s == contents
    {
      s := [];
      var current := first;
      var i := 0;
      while i < size
        invariant 0 <= i <= size
        invariant s == contents[..i]
        invariant current == (if i < size then nodes[i] else null)
      {
        s := s + [current.item];
        current := current.next;
        i := i + 1;
      }
    }
  }

  /**
   * A client: enqueues 1 and 2, dequeues 1, enqueues 3, and then sees and
   * dequeues 2 and 3 in that order before QueueEmptyError.
   */
  method FirstInFirstOut() returns (order: seq<int>, d1: Result<int>, d2: Result<int>, d3: Result<int>, d4: Result<int>)
    ensures order == [2, 3]
    ensures d1 == Ok(1) && d2 == Ok(2) && d3 == Ok(3) && d4 == Err(QueueEmptyError)
  {
    var queue := new QueueLinkedList<int>();
    queue.Enqueue(1);
    queue.Enqueue(2);
    d1 := queue.Dequeue();
    queue.Enqueue(3);
    order := queue.Each();
    d2 := queue.Dequeue();
    d3 := queue.Dequeue();
    d4 := queue.Dequeue();
  }
}
