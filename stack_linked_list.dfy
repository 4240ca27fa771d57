/**
 * A LIFO stack over a singly-linked chain of nodes
 * (fundamentals/stack_linked_list.rb): `push` links a new node in front of
 * `@first`, `pop` unlinks it again.
 */
module StackLinkedLists {
  import opened Errors

  /** `StackNode`: an item and the node below it. */
  class Node<T> {
    var item: T
    var next: Node?<T>

    constructor (item: T, next: Node?<T>)
      ensures this.item == item && this.next == next
    {
      this.item := item;
      this.next := next;
    }
  }

  class StackLinkedList<T> {
    /** `@first`, the top node, or `nil`. */
    var first: Node?<T>
    /** `@size` */
    var size: nat
    /** The items on the stack, from the top down. */
    ghost var contents: seq<T>
    /** The nodes of the chain, from `@first` on. */
    ghost var nodes: seq<Node<T>>

    /**
     * The stack's invariant: following `next` from `first` visits `nodes`
     * in order and reaches `nil` after `size` nodes, and the `k`-th node
     * holds the `k`-th item from the top.
     */
    ghost predicate Valid()
      reads this, nodes
    {
      |nodes| == size && |contents| == size &&
      first == (if size == 0 then null else nodes[0]) &&
      (forall k :: 0 <= k < size ==> nodes[k].item == contents[k]) &&
      (forall k :: 0 <= k < size - 1 ==> nodes[k].next == nodes[k + 1]) &&
      (size > 0 ==> nodes[size - 1].next == null)
    }

    /** `size`: the number of items on the stack. */
    function Size(): (n: nat)
      reads this, nodes
      requires Valid()
      ensures n == |contents|
    {
      size
    }

    /** `empty?`: true exactly when the stack holds no item. */
    function IsEmpty(): (b: bool)
      reads this, nodes
      requires Valid()
      ensures b <==> contents == []
    {
      size == 0
    }

    /** `new`: an empty stack. */
    constructor ()
      ensures Valid() && contents == []
    {
      first := null;
      size := 0;
      contents := [];
      nodes := [];
    }

    /** `push(item)`: a new node holding the item becomes the top. */
    method Push(item: T)
      requires Valid()
      modifies this
      ensures Valid() && contents == [item] + old(contents)
    {
      first := new Node(item, first);
      size := size + 1;
      contents := [item] + contents;
      nodes := [first] + nodes;
    }

    /**
     * `pop`: StackEmptyError on an empty stack; otherwise returns the top
     * item and makes the node below it the top.
     */
    method Pop() returns (r: Result<T>)
      requires Valid()
      modifies this
      ensures Valid()
      ensures old(contents) == [] ==> r == Err(StackEmptyError) && contents == []
      ensures old(contents) != [] ==> r == Ok(old(contents)[0]) && contents == old(contents)[1..]
    {
      if size == 0 {
        return Err(StackEmptyError);
      }
      var item := first.item;
      first := first.next;
      size := size - 1;
      contents := contents[1..];
      nodes := nodes[1..];
      return Ok(item);
    }

    /** `peek`: the top item, or StackEmptyError on an empty stack. */
    method Peek() returns (r: Result<T>)
      requires Valid()
      ensures contents == [] ==> r == Err(StackEmptyError)
      ensures contents != [] ==> r == Ok(contents[0])
    {
      if size == 0 {
        return Err(StackEmptyError);
      }
      return Ok(first.item);
    }

    /** `each`: walks `size` nodes from the top, yielding the items in LIFO order. */
    method Each() returns (s: seq<T>)
      requires Valid()
      ensures s == contents
    {
      s := [];
      var current := first;
      var i := 0;
      while i < size
        invariant 0 <= i <= size
        invariant s == contents[..i]
        invariant current == (if i < size then nodes[i] else null)
      {
        s := s + [current.item];
        current := current.next;
        i := i + 1;
      }
    }
  }

  /**
   * A client: pushes 1, 2, 3, sees them top first, pops them back in
   * reverse order, and then meets StackEmptyError.
   */
  method LastInFirstOut() returns (order: seq<int>, p1: Result<int>, p2: Result<int>, p3: Result<int>, p4: Result<int>)
    ensures order == [3, 2, 1]
    ensures p1 == Ok(3) && p2 == Ok(2) && p3 == Ok(1) && p4 == Err(StackEmptyError)
  {
    var stack := new StackLinkedList<int>();
    stack.Push(1);
    stack.Push(2);
    stack.Push(3);
    order := stack.Each();
    p1 := stack.Pop();
    p2 := stack.Pop();
    p3 := stack.Pop();
    p4 := stack.Pop();
  }
}
