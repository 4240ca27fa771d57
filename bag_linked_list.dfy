/**
 * A bag over a singly-linked chain of nodes (fundamentals/bag_linked_list.rb):
 * `add` links a new node in front of `@first`, so `each` yields the most
 * recently added item first.
 */
module BagLinkedLists {

  /** `BagNode`: an item and the node added before it. */
  class Node<T> {
    var item: T
    var next: Node?<T>

    constructor (item: T, next: Node?<T>)
      ensures this.item == item && this.next == next
    {
      this.item := item;
      this.next := next;
    }
  }

  class BagLinkedList<T> {
    /** `@first`, the most recently added node, or `nil`. */
    var first: Node?<T>
    /** `@size` */
    var size: nat
    /** The items in the bag, most recently added first. */
    ghost var contents: seq<T>
    /** The nodes of the chain, from `@first` on. */
    ghost var nodes: seq<Node<T>>

    /**
     * The bag's invariant: following `next` from `first` visits `nodes` in
     * order and reaches `nil` after `size` nodes, and the `k`-th node holds
     * the `k`-th item.
     */
    ghost predicate Valid()
      reads this, nodes
    {
      |nodes| == size && |contents| == size &&
      first == (if size == 0 then null else nodes[0]) &&
      (forall k :: 0 <= k < size ==> nodes[k].item == contents[k]) &&
      (forall k :: 0 <= k < size - 1 ==> nodes[k].next == nodes[k + 1]) &&
      (size > 0 ==> nodes[size - 1].next == null)
    }

    /** `size`: the number of items in the bag. */
    function Size(): (n: nat)
      reads this, nodes
      requires Valid()
      ensures n == |contents|
    {
      size
    }

    /** `empty?`: true exactly when the bag holds no item. */
    function IsEmpty(): (b: bool)
      reads this, nodes
      requires Valid()
      ensures b <==> contents == []
    {
      size == 0
    }

    /** `new`: an empty bag. */
    constructor ()
      ensures Valid() && contents == []
    {
      first := null;
      size := 0;
      contents := [];
      nodes := [];
    }

    /** `add(item)`: a new node holding the item goes in front; duplicates are kept. */
    method Add(item: T)
      requires Valid()
      modifies this
      ensures Valid() && contents == [item] + old(contents)
      ensures multiset(contents) == multiset(old(contents)) + multiset{item}
    {
      first := new Node(item, first);
      size := size + 1;
      contents := [item] + contents;
      nodes := [first] + nodes;
    }

    /** `each`: walks `size` nodes from `@first`, yielding every item, most recent first. */
    method Each() returns (s: seq<T>)
      requires Valid()
      ensures s == contents
    {
      s := [];
      var current := first;
      var i := 0;
      while i < size
        invariant 0 <= i <= size
        invariant s == contents[..i]
        invariant current == (if i < size then nodes[i] else null)
      {
        s := s + [current.item];
        current := current.next;
        i := i + 1;
      }
    }
  }

  /**
   * A client: three additions, one of them a duplicate, are all yielded
   * back, the last one first.
   */
  method AddThree() returns (all: seq<int>)
    ensures all == [2, 2, 1] && multiset(all) == multiset{1, 2, 2}
  {
    var bag := new BagLinkedList<int>();
    bag.Add(1);
    bag.Add(2);
    bag.Add(2);
    all := bag.Each();
  }
}
