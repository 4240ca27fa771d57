/**
 * A bag over a resizing buffer (fundamentals/bag_resizing_array.rb): `add`
 * stores the item in the next free slot, doubling the buffer when it is
 * full; `each` yields the items in the order they were added.
 */
module BagResizingArrays {
  import opened Errors

  class BagResizingArray<T> {
    /** The buffer `@items`; `None` stands for a `nil` slot. */
    var items: array<Option<T>>
    /** `@size`, the number of items in the bag. */
    var size: nat
    /** The items in the bag, in the order they were added. */
    ghost var contents: seq<T>

    /**
     * The bag's invariant: the first `size` slots hold the items, every
     * other slot is `nil`, and the buffer is never empty.
     */
    ghost predicate Valid()
      reads this, items
    {
      size == |contents| && size <= items.Length && items.Length >= 1 &&
      (forall k :: 0 <= k < size ==> items[k] == Some(contents[k])) &&
      (forall k :: size <= k < items.Length ==> items[k] == None)
    }

    /** `capacity`: the length of the buffer. */
    function Capacity(): nat
      reads this
    {
      items.Length
    }

    /** `size`: the number of items in the bag. */
    function Size(): (n: nat)
      reads this, items
      requires Valid()
      ensures n == |contents|
    {
      size
    }

    /** `empty?`: true exactly when the bag holds no item. */
    function IsEmpty(): (b: bool)
      reads this, items
      requires Valid()
      ensures b <==> contents == []
    {
      size == 0
    }

    /** `new`: an empty bag with a buffer of two slots. */
    constructor ()
      ensures Valid() && fresh(items)
      ensures contents == [] && Capacity() == 2
    {
      items := new Option<T>[2](_ => None);
      size := 0;
      contents := [];
    }

    /**
     * `resize(new_cap)`: ArgumentError, with nothing changed, unless the new
     * capacity exceeds the size; otherwise the items move to a fresh buffer
     * of `new_cap` slots at the same positions.
     */
    method Resize(newCap: int) returns (o: Outcome)
      requires Valid()
      modifies this
      ensures Valid() && contents == old(contents)
      ensures newCap <= old(size) ==> o == Fail(ArgumentError) && items == old(items)
      ensures newCap > old(size) ==> o == Pass && fresh(items) && Capacity() == newCap
    {
      if newCap <= size {
        return Fail(ArgumentError);
      }
      var buffer := new Option<T>[newCap](_ => None);
      var i := 0;
      while i < size
        modifies buffer
        invariant 0 <= i <= size
        invariant forall k :: 0 <= k < i ==> buffer[k] == items[k]
        invariant forall k :: i <= k < newCap ==> buffer[k] == None
      {
        buffer[i] := items[i];
        i := i + 1;
      }
      items := buffer;
      return Pass;
    }

    /**
     * `add(item)`: doubles the buffer when it is full, then stores the item
     * in the first free slot. Adding an item already in the bag adds it again.
     */
    method Add(item: T)
      requires Valid()
      modifies this, items
      ensures Valid() && contents == old(contents) + [item]
      ensures multiset(contents) == multiset(old(contents)) + multiset{item}
      ensures items == old(items) || fresh(items)
      ensures Capacity() == if old(size) == old(Capacity()) then 2 * old(Capacity()) else old(Capacity())
    {
      if size == Capacity() {
        var o := Resize(2 * Capacity());
      }
      items[size] := Some(item);
      size := size + 1;
      contents := contents + [item];
    }

    /** `each`: every item in the bag, once per time it was added, oldest first. */
    method Each() returns (s: seq<T>)
      requires Valid()
      ensures s == contents
    {
      s := [];
      var i := 0;
      while i < size
        invariant 0 <= i <= size
        invariant s == contents[..i]
      {
        s := s + [items[i].value];
        i := i + 1;
      }
    }
  }

  /**
   * A client: three additions, one of them a duplicate, are all yielded
   * back, and the buffer has doubled once.
   */
  method AddThree() returns (all: seq<int>, capacity: nat)
    ensures all == [1, 2, 2] && multiset(all) == multiset{1, 2, 2}
    ensures capacity == 4
  {
    var bag := new BagResizingArray<int>();
    bag.Add(1);
    bag.Add(2);
    bag.Add(2);
    all := bag.Each();
    capacity := bag.Capacity();
  }
}
