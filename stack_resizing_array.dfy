/**
 * A LIFO stack over a resizing buffer (fundamentals/stack_resizing_array.rb).
 * The buffer doubles when a push finds it full and halves when a pop leaves
 * it at most a quarter full; vacated slots are set back to `nil`.
 */
module StackResizingArrays {
  import opened Errors

  class StackResizingArray<T> {
    /** The buffer `@items`; `None` stands for a `nil` slot. */
    var items: array<Option<T>>
    /** `@size`, the number of items on the stack. */
    var size: nat
    /** The items on the stack, from the bottom to the top. */
    ghost var contents: seq<T>

    /**
     * The stack's invariant: the first `size` slots hold the items bottom
     * first, every other slot is `nil`, and the buffer is never empty.
     */
    ghost predicate Valid()
      reads this, items
    {
      size == |contents| && size <= items.Length && items.Length >= 1 &&
      (forall k :: 0 <= k < size ==> items[k] == Some(contents[k])) &&
      (forall k :: size <= k < items.Length ==> items[k] == None)
    }

    /** `capacity`: the length of the buffer. */
    function Capacity(): nat
      reads this
    {
      items.Length
    }

    /** `size`: the number of items on the stack. */
    function Size(): (n: nat)
      reads this, items
      requires Valid()
      ensures n == |contents|
    {
      size
    }

    /** `empty?`: true exactly when the stack holds no item. */
    function IsEmpty(): (b: bool)
      reads this, items
      requires Valid()
      ensures b <==> contents == []
    {
      size == 0
    }

    /** `new`: an empty stack with a buffer of two slots. */
    constructor ()
      ensures Valid() && fresh(items)
      ensures contents == [] && Capacity() == 2
    {
      items := new Option<T>[2](_ => None);
      size := 0;
      contents := [];
    }

    /**
     * `resize(new_cap)`: ArgumentError, with nothing changed, when the new
     * capacity is below the size; otherwise the items move to a fresh buffer
     * of `new_cap` slots at the same positions.
     */
    method Resize(newCap: int) returns (o: Outcome)
      requires Valid() && newCap >= 1
      modifies this
      ensures Valid() && contents == old(contents)
      ensures newCap < old(size) ==> o == Fail(ArgumentError) && items == old(items)
      ensures newCap >= old(size) ==> o == Pass && fresh(items) && Capacity() == newCap
    {
      if newCap < size {
        return Fail(ArgumentError);
      }
      var buffer := new Option<T>[newCap](_ => None);
      var i := 0;
      while i < size
        modifies buffer
        invariant 0 <= i <= size
        invariant forall k :: 0 <= k < i ==> buffer[k] == items[k]
        invariant forall k :: i <= k < newCap ==> buffer[k] == None
      {
        buffer[i] := items[i];
        i := i + 1;
      }
      items := buffer;
      return Pass;
    }

    /**
     * `push(item)`: doubles the buffer when it is full, then stores the item
     * on top.
     */
    method Push(item: T)
      requires Valid()
      modifies this, items
      ensures Valid() && contents == old(contents) + [item]
      ensures items == old(items) || fresh(items)
      ensures Capacity() == if old(size) == old(Capacity()) then 2 * old(Capacity()) else old(Capacity())
    {
      if size == Capacity() {
        var o := Resize(2 * Capacity());
      }
      items[size] := Some(item);
      size := size + 1;
      contents := contents + [item];
    }

    /**
     * `pop`: StackEmptyError on an empty stack; otherwise removes and returns
     * the top item, clears its slot, and halves the buffer when the stack is
     * left non-empty and at most a quarter full.
     */
    method Pop() returns (r: Result<T>)
      requires Valid()
      modifies this, items
      ensures Valid() && (items == old(items) || fresh(items))
      ensures old(contents) == [] ==> r == Err(StackEmptyError) && contents == [] && Capacity() == old(Capacity())
      ensures old(contents) != [] ==> r == Ok(old(contents)[|old(contents)| - 1])
      ensures old(contents) != [] ==> contents == old(contents)[..|old(contents)| - 1]
      ensures old(contents) != [] ==> Capacity() == if size != 0 && old(Capacity()) / 4 >= size then old(Capacity()) / 2 else old(Capacity())
    {
      if size == 0 {
        return Err(StackEmptyError);
      }
      var item := items[size - 1];
      items[size - 1] := None;
      size := size - 1;
      contents := contents[..size];
      if size != 0 && Capacity() / 4 >= size {
        var o := Resize(Capacity() / 2);
      }
      return Ok(item.value);
    }

    /** `peek`: the top item, or StackEmptyError on an empty stack. */
    method Peek() returns (r: Result<T>)
      requires Valid()
      ensures contents == [] ==> r == Err(StackEmptyError)
      ensures contents != [] ==> r == Ok(contents[|contents| - 1])
    {
      if size == 0 {
        return Err(StackEmptyError);
      }
      return Ok(items[size - 1].value);
    }

    /** `each`: the items from the top of the stack down, in LIFO order. */
    method Each() returns (s: seq<T>)
      requires Valid()
      ensures |s| == |contents|
      ensures forall i :: 0 <= i < |s| ==> s[i] == contents[|contents| - 1 - i]
    {
      s := [];
      var i := 0;
      while i < size
        invariant 0 <= i <= size && |s| == i
        invariant forall m :: 0 <= m < i ==> s[m] == contents[size - 1 - m]
      {
        s := s + [items[size - i - 1].value];
        i := i + 1;
      }
    }
  }

  /**
   * A client: pushes 1, 2, 3, sees them top first, pops them back in
   * reverse order, and then meets StackEmptyError.
   */
  method LastInFirstOut() returns (order: seq<int>, p1: Result<int>, p2: Result<int>, p3: Result<int>, p4: Result<int>)
    ensures order == [3, 2, 1]
    ensures p1 == Ok(3) && p2 == Ok(2) && p3 == Ok(1) && p4 == Err(StackEmptyError)
  {
    var stack := new StackResizingArray<int>();
    stack.Push(1);
    stack.Push(2);
    stack.Push(3);
    assert stack.contents == [1, 2, 3];
    order := stack.Each();
    assert order == [order[0], order[1], order[2]];
    p1 := stack.Pop();
    assert stack.contents == [1, 2];
    p2 := stack.Pop();
    assert stack.contents == [1];
    p3 := stack.Pop();
    assert stack.contents == [];
    p4 := stack.Pop();
  }
}
