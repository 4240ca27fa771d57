/**
 * The FIFO queue over a resizing circular buffer
 * (fundamentals/queue_resizing_array.rb), in two forms.
 *
 * `QueueResizingArray` follows the code as written. Its buffer is a Ruby
 * array, which grows by itself when a write lands past its end. Three spots
 * depart from the promised circular buffer:
 *  - the wrap-around in `enqueue` assigns a local variable, so `@last` never
 *    wraps;
 *  - `resize` copies items to the same indices instead of compacting them,
 *    which would break FIFO order once `@last` wraps;
 *  - `each` tells an empty queue from a full one by `@first < @last`, so it
 *    yields the `nil` slots of an empty queue.
 *
 * `RingQueue` is the circular buffer the documentation describes: `@last`
 * wraps, `resize` moves the items to the front of the new buffer, and `each`
 * yields `size` items from `@first` on. Its FIFO behaviour is proved.
 */
module QueueResizingArrays {
  import opened Errors
  import opened RubyArrays

  /**
   * `lo.upto(hi - 1) { |i| dst[i] = src[i] }`: the slots `lo...hi` take the
   * source's values, and the array grows to `hi` slots if it was shorter.
   */
  function Copied<T>(dst: seq<Option<T>>, src: seq<Option<T>>, lo: nat, hi: int): (r: seq<Option<T>>)
  {
    if hi <= lo then dst
    else seq(Max(|dst|, hi), k => if lo <= k < hi then RubyGet(src, k) else RubyGet(dst, k))
  }

  /** Copying one more slot extends the copied range by one. */
  lemma CopiedStep<T>(dst: seq<Option<T>>, src: seq<Option<T>>, lo: nat, i: nat)
    requires lo <= i
    ensures RubySet(Copied(dst, src, lo, i), i, RubyGet(src, i)) == Copied(dst, src, lo, i + 1)
  {
    var a := RubySet(Copied(dst, src, lo, i), i, RubyGet(src, i));
    var b := Copied(dst, src, lo, i + 1);
    assert |a| == |b|;
    forall k | 0 <= k < |a|
      ensures a[k] == b[k]
    {
    }
  }

  /** The buffer `resize(new_cap)` builds as written: the live range copied to the same indices. */
  function Resized<T>(previous: seq<Option<T>>, first: nat, last: nat, newCap: nat): seq<Option<T>>
  {
    var empty := seq(newCap, _ => None);
    if first < last then Copied(empty, previous, first, last)
    else Copied(Copied(empty, previous, first, newCap), previous, 0, last)
  }

  /** The copy loops of `resize`, building the new array from the old one. */
  method ResizedBuffer<T>(previous: seq<Option<T>>, f: nat, l: nat, newCap: nat) returns (buffer: seq<Option<T>>)
    ensures buffer == Resized(previous, f, l, newCap)
  {
    var empty := seq(newCap, _ => None);
    buffer := empty;
    if f < l {
      var i := f;
      while i < l
        invariant f <= i <= l && buffer == Copied(empty, previous, f, i)
      {
        CopiedStep(empty, previous, f, i);
        buffer := RubySet(buffer, i, RubyGet(previous, i));
        i := i + 1;
      }
    } else {
      // `@items.size` is the size of the new array here.
      var i := f;
      while i < newCap
        invariant f <= i && (i <= newCap || i == f) && buffer == Copied(empty, previous, f, i)
      {
        CopiedStep(empty, previous, f, i);
        buffer := RubySet(buffer, i, RubyGet(previous, i));
        i := i + 1;
      }
      var upper := buffer;
      i := 0;
      while i < l
        invariant 0 <= i <= l && buffer == Copied(upper, previous, 0, i)
      {
        CopiedStep(upper, previous, 0, i);
        buffer := RubySet(buffer, i, RubyGet(previous, i));
        i := i + 1;
      }
    }
  }

  /** What `each` yields as written. */
  function Traversal<T>(items: seq<Option<T>>, first: nat, last: nat): seq<Option<T>>
  {
    if first < last then seq(last - first, k => RubyGet(items, first + k))
    else seq(Max(|items| - first, 0), k => RubyGet(items, first + k)) + seq(last, k => RubyGet(items, k))
  }

  /** The queue as the code is written. */
  class QueueResizingArray<T> {
    /** `@items`, a Ruby array; `None` is `nil`. */
    var items: seq<Option<T>>
    /** `@first`, the slot of the oldest item. */
    var first: nat
    /** `@last`, the slot the next item goes to. */
    var last: nat
    /** `@size` */
    var size: nat

    /** `capacity`: the length of `@items`. */
    function Capacity(): nat
      reads this
    {
      |items|
    }

    /** `empty?` */
    function IsEmpty(): (b: bool)
      reads this
      ensures b <==> size == 0
    {
      size == 0
    }

    /** `new`: two `nil` slots, both pointers at 0. */
    constructor ()
      ensures items == [None, None] && first == 0 && last == 0 && size == 0
    {
      items := [None, None];
      first := 0;
      last := 0;
      size := 0;
    }

    /**
     * `resize(new_cap)`: ArgumentError when the new capacity is below the
     * size (or negative, which `Array.new` refuses); otherwise a fresh array
     * of `new_cap` slots receives the live range at the same indices.
     */
    method Resize(newCap: int) returns (o: Outcome)
      modifies this
      ensures newCap < old(size) || newCap < 0 ==> o == Fail(ArgumentError) && items == old(items)
      ensures newCap >= old(size) && newCap >= 0 ==> o == Pass && items == Resized(old(items), first, last, newCap)
      ensures first == old(first) && last == old(last) && size == old(size)
    {
      if newCap < size || newCap < 0 {
        return Fail(ArgumentError);
      }
      items := ResizedBuffer(items, first, last, newCap);
      return Pass;
    }

    /**
     * `enqueue(item)`: doubles the capacity when full, stores the item at
     * `@last` and advances `@last`. The wrap-around test assigns a local
     * variable, so `@last` is never reset to 0.
     */
    method Enqueue(item: T)
      modifies this
      ensures var grown := if old(size) == |old(items)| then Resized(old(items), old(first), old(last), 2 * |old(items)|) else old(items);
        items == RubySet(grown, old(last), Some(item))
      ensures first == old(first) && last == old(last) + 1 && size == old(size) + 1
    {
      if Capacity() == size {
        var o := Resize(2 * Capacity());
      }
      items := RubySet(items, last, Some(item));
      last := last + 1;
      size := size + 1;
    }

    /**
     * `dequeue`: QueueEmptyError on an empty queue; otherwise returns
     * `@items[@first]` (which may be `nil`), clears that slot, advances
     * `@first` with wrap-around, and resizes to a quarter of the capacity
     * when the size drops to exactly that quarter.
     */
    method Dequeue() returns (r: Result<Option<T>>)
      modifies this
      ensures old(size) == 0 ==> r == Err(QueueEmptyError) && items == old(items) && first == old(first) && size == 0
      ensures old(size) > 0 ==> r == Ok(RubyGet(old(items), old(first))) && size == old(size) - 1
      ensures old(size) > 0 ==>
        var cleared := RubySet(old(items), old(first), None);
        first == (if old(first) + 1 == |cleared| then 0 else old(first) + 1) &&
        items == (if size != 0 && size == |cleared| / 4 then Resized(cleared, first, old(last), |cleared| / 4) else cleared)
      ensures last == old(last)
    {
      if size == 0 {
        return Err(QueueEmptyError);
      }
      var item := RubyGet(items, first);
      items := RubySet(items, first, None);
      first := first + 1;
      if first == |items| {
        first := 0;
      }
      size := size - 1;
      if size != 0 && size == Capacity() / 4 {
        var o := Resize(Capacity() / 4);
      }
      return Ok(item);
    }

    /** `peek`: QueueEmptyError on an empty queue, otherwise `@items[@first]`. */
    method Peek() returns (r: Result<Option<T>>)
      ensures size == 0 ==> r == Err(QueueEmptyError)
      ensures size > 0 ==> r == Ok(RubyGet(items, first))
    {
      if size == 0 {
        return Err(QueueEmptyError);
      }
      return Ok(RubyGet(items, first));
    }

    /**
     * `each`: the slots `@first...@last` when `@first < @last`, otherwise the
     * slots from `@first` to the end followed by `0...@last`.
     */
    method Each() returns (s: seq<Option<T>>)
      ensures s == Traversal(items, first, last)
    {
      s := [];
      var a, f, l := items, first, last;
      if f < l {
        var i := f;
        while i < l
          invariant f <= i <= l && s == seq(i - f, k => RubyGet(a, f + k))
        {
          s := s + [RubyGet(a, i)];
          i := i + 1;
        }
      } else {
        var i := f;
        while i < |a|
          invariant f <= i && (i <= |a| || i == f)
          invariant s == seq(i - f, k => RubyGet(a, f + k))
        {
          s := s + [RubyGet(a, i)];
          i := i + 1;
        }
        var upper := s;
        i := 0;
        while i < l
          invariant 0 <= i <= l && s == upper + seq(i, k => RubyGet(a, k))
        {
          s := s + [RubyGet(a, i)];
          i := i + 1;
        }
      }
    }
  }

  /**
   * Counterexample to FIFO order as written: after two items have gone
   * through, `@first` wraps to 0 but `@last` does not, so the third item is
   * written to slot 2 (growing the array) and the next dequeue reads the
   * cleared slot 0, returning `nil` instead of the item.
   */
  method LastNeverWraps() returns (r: Result<Option<int>>)
    ensures r == Ok(None)
  {
    var queue := new QueueResizingArray<int>();
    queue.Enqueue(1);
    queue.Enqueue(2);
    var d1 := queue.Dequeue();
    var d2 := queue.Dequeue();
    queue.Enqueue(3);
    assert queue.items == [None, None, Some(3)] && queue.first == 0;
    r := queue.Dequeue();
  }

  /** As written, `each` on a new, empty queue yields its two `nil` slots. */
  method EmptyTraversalYieldsNils() returns (s: seq<Option<int>>)
    ensures s == [None, None]
  {
    var queue := new QueueResizingArray<int>();
    s := queue.Each();
  }

  /** The slot `k` places after `first` in a circular buffer of `n` slots. */
  function Slot(first: nat, k: nat, n: nat): (i: nat)
    requires first < n && k <= n
    ensures i < n
  {
    if first + k < n then first + k else first + k - n
  }

  /**
   * A circular buffer of `|buf|` slots holding `contents`: the `k`-th oldest
   * item sits `k` slots after `first`, wrapping around the end; `last` is
   * the slot `size` places after `first`; the other slots are `nil`.
   */
  ghost predicate Ring<T>(buf: seq<Option<T>>, first: nat, last: nat, size: nat, contents: seq<T>)
  {
    |buf| >= 1 && size == |contents| && size <= |buf| &&
    first < |buf| && last == Slot(first, size, |buf|) &&
    forall k :: 0 <= k < |buf| ==> buf[Slot(first, k, |buf|)] == if k < size then Some(contents[k]) else None
  }

  /** Storing an item at `last` of a buffer with room appends it and advances `last`, wrapping to 0. */
  lemma RingPut<T>(buf: seq<Option<T>>, first: nat, last: nat, size: nat, contents: seq<T>, item: T)
    requires Ring(buf, first, last, size, contents) && size < |buf|
    ensures Ring(buf[last := Some(item)], first, if last + 1 == |buf| then 0 else last + 1, size + 1, contents + [item])
  {
    var n := |buf|;
    assert forall k :: 0 <= k < n && k != size ==> Slot(first, k, n) != Slot(first, size, n);
  }

  /** Clearing the slot at `first` of a non-empty buffer removes the oldest item and advances `first`, wrapping to 0. */
  lemma RingTake<T>(buf: seq<Option<T>>, first: nat, last: nat, size: nat, contents: seq<T>)
    requires Ring(buf, first, last, size, contents) && size > 0
    ensures buf[first] == Some(contents[0])
    ensures Ring(buf[first := None], if first + 1 == |buf| then 0 else first + 1, last, size - 1, contents[1..])
  {
    var n := |buf|;
    var next := if first + 1 == n then 0 else first + 1;
    assert buf[Slot(first, 0, n)] == Some(contents[0]);
    assert forall k :: 0 <= k < n - 1 ==> Slot(next, k, n) == Slot(first, k + 1, n);
    assert Slot(next, n - 1, n) == first;
  }

  /** The circular buffer the documentation describes. */
  class RingQueue<T> {
    /** `@items`, a buffer of fixed length between resizes. */
    var items: array<Option<T>>
    /** `@first`, the slot of the oldest item. */
    var first: nat
    /** `@last`, the slot the next item goes to. */
    var last: nat
    /** `@size` */
    var size: nat
    /** The items in the queue, oldest first. */
    ghost var contents: seq<T>

    /**
     * The queue's invariant: the `k`-th oldest item sits `k` slots after
     * `first`, wrapping around the end of the buffer; `last` is the slot
     * `size` places after `first`; the other slots are `nil`.
     */
    ghost predicate Valid()
      reads this, items
    {
      Ring(items[..], first, last, size, contents)
    }

    /** `capacity`: the length of the buffer. */
    function Capacity(): nat
      reads this
    {
      items.Length
    }

    /** `size`: the number of items in the queue. */
    function Size(): (n: nat)
      reads this, items
      requires Valid()
      ensures n == |contents|
    {
      size
    }

    /** `empty?`: true exactly when the queue holds no item. */
    function IsEmpty(): (b: bool)
      reads this, items
      requires Valid()
      ensures b <==> contents == []
    {
      size == 0
    }

    /** `new`: an empty queue with a buffer of two slots. */
    constructor ()
      ensures Valid() && fresh(items)
      ensures contents == [] && Capacity() == 2
    {
      items := new Option<T>[2](_ => None);
      first := 0;
      last := 0;
      size := 0;
      contents := [];
    }

    /**
     * `resize(new_cap)`: ArgumentError, with nothing changed, when the new
     * capacity is below the size; otherwise the items move, oldest first, to
     * the front of a fresh buffer of `new_cap` slots.
     */
    method Resize(newCap: int) returns (o: Outcome)
      requires Valid() && newCap >= 1
      modifies this
      ensures Valid() && contents == old(contents)
      ensures newCap < old(size) ==> o == Fail(ArgumentError) && items == old(items)
      ensures newCap >= old(size) ==> o == Pass && fresh(items) && Capacity() == newCap && first == 0
    {
      if newCap < size {
        return Fail(ArgumentError);
      }
      var buffer := new Option<T>[newCap](_ => None);
      var k := 0;
      while k < size
        modifies buffer
        invariant 0 <= k <= size
        invariant forall m :: 0 <= m < k ==> buffer[m] == Some(contents[m])
        invariant forall m :: k <= m < newCap ==> buffer[m] == None
      {
        assert items[Slot(first, k, items.Length)] == Some(contents[k]);
        buffer[k] := items[Slot(first, k, items.Length)];
        k := k + 1;
      }
      items := buffer;
      first := 0;
      last := if size == newCap then 0 else size;
      return Pass;
    }

    /**
     * `enqueue(item)`: doubles the buffer when it is full, stores the item
     * at `@last` and advances `@last`, wrapping to 0 at the end.
     */
    method Enqueue(item: T)
      requires Valid()
      modifies this, items
      ensures Valid() && contents == old(contents) + [item]
      ensures items == old(items) || fresh(items)
      ensures Capacity() == if old(size) == old(Capacity()) then 2 * old(Capacity()) else old(Capacity())
    {
      if size == items.Length {
        var o := Resize(2 * items.Length);
      }
      ghost var buf := items[..];
      RingPut(buf, first, last, size, contents, item);
      items[last] := Some(item);
      assert items[..] == buf[last := Some(item)];
      last := if last + 1 == items.Length then 0 else last + 1;
      size := size + 1;
      contents := contents + [item];
      assert Ring(items[..], first, last, size, contents);
    }

    /**
     * `dequeue`: QueueEmptyError on an empty queue; otherwise removes and
     * returns the oldest item, clears its slot, advances `@first` with
     * wrap-around, and shrinks the buffer to a quarter when the size drops
     * to exactly a quarter of it.
     */
    method Dequeue() returns (r: Result<T>)
      requires Valid()
      modifies this, items
      ensures Valid() && (items == old(items) || fresh(items))
      ensures old(contents) == [] ==> r == Err(QueueEmptyError) && contents == [] && Capacity() == old(Capacity())
      ensures old(contents) != [] ==> r == Ok(old(contents)[0]) && contents == old(contents)[1..]
      ensures old(contents) != [] ==> Capacity() == if size != 0 && size == old(Capacity()) / 4 then old(Capacity()) / 4 else old(Capacity())
    {
      if size == 0 {
        return Err(QueueEmptyError);
      }
      var item := Take();
      if size != 0 && size == items.Length / 4 {
        var o := Resize(items.Length / 4);
      }
      return Ok(item);
    }

    /** The first half of `dequeue`: takes the oldest item out of its slot and advances `@first`. */
    method Take() returns (item: T)
      requires Valid() && size > 0
      modifies this, items
      ensures Valid() && items == old(items) && Capacity() == old(Capacity())
      ensures item == old(contents)[0] && contents == old(contents)[1..]
    {
      ghost var buf := items[..];
      RingTake(buf, first, last, size, contents);
      item := items[first].value;
      items[first] := None;
      assert items[..] == buf[first := None];
      first := if first + 1 == items.Length then 0 else first + 1;
      size := size - 1;
      contents := contents[1..];
      assert Ring(items[..], first, last, size, contents);
    }

    /** `peek`: the oldest item, or QueueEmptyError on an empty queue. */
    method Peek() returns (r: Result<T>)
      requires Valid()
      ensures contents == [] ==> r == Err(QueueEmptyError)
      ensures contents != [] ==> r == Ok(contents[0])
    {
      if size == 0 {
        return Err(QueueEmptyError);
      }
      assert items[Slot(first, 0, items.Length)] == Some(contents[0]);
      return Ok(items[first].value);
    }

    /** `each`: `size` items from `@first` on, in FIFO order. */
    method Each() returns (s: seq<T>)
      requires Valid()
      ensures s == contents
    {
      s := [];
      var k := 0;
      while k < size
        invariant 0 <= k <= size && s == contents[..k]
      {
        assert items[Slot(first, k, items.Length)] == Some(contents[k]);
        s := s + [items[Slot(first, k, items.Length)].value];
        k := k + 1;
      }
    }
  }

  /**
   * The run that loses an item as written keeps it in the ring queue: the
   * third item comes out after the first two.
   */
  method RingKeepsOrder() returns (r1: Result<int>, r2: Result<int>, r3: Result<int>, r4: Result<int>)
    ensures r1 == Ok(1) && r2 == Ok(2) && r3 == Ok(3) && r4 == Err(QueueEmptyError)
  {
    var queue := new RingQueue<int>();
    queue.Enqueue(1);
    queue.Enqueue(2);
    r1 := queue.Dequeue();
    r2 := queue.Dequeue();
    queue.Enqueue(3);
    r3 := queue.Dequeue();
    r4 := queue.Dequeue();
  }

  /** `each` on an empty ring queue yields nothing. */
  method RingEmptyTraversal() returns (s: seq<int>)
    ensures s == []
  {
    var queue := new RingQueue<int>();
    s := queue.Each();
  }
}
