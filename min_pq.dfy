/**
 * A priority queue of keys on a binary heap (sorting/min_pq.rb). Slot 0 of
 * the heap array `@pq` is unused; the keys sit in slots `1..size`, and the
 * key in slot `k / 2` is never greater than the key in slot `k`.
 */
module MinPQs {
  import opened Errors
  import opened RubyArrays
  import opened SortOrder

  /** Slots `1..n` of the heap array hold keys. */
  predicate Filled<K>(pq: seq<Option<K>>, n: int)
  {
    0 <= n < |pq| && forall k :: 1 <= k <= n ==> pq[k].Some?
  }

  /** The keys in slots `1..n`, in slot order. */
  function Values<K>(pq: seq<Option<K>>, n: int): (v: seq<K>)
    requires Filled(pq, n)
    ensures |v| == n && forall i :: 0 <= i < n ==> pq[i + 1] == Some(v[i])
  {
    seq(n, i requires 0 <= i < n => pq[i + 1].value)
  }

  /** Heap order: no key is greater than a key below it. */
  predicate HeapOrdered<K>(greater: (K, K) -> bool, pq: seq<Option<K>>, n: int)
    requires Filled(pq, n)
  {
    forall c :: 2 <= c <= n ==> !greater(pq[c / 2].value, pq[c].value)
  }

  /**
   * What `swim` works with: heap order except on the link from `k` to its
   * parent, and the parent of `k` is not greater than the children of `k`.
   */
  predicate SwimInv<K>(greater: (K, K) -> bool, pq: seq<Option<K>>, n: int, k: int)
    requires Filled(pq, n)
  {
    1 <= k <= n &&
    (forall c :: 2 <= c <= n && c != k ==> !greater(pq[c / 2].value, pq[c].value)) &&
    (k > 1 ==> forall c :: 2 <= c <= n && c / 2 == k ==> !greater(pq[k / 2].value, pq[c].value))
  }

  /**
   * What `sink` works with, in the subtree of `lo`: heap order on every link
   * whose parent is `lo` or below it, except the links from `k` to its
   * children; below `lo`, the parent of `k` is not greater than the children
   * of `k`.
   */
  predicate SinkInv<K>(greater: (K, K) -> bool, pq: seq<Option<K>>, n: int, lo: int, k: int)
    requires Filled(pq, n)
  {
    1 <= lo <= k &&
    (forall c :: 2 <= c <= n && lo <= c / 2 && c / 2 != k ==> !greater(pq[c / 2].value, pq[c].value)) &&
    (lo <= k / 2 ==> forall c :: 2 <= c <= n && c / 2 == k ==> !greater(pq[k / 2].value, pq[c].value))
  }

  /** Heap order on every link whose parent is `lo` or below it. */
  predicate HeapBelow<K>(greater: (K, K) -> bool, pq: seq<Option<K>>, n: int, lo: int)
    requires Filled(pq, n)
  {
    forall c :: 2 <= c <= n && lo <= c / 2 ==> !greater(pq[c / 2].value, pq[c].value)
  }

  /** A swap of two filled slots keeps the slots filled and the keys the same. */
  lemma SwapKeepsKeys<K>(pq: seq<Option<K>>, n: int, a: int, b: int)
    requires Filled(pq, n) && 1 <= a <= n && 1 <= b <= n
    ensures Filled(pq[a := pq[b]][b := pq[a]], n)
    ensures multiset(Values(pq[a := pq[b]][b := pq[a]], n)) == multiset(Values(pq, n))
  {
    var t := pq[a := pq[b]][b := pq[a]];
    var v := Values(pq, n);
    assert Values(t, n) == v[a - 1 := v[b - 1]][b - 1 := v[a - 1]];
  }

  /**
   * `t` is `pq` with the keys of slots `1..n` rearranged: same length, same
   * keys in those slots, and every other slot as it was.
   */
  ghost predicate SameSlots<K>(pq: seq<Option<K>>, t: seq<Option<K>>, n: int)
  {
    Filled(pq, n) && Filled(t, n) && |t| == |pq| &&
    multiset(Values(t, n)) == multiset(Values(pq, n)) &&
    forall c :: c == 0 || n < c < |pq| ==> t[c] == pq[c]
  }

  /** One exchange of `swim` moves the gap in heap order up to the parent. */
  lemma SwimStep<K(!new)>(greater: (K, K) -> bool, pq: seq<Option<K>>, n: int, k: int)
    requires StrictWeakOrder(greater) && Filled(pq, n) && SwimInv(greater, pq, n, k)
    requires k > 1 && greater(pq[k / 2].value, pq[k].value)
    ensures Filled(pq[k := pq[k / 2]][k / 2 := pq[k]], n)
    ensures SwimInv(greater, pq[k := pq[k / 2]][k / 2 := pq[k]], n, k / 2)
  {
    var p := k / 2;
    var t := pq[k := pq[p]][p := pq[k]];
    var x, y := pq[k].value, pq[p].value;
    SwapKeepsKeys(pq, n, k, p);
    forall c | 2 <= c <= n && c != p
      ensures !greater(t[c / 2].value, t[c].value)
    {
      if c == k {
        assert t[c / 2].value == x && t[c].value == y;
      } else if c / 2 == k {
        assert t[c / 2].value == y && t[c] == pq[c];
      } else if c / 2 == p {
        assert t[c / 2].value == x && t[c] == pq[c];
        assert !greater(y, pq[c].value);
      }
    }
    if p > 1 {
      forall c | 2 <= c <= n && c / 2 == p
        ensures !greater(t[p / 2].value, t[c].value)
      {
        assert !greater(pq[p / 2].value, y);
        if c != k {
          assert t[c] == pq[c] && !greater(y, pq[c].value);
        }
      }
    }
  }

  /** When `swim` stops, heap order holds everywhere. */
  lemma SwimDone<K>(greater: (K, K) -> bool, pq: seq<Option<K>>, n: int, k: int)
    requires Filled(pq, n) && SwimInv(greater, pq, n, k)
    requires k == 1 || !greater(pq[k / 2].value, pq[k].value)
    ensures HeapOrdered(greater, pq, n)
  {
  }

  /** The child of `k` that `sink` compares with: `2k + 1` when it is smaller than `2k`. */
  function ChildToSink<K>(greater: (K, K) -> bool, pq: seq<Option<K>>, n: int, k: int): int
    requires Filled(pq, n) && 1 <= k && 2 * k <= n
  {
    if 2 * k < n && greater(pq[2 * k].value, pq[2 * k + 1].value) then 2 * k + 1 else 2 * k
  }

  /** The child `sink` picks is not greater than any child of `k`. */
  lemma ChildToSinkIsSmallest<K(!new)>(greater: (K, K) -> bool, pq: seq<Option<K>>, n: int, k: int)
    requires StrictWeakOrder(greater) && Filled(pq, n) && 1 <= k && 2 * k <= n
    ensures var j := ChildToSink(greater, pq, n, k);
      j / 2 == k && j <= n && forall c :: 2 <= c <= n && c / 2 == k ==> !greater(pq[j].value, pq[c].value)
  {
  }

  /** One exchange of `sink` moves the gap in heap order down to the child. */
  lemma SinkStep<K(!new)>(greater: (K, K) -> bool, pq: seq<Option<K>>, n: int, lo: int, k: int)
    requires StrictWeakOrder(greater) && Filled(pq, n) && SinkInv(greater, pq, n, lo, k) && 2 * k <= n
    requires greater(pq[k].value, pq[ChildToSink(greater, pq, n, k)].value)
    ensures var j := ChildToSink(greater, pq, n, k);
      Filled(pq[k := pq[j]][j := pq[k]], n) && SinkInv(greater, pq[k := pq[j]][j := pq[k]], n, lo, j)
  {
    var j := ChildToSink(greater, pq, n, k);
    ChildToSinkIsSmallest(greater, pq, n, k);
    var t := pq[k := pq[j]][j := pq[k]];
    var x, y := pq[k].value, pq[j].value;
    SwapKeepsKeys(pq, n, k, j);
    forall c | 2 <= c <= n && lo <= c / 2 && c / 2 != j
      ensures !greater(t[c / 2].value, t[c].value)
    {
      if c == k {
        assert t[c / 2] == pq[c / 2] && t[c].value == y;
      } else if c == j {
        assert t[c / 2].value == y && t[c].value == x;
      } else if c / 2 == k {
        assert t[c / 2].value == y && t[c] == pq[c];
      }
    }
    forall c | 2 <= c <= n && c / 2 == j
      ensures !greater(t[j / 2].value, t[c].value)
    {
      assert t[j / 2].value == y && t[c] == pq[c];
    }
  }

  /** One exchange of `sink`, seen from the array `sink` started with. */
  lemma SinkSwap<K(!new)>(greater: (K, K) -> bool, pq0: seq<Option<K>>, pq: seq<Option<K>>, n: int, lo: int, k: int)
    requires StrictWeakOrder(greater) && Filled(pq, n) && SinkInv(greater, pq, n, lo, k) && 2 * k <= n
    requires greater(pq[k].value, pq[ChildToSink(greater, pq, n, k)].value)
    requires SameSlots(pq0, pq, n)
    ensures var j := ChildToSink(greater, pq, n, k);
      var t := pq[k := pq[j]][j := pq[k]];
      SinkInv(greater, t, n, lo, j) && SameSlots(pq0, t, n)
  {
    SinkStep(greater, pq, n, lo, k);
    SwapKeepsKeys(pq, n, k, ChildToSink(greater, pq, n, k));
  }

  /** When `sink` stops, heap order holds on every link below `lo`. */
  lemma SinkDone<K(!new)>(greater: (K, K) -> bool, pq: seq<Option<K>>, n: int, lo: int, k: int)
    requires StrictWeakOrder(greater) && Filled(pq, n) && SinkInv(greater, pq, n, lo, k)
    requires 2 * k <= n ==> !greater(pq[k].value, pq[ChildToSink(greater, pq, n, k)].value)
    ensures HeapBelow(greater, pq, n, lo)
  {
    if 2 * k <= n {
      ChildToSinkIsSmallest(greater, pq, n, k);
    }
  }

  /** In heap order, the key in slot 1 is not greater than any key below it. */
  lemma {:induction false} TopIsSmallest<K(!new)>(greater: (K, K) -> bool, pq: seq<Option<K>>, n: int, k: int)
    requires StrictWeakOrder(greater) && Filled(pq, n) && HeapOrdered(greater, pq, n) && 1 <= k <= n
    ensures !greater(pq[1].value, pq[k].value)
    decreases k
  {
    if k > 1 {
      TopIsSmallest(greater, pq, n, k / 2);
      assert !greater(pq[k / 2].value, pq[k].value);
    }
  }

  /**
   * Moving the last key to slot 1 and clearing the last slot leaves `n - 1`
   * keys, all but the old top, in heap order except below slot 1.
   */
  lemma RemoveTop<K>(greater: (K, K) -> bool, pq: seq<Option<K>>, n: int)
    requires Filled(pq, n) && n >= 1 && HeapOrdered(greater, pq, n)
    requires pq[0] == None && forall k :: n < k < |pq| ==> pq[k] == None
    ensures var t := pq[1 := pq[n]][n := pq[1]][n := None];
      Filled(t, n - 1) && SinkInv(greater, t, n - 1, 1, 1) && t[0] == None && |t| == |pq| &&
      (forall k :: n - 1 < k < |t| ==> t[k] == None) &&
      multiset(Values(t, n - 1)) == multiset(Values(pq, n)) - multiset{pq[1].value}
  {
    var t := pq[1 := pq[n]][n := pq[1]][n := None];
    assert t == pq[1 := pq[n]][n := None];
    RemoveTopKeys(pq, n);
  }

  /** Moving the last key to slot 1 and clearing the last slot takes the old top out of the keys. */
  lemma RemoveTopKeys<K>(pq: seq<Option<K>>, n: int)
    requires Filled(pq, n) && n >= 1
    ensures Filled(pq[1 := pq[n]][n := None], n - 1)
    ensures multiset(Values(pq[1 := pq[n]][n := None], n - 1)) == multiset(Values(pq, n)) - multiset{pq[1].value}
  {
    var t := pq[1 := pq[n]][n := None];
    var v := Values(pq, n);
    var w := v[0 := v[n - 1]][n - 1 := v[0]];
    assert Values(t, n - 1) + [v[0]] == w;
    assert multiset(w) == multiset(v);
    assert multiset(Values(t, n - 1)) + multiset{v[0]} == multiset(v);
  }

  /**
   * The queue's invariant on the heap array: the comparison is a strict weak
   * order, slots `1..n` hold keys in heap order, and every other slot is `nil`.
   */
  ghost predicate HeapValid<K(!new)>(greater: (K, K) -> bool, pq: seq<Option<K>>, n: int)
  {
    StrictWeakOrder(greater) && Filled(pq, n) && pq[0] == None &&
    (forall k :: n < k < |pq| ==> pq[k] == None) &&
    HeapOrdered(greater, pq, n)
  }

  /** Sinking from slot 1 a heap whose other slots are `nil` gives a valid heap. */
  lemma SunkValid<K(!new)>(greater: (K, K) -> bool, t: seq<Option<K>>, u: seq<Option<K>>, n: int)
    requires StrictWeakOrder(greater) && Filled(t, n) && t[0] == None && (forall k :: n < k < |t| ==> t[k] == None)
    requires Filled(u, n) && HeapBelow(greater, u, n, 1) && |u| == |t|
    requires forall c :: c == 0 || n < c < |u| ==> u[c] == t[c]
    ensures HeapValid(greater, u, n)
  {
  }

  /** The keys of `s` come in order: no key is greater than a later one. */
  predicate Ascending<K>(greater: (K, K) -> bool, s: seq<K>)
  {
    forall i, j :: 0 <= i < j < |s| ==> !greater(s[i], s[j])
  }

  /** No key still in the queue is smaller than a key already taken out. */
  predicate NoneLeftSmaller<K>(greater: (K, K) -> bool, s: seq<K>, keys: multiset<K>)
  {
    forall i, y :: 0 <= i < |s| && y in keys ==> !greater(s[i], y)
  }

  /**
   * Taking out a smallest key `m` of what is left keeps the keys taken out
   * in order and not greater than any key left.
   */
  lemma DrainStep<K>(greater: (K, K) -> bool, s: seq<K>, keys: multiset<K>, m: K, rest: multiset<K>)
    requires Ascending(greater, s) && NoneLeftSmaller(greater, s, keys)
    requires m in keys && rest == keys - multiset{m} && forall y :: y in keys ==> !greater(m, y)
    ensures Ascending(greater, s + [m]) && NoneLeftSmaller(greater, s + [m], rest)
    ensures multiset(s + [m]) + rest == multiset(s) + keys
  {
    var t := s + [m];
    forall i, j | 0 <= i < j < |t|
      ensures !greater(t[i], t[j])
    {
      if j < |s| {
        assert t[i] == s[i] && t[j] == s[j];
      } else {
        assert t[i] == s[i] && t[j] == m;
      }
    }
    forall i, y | 0 <= i < |t| && y in rest
      ensures !greater(t[i], y)
    {
      if i < |s| {
        assert t[i] == s[i];
      }
    }
  }

  /** `greater?` without a comparator block: the keys' own `>`. */
  function IntGreater(x: int, y: int): bool
  {
    x > y
  }

  /** `greater?` with a comparator block: the block's result is positive. */
  function BlockGreater<K>(comparator: (K, K) -> int): (K, K) -> bool
  {
    (x: K, y: K) => comparator(x, y) > 0
  }

  class MinPQ<K(!new)> {
    /** `@pq`, a Ruby array: slot 0 and the slots past `size` are `nil`. */
    var pq: seq<Option<K>>
    /** `@size` */
    var size: nat
    /** `greater?` on keys: the comparator block's sign, or the keys' `>`. */
    const greater: (K, K) -> bool

    /**
     * The queue's invariant: the comparison is a strict weak order, slots
     * `1..size` hold keys in heap order, and every other slot is `nil`.
     */
    ghost predicate Valid()
      reads this
    {
      HeapValid(greater, pq, size)
    }

    /** The keys in the queue. */
    ghost function Keys(): multiset<K>
      reads this
      requires Filled(pq, size)
    {
      multiset(Values(pq, size))
    }

    /** `new`: an empty queue with room for one key. */
    constructor (greater: (K, K) -> bool)
      requires StrictWeakOrder(greater)
      ensures Valid() && Keys() == multiset{} && size == 0 && this.greater == greater
    {
      this.greater := greater;
      pq := [None, None];
      size := 0;
    }

    /** `new(capacity)` once the capacity is checked: `capacity + 1` `nil` slots. */
    constructor WithRoom(capacity: nat, greater: (K, K) -> bool)
      requires StrictWeakOrder(greater)
      ensures Valid() && Keys() == multiset{} && size == 0 && this.greater == greater
    {
      this.greater := greater;
      pq := seq(capacity + 1, _ => None);
      size := 0;
    }

    /**
     * `new(keys)`: the keys fill slots `1..n` in their given order, and
     * `sink` is applied from slot `n / 2` down to slot 1.
     */
    constructor FromKeys(keys: seq<K>, greater: (K, K) -> bool)
      requires StrictWeakOrder(greater)
      ensures Valid() && Keys() == multiset(keys) && size == |keys| && this.greater == greater
    {
      this.greater := greater;
      size := |keys|;
      pq := seq(|keys| + 1, i requires 0 <= i <= |keys| => if i == 0 then None else Some(keys[i - 1]));
      new;
      assert Values(pq, size) == keys;
      var i := size / 2;
      while i >= 1
        invariant 0 <= i <= size / 2 && |pq| == size + 1 && pq[0] == None
        invariant Filled(pq, size) && multiset(Values(pq, size)) == multiset(keys)
        invariant HeapBelow(greater, pq, size, i + 1)
        invariant this.greater == greater && size == |keys|
      {
        Sink(i);
        i := i - 1;
      }
    }

    /** `empty?` */
    function IsEmpty(): (b: bool)
      reads this
      requires Valid()
      ensures b <==> Keys() == multiset{}
    {
      size == 0
    }

    /** `size` */
    function Size(): (n: nat)
      reads this
      requires Valid()
      ensures n == |Keys()|
    {
      size
    }

    /** `min`: a smallest key, or PriorityQueueEmptyError on an empty queue. */
    method Min() returns (r: Result<K>)
      requires Valid()
      ensures size == 0 <==> r == Err(PriorityQueueEmptyError)
      ensures r.Ok? ==> r.value in Keys() && forall y :: y in Keys() ==> !greater(r.value, y)
    {
      if size == 0 {
        return Err(PriorityQueueEmptyError);
      }
      Smallest();
      return Ok(pq[1].value);
    }

    /** The key in slot 1 is one of the keys and is not greater than any of them. */
    lemma Smallest()
      requires Valid() && size >= 1
      ensures pq[1].value in Keys() && forall y :: y in Keys() ==> !greater(pq[1].value, y)
    {
      var v := Values(pq, size);
      assert v[0] == pq[1].value;
      forall y | y in Keys()
        ensures !greater(pq[1].value, y)
      {
        var i :| 0 <= i < size && v[i] == y;
        TopIsSmallest(greater, pq, size, i + 1);
      }
    }

    /** `swim(k)`: exchanges the key at `k` with its parent while the parent is greater. */
    method Swim(k0: nat)
      requires StrictWeakOrder(greater) && Filled(pq, size) && SwimInv(greater, pq, size, k0)
      modifies this
      ensures Filled(pq, size) && HeapOrdered(greater, pq, size)
      ensures size == old(size) && |pq| == old(|pq|) && multiset(Values(pq, size)) == old(multiset(Values(pq, size)))
      ensures forall c :: c == 0 || size < c < |pq| ==> pq[c] == old(pq[c])
    {
      var k := k0;
      while k > 1 && greater(pq[k / 2].value, pq[k].value)
        invariant Filled(pq, size) && SwimInv(greater, pq, size, k)
        invariant size == old(size) && |pq| == old(|pq|) && multiset(Values(pq, size)) == old(multiset(Values(pq, size)))
        invariant forall c :: c == 0 || size < c < |pq| ==> pq[c] == old(pq[c])
        decreases k
      {
        SwimStep(greater, pq, size, k);
        SwapKeepsKeys(pq, size, k, k / 2);
        pq := pq[k := pq[k / 2]][k / 2 := pq[k]];
        k := k / 2;
      }
      SwimDone(greater, pq, size, k);
    }

    /**
     * `sink(k)`: exchanges the key at `k` with its smaller child while that
     * child is smaller, restoring heap order below `k`.
     */
    method Sink(k0: nat)
      requires StrictWeakOrder(greater) && Filled(pq, size) && 1 <= k0 && SinkInv(greater, pq, size, k0, k0)
      modifies this
      ensures Filled(pq, size) && HeapBelow(greater, pq, size, k0)
      ensures size == old(size) && |pq| == old(|pq|) && multiset(Values(pq, size)) == old(multiset(Values(pq, size)))
      ensures forall c :: c == 0 || size < c < |pq| ==> pq[c] == old(pq[c])
    {
      ghost var pq0 := pq;
      var k := k0;
      while 2 * k <= size
        invariant Filled(pq, size) && SinkInv(greater, pq, size, k0, k)
        invariant size == old(size) && SameSlots(pq0, pq, size)
        decreases size - k
      {
        var j := 2 * k;
        if j < size && greater(pq[j].value, pq[j + 1].value) {
          j := j + 1;
        }
        assert j == ChildToSink(greater, pq, size, k);
        if !greater(pq[k].value, pq[j].value) {
          break;
        }
        SinkSwap(greater, pq0, pq, size, k0, k);
        pq := pq[k := pq[j]][j := pq[k]];
        k := j;
      }
      SinkDone(greater, pq, size, k0, k);
    }

    /**
     * `new(capacity)`: ArgumentError when the capacity is below 1; otherwise
     * an empty queue with room for `capacity` keys.
     */
    static method WithCapacity(capacity: int, greater: (K, K) -> bool) returns (r: Result<MinPQ<K>>)
      requires StrictWeakOrder(greater)
      ensures capacity < 1 <==> r.Err?
      ensures r.Err? ==> r.error == ArgumentError
      ensures r.Ok? ==> fresh(r.value) && r.value.Valid() && r.value.Keys() == multiset{} && r.value.greater == greater
    {
      if capacity < 1 {
        return Err(ArgumentError);
      }
      var queue := new MinPQ.WithRoom(capacity, greater);
      return Ok(queue);
    }

    /**
     * `resize(new_cap)`: ArgumentError when the new capacity is below the
     * size. Otherwise it copies the keys into a new array that it never
     * stores, so the queue is left as it was.
     */
    method Resize(newCap: int) returns (o: Outcome)
      requires Valid()
      ensures newCap < size <==> o.Fail?
      ensures o.Fail? ==> o.error == ArgumentError
    {
      if newCap < size {
        return Fail(ArgumentError);
      }
      return Pass;
    }

    /**
     * `insert(x)`: the key goes into slot `size + 1` (the Ruby array grows
     * to hold it) and swims up to its place.
     */
    method Insert(x: K)
      requires Valid()
      modifies this
      ensures Valid() && Keys() == old(Keys()) + multiset{x} && size == old(size) + 1
    {
      if size == |pq| - 1 {
        var o := Resize(2 * |pq|);
      }
      ghost var before := Values(pq, size);
      size := size + 1;
      pq := RubySet(pq, size, Some(x));
      assert Values(pq, size) == before + [x];
      Swim(size);
    }

    /**
     * `delete_min`: PriorityQueueEmptyError on an empty queue; otherwise the
     * key in slot 1 is exchanged with the last one, removed and returned, and
     * the new top sinks to its place.
     */
    method DeleteMin() returns (r: Result<K>)
      requires Valid()
      modifies this
      ensures Valid()
      ensures old(size) == 0 ==> r == Err(PriorityQueueEmptyError) && size == 0
      ensures old(size) > 0 ==> r.Ok? && r.value in old(Keys()) && size == old(size) - 1
      ensures old(size) > 0 ==> Keys() == old(Keys()) - multiset{r.value}
      ensures old(size) > 0 ==> forall y :: y in old(Keys()) ==> !greater(r.value, y)
    {
      if size == 0 {
        return Err(PriorityQueueEmptyError);
      }
      Smallest();
      RemoveTop(greater, pq, size);
      ghost var removed := pq[1 := pq[size]][size := pq[1]][size := None];
      pq := pq[1 := pq[size]][size := pq[1]];
      var minimum := pq[size];
      pq := pq[size := None];
      size := size - 1;
      assert pq == removed;
      Sink(1);
      SunkValid(greater, removed, pq, size);
      if size > 0 && size == (|pq| - 1) / 4 {
        var o := Resize(|pq| / 2);
      }
      return Ok(minimum.value);
    }

    /** The first half of `each`: every key is inserted into the empty copy. */
    method FillCopy(copy: MinPQ<K>)
      requires Valid() && copy.Valid() && copy.Keys() == multiset{} && copy.greater == greater && copy != this
      modifies copy
      ensures copy.Valid() && copy.Keys() == Keys() && copy.greater == greater
    {
      var i := 1;
      while i <= size
        invariant 1 <= i <= size + 1 && copy.Valid() && copy.greater == greater
        invariant copy.Keys() == multiset(Values(pq, i - 1))
      {
        assert Values(pq, i) == Values(pq, i - 1) + [pq[i].value];
        copy.Insert(pq[i].value);
        i := i + 1;
      }
      assert Values(pq, i - 1) == Values(pq, size);
    }

    /** The second half of `each`: the copy's minimum is deleted until it is empty. */
    static method Drain(copy: MinPQ<K>) returns (s: seq<K>)
      requires copy.Valid()
      modifies copy
      ensures multiset(s) == old(copy.Keys()) && Ascending(copy.greater, s)
    {
      s := [];
      while copy.size != 0
        invariant copy.Valid()
        invariant multiset(s) + copy.Keys() == old(copy.Keys())
        invariant Ascending(copy.greater, s)
        invariant NoneLeftSmaller(copy.greater, s, copy.Keys())
        decreases copy.size
      {
        ghost var keys := copy.Keys();
        var m := copy.DeleteMin();
        DrainStep(copy.greater, s, keys, m.value, copy.Keys());
        s := s + [m.value];
      }
    }

    /** The body of `each`, on an empty copy with the same comparison. */
    method CopyAndDrain(copy: MinPQ<K>) returns (s: seq<K>)
      requires Valid() && copy.Valid() && copy.Keys() == multiset{} && copy.greater == greater && copy != this
      modifies copy
      ensures multiset(s) == Keys() && Ascending(greater, s)
    {
      FillCopy(copy);
      s := Drain(copy);
    }

    /**
     * `each` as written: it copies the queue with `MinPQ.new(size)`, which
     * raises ArgumentError when the queue is empty; otherwise it yields every
     * key, smallest first.
     */
    method Each() returns (r: Result<seq<K>>)
      requires Valid()
      ensures size == 0 <==> r.Err?
      ensures r.Err? ==> r.error == ArgumentError
      ensures r.Ok? ==> multiset(r.value) == Keys() && Ascending(greater, r.value)
    {
      var c := WithCapacity(size, greater);
      if c.Err? {
        return Err(c.error);
      }
      var s := CopyAndDrain(c.value);
      return Ok(s);
    }

    /**
     * `each` as intended: the copy gets room for at least one key, so an
     * empty queue yields nothing; every key is yielded, smallest first.
     */
    method Ordered() returns (s: seq<K>)
      requires Valid()
      ensures multiset(s) == Keys() && Ascending(greater, s)
    {
      var copy := new MinPQ.WithRoom(Max(size, 1), greater);
      s := CopyAndDrain(copy);
    }
  }

  /** Integer `>` is a strict weak order. */
  lemma IntGreaterIsStrictWeakOrder()
    ensures StrictWeakOrder(IntGreater)
  {
  }

  /** Iterating an empty queue raises ArgumentError as written, and yields nothing as intended. */
  method EmptyEach() returns (asWritten: Result<seq<int>>, intended: seq<int>)
    ensures asWritten == Err(ArgumentError) && intended == []
  {
    IntGreaterIsStrictWeakOrder();
    var queue := new MinPQ<int>(IntGreater);
    asWritten := queue.Each();
    intended := queue.Ordered();
  }

  /** A queue built from `[3, 1, 2]` hands its keys back smallest first. */
  method HeapOrderOfKeys() returns (a: Result<int>, b: Result<int>, c: Result<int>, d: Result<int>)
    ensures a == Ok(1) && b == Ok(2) && c == Ok(3) && d == Err(PriorityQueueEmptyError)
  {
    IntGreaterIsStrictWeakOrder();
    var queue := new MinPQ<int>.FromKeys([3, 1, 2], IntGreater);
    a := queue.DeleteMin();
    b := queue.DeleteMin();
    c := queue.DeleteMin();
    d := queue.DeleteMin();
  }
}
