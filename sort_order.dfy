/**
 * The ordering the sorting modules rely on (sorting/insertion.rb,
 * sorting/binary_insertion.rb): a `less?` test that is either the elements'
 * own `<` or `comparator(x, y) < 0` for a comparator block, and which the
 * library requires to be a total order on the elements.
 */
module SortOrder {

  /**
   * A strict weak order: asymmetric, and its complement is transitive. Every
   * total order is one; elements that are not less than each other are
   * "equivalent" and a stable sort keeps them in their original order.
   */
  ghost predicate StrictWeakOrder<T(!new)>(less: (T, T) -> bool)
  {
    (forall x, y :: less(x, y) ==> !less(y, x)) &&
    (forall x, y, z :: !less(x, y) && !less(y, z) ==> !less(x, z))
  }

  /** Neither element is less than the other. */
  predicate Equivalent<T>(less: (T, T) -> bool, x: T, y: T)
  {
    !less(x, y) && !less(y, x)
  }

  /** Ruby's `<` on integers, the order used when no block is given. */
  function IntLess(x: int, y: int): bool
  {
    x < y
  }

  /** `less?` with a comparator block: the block's result is negative. */
  function BlockLess<T>(comparator: (T, T) -> int): (T, T) -> bool
  {
    (x: T, y: T) => comparator(x, y) < 0
  }

  /** A comparator block that orders integers in reverse, as in the library's tests. */
  function Descending(x: int, y: int): int
  {
    if y < x then -1 else if y == x then 0 else 1
  }

  /** Integer `<` is a strict weak order. */
  lemma IntLessIsStrictWeakOrder()
    ensures StrictWeakOrder(IntLess)
  {
  }

  /** The reversing comparator block gives a strict weak order. */
  lemma DescendingIsStrictWeakOrder()
    ensures StrictWeakOrder(BlockLess(Descending))
    ensures forall x: int, y: int :: BlockLess(Descending)(x, y) <==> y < x
  {
    forall x: int, y: int
      ensures BlockLess(Descending)(x, y) <==> y < x
    {
      assert BlockLess(Descending)(x, y) == (Descending(x, y) < 0);
    }
  }

  /** `s[lo..hi]` is ordered: no later element is less than an earlier one. */
  predicate SortedBetween<T>(less: (T, T) -> bool, s: seq<T>, lo: int, hi: int)
    requires 0 <= lo <= hi <= |s|
  {
    forall p, q :: lo <= p < q < hi ==> !less(s[q], s[p])
  }

  /** The elements of `s` equivalent to `x`, in their order in `s`. */
  function ClassOf<T>(less: (T, T) -> bool, s: seq<T>, x: T): seq<T>
  {
    if |s| == 0 then []
    else (if Equivalent(less, s[0], x) then [s[0]] else []) + ClassOf(less, s[1..], x)
  }

  /**
   * `t` is a stable rearrangement of `s`: for every element, the elements
   * equivalent to it occur in `t` in the same order as in `s`.
   */
  ghost predicate Stable<T(!new)>(less: (T, T) -> bool, s: seq<T>, t: seq<T>)
  {
    forall x :: ClassOf(less, t, x) == ClassOf(less, s, x)
  }

  /** `s` with the elements at `i` and `j` exchanged (the library's `swap`). */
  function Swap<T>(s: seq<T>, i: int, j: int): (r: seq<T>)
    requires 0 <= i < |s| && 0 <= j < |s|
    ensures |r| == |s| && r[i] == s[j] && r[j] == s[i]
    ensures forall k :: 0 <= k < |s| && k != i && k != j ==> r[k] == s[k]
    ensures multiset(r) == multiset(s)
  {
    s[i := s[j]][j := s[i]]
  }

  /** Filtering distributes over concatenation. */
  lemma {:induction false} ClassOfAppend<T>(less: (T, T) -> bool, s: seq<T>, t: seq<T>, x: T)
    ensures ClassOf(less, s + t, x) == ClassOf(less, s, x) + ClassOf(less, t, x)
  {
    if |s| == 0 {
      assert s + t == t;
    } else {
      var u := s + t;
      assert u[0] == s[0];
      assert u[1..] == s[1..] + t;
      ClassOfAppend(less, s[1..], t, x);
      assert ClassOf(less, u, x) == (if Equivalent(less, s[0], x) then [s[0]] else []) + ClassOf(less, u[1..], x);
    }
  }

  /** The class of a single element. */
  lemma ClassOfSingleton<T>(less: (T, T) -> bool, y: T, x: T)
    ensures ClassOf(less, [y], x) == if Equivalent(less, y, x) then [y] else []
  {
    assert [y][1..] == [];
  }

  /** Equivalence is transitive under a strict weak order. */
  lemma EquivalentTransitive<T(!new)>(less: (T, T) -> bool, x: T, y: T, z: T)
    requires StrictWeakOrder(less)
    requires Equivalent(less, x, y) && Equivalent(less, y, z)
    ensures Equivalent(less, x, z)
  {
  }

  /** A neighbour exchange seen through one class, when at most one of the pair is in it. */
  lemma SwapNeighboursClass<T>(less: (T, T) -> bool, s: seq<T>, k: int, x: T)
    requires 0 < k < |s|
    requires !(Equivalent(less, s[k], x) && Equivalent(less, s[k - 1], x))
    ensures ClassOf(less, Swap(s, k - 1, k), x) == ClassOf(less, s, x)
  {
    var pre, post := s[..k - 1], s[k + 1..];
    var u, v := s[k - 1], s[k];
    assert s == (pre + [u] + [v]) + post;
    assert Swap(s, k - 1, k) == (pre + [v] + [u]) + post;
    ClassOfAppend(less, pre + [u] + [v], post, x);
    ClassOfAppend(less, pre + [u], [v], x);
    ClassOfAppend(less, pre, [u], x);
    ClassOfAppend(less, pre + [v] + [u], post, x);
    ClassOfAppend(less, pre + [v], [u], x);
    ClassOfAppend(less, pre, [v], x);
    ClassOfSingleton(less, u, x);
    ClassOfSingleton(less, v, x);
  }

  /**
   * Exchanging two neighbours of which the later is strictly less than the
   * earlier keeps every equivalence class in order: the two are never
   * equivalent to each other, so at most one of them is in any class.
   */
  lemma SwapNeighboursIsStable<T(!new)>(less: (T, T) -> bool, s: seq<T>, k: int)
    requires StrictWeakOrder(less)
    requires 0 < k < |s| && less(s[k], s[k - 1])
    ensures Stable(less, s, Swap(s, k - 1, k))
  {
    forall x
      ensures ClassOf(less, Swap(s, k - 1, k), x) == ClassOf(less, s, x)
    {
      SwapNeighboursClass(less, s, k, x);
    }
  }

  /** A rotation seen through one class, when the moved element or the ones it passes are outside it. */
  lemma RotateClass<T>(less: (T, T) -> bool, s: seq<T>, low: int, i: int, x: T)
    requires 0 <= low <= i < |s|
    requires Equivalent(less, s[i], x) ==> ClassOf(less, s[low..i], x) == []
    ensures ClassOf(less, s[..low] + [s[i]] + s[low..i] + s[i + 1..], x) == ClassOf(less, s, x)
  {
    var pre, mid, post, y := s[..low], s[low..i], s[i + 1..], s[i];
    SplitAround(s, low, i);
    ClassOfFour(less, pre, mid, [y], post, x);
    ClassOfFour(less, pre, [y], mid, post, x);
    ClassOfSingleton(less, y, x);
    SwapAroundEmpty(ClassOf(less, pre, x), ClassOf(less, mid, x), ClassOf(less, [y], x), ClassOf(less, post, x));
  }

  /** `s` cut around position `i` and at an earlier position `low`. */
  lemma SplitAround<T>(s: seq<T>, low: int, i: int)
    requires 0 <= low <= i < |s|
    ensures s == s[..low] + s[low..i] + [s[i]] + s[i + 1..]
  {
    assert s[..i] == s[..low] + s[low..i];
    assert s == s[..i] + [s[i]] + s[i + 1..];
  }

  /** Filtering a concatenation of four pieces. */
  lemma ClassOfFour<T>(less: (T, T) -> bool, p: seq<T>, q: seq<T>, r: seq<T>, t: seq<T>, x: T)
    ensures ClassOf(less, p + q + r + t, x) ==
      ClassOf(less, p, x) + ClassOf(less, q, x) + ClassOf(less, r, x) + ClassOf(less, t, x)
  {
    ClassOfAppend(less, p + q + r, t, x);
    ClassOfAppend(less, p + q, r, x);
    ClassOfAppend(less, p, q, x);
  }

  /** Two adjacent pieces of which one is empty can be exchanged. */
  lemma SwapAroundEmpty<T>(a: seq<T>, b: seq<T>, c: seq<T>, d: seq<T>)
    requires b == [] || c == []
    ensures a + c + b + d == a + b + c + d
  {
    if b == [] {
      assert a + c + b == a + c == a + b + c;
    } else {
      assert a + c + b == a + b == a + b + c;
    }
  }

  /**
   * Moving `s[i]` down to position `low`, past elements that are all strictly
   * greater than it, keeps every equivalence class in order.
   */
  lemma RotateIsStable<T(!new)>(less: (T, T) -> bool, s: seq<T>, low: int, i: int)
    requires StrictWeakOrder(less)
    requires 0 <= low <= i < |s|
    requires forall m :: low <= m < i ==> less(s[i], s[m])
    ensures Stable(less, s, s[..low] + [s[i]] + s[low..i] + s[i + 1..])
  {
    forall x
      ensures ClassOf(less, s[..low] + [s[i]] + s[low..i] + s[i + 1..], x) == ClassOf(less, s, x)
    {
      if Equivalent(less, s[i], x) {
        ClassOfNone(less, s[low..i], x, s[i]);
      }
      RotateClass(less, s, low, i, x);
    }
  }

  /** No element strictly greater than a member of `x`'s class is in that class. */
  lemma {:induction false} ClassOfNone<T(!new)>(less: (T, T) -> bool, mid: seq<T>, x: T, y: T)
    requires StrictWeakOrder(less)
    requires Equivalent(less, y, x)
    requires forall m :: 0 <= m < |mid| ==> less(y, mid[m])
    ensures ClassOf(less, mid, x) == []
  {
    if |mid| > 0 {
      ClassOfNone(less, mid[1..], x, y);
    }
  }

  /** Every occurrence of `x` is in `x`'s own class. */
  lemma {:induction false} ClassOfCountsSelf<T(!new)>(less: (T, T) -> bool, s: seq<T>, x: T)
    requires StrictWeakOrder(less)
    ensures multiset(ClassOf(less, s, x))[x] == multiset(s)[x]
  {
    if |s| > 0 {
      ClassOfCountsSelf(less, s[1..], x);
      assert s == [s[0]] + s[1..];
    }
  }

  /** A stable rearrangement is a permutation. */
  lemma StableIsPermutation<T(!new)>(less: (T, T) -> bool, s: seq<T>, t: seq<T>)
    requires StrictWeakOrder(less)
    requires Stable(less, s, t)
    ensures multiset(s) == multiset(t)
  {
    forall x
      ensures multiset(s)[x] == multiset(t)[x]
    {
      ClassOfCountsSelf(less, s, x);
      ClassOfCountsSelf(less, t, x);
      assert ClassOf(less, t, x) == ClassOf(less, s, x);
    }
  }

  /** Stability composes. */
  lemma StableTransitive<T(!new)>(less: (T, T) -> bool, r: seq<T>, s: seq<T>, t: seq<T>)
    requires Stable(less, r, s) && Stable(less, s, t)
    ensures Stable(less, r, t)
  {
    forall x
      ensures ClassOf(less, t, x) == ClassOf(less, r, x)
    {
      assert ClassOf(less, t, x) == ClassOf(less, s, x);
    }
  }

  /** Removing the first element from both sides of a stable rearrangement that starts with it. */
  lemma StableTails<T(!new)>(less: (T, T) -> bool, t: seq<T>, u: seq<T>)
    requires |t| > 0 && |u| > 0 && t[0] == u[0]
    requires Stable(less, t, u)
    ensures Stable(less, t[1..], u[1..])
  {
    forall y
      ensures ClassOf(less, u[1..], y) == ClassOf(less, t[1..], y)
    {
      var head := if Equivalent(less, t[0], y) then [t[0]] else [];
      assert ClassOf(less, t, y) == head + ClassOf(less, t[1..], y);
      assert ClassOf(less, u, y) == head + ClassOf(less, u[1..], y);
      assert ClassOf(less, u, y) == ClassOf(less, t, y);
      assert ClassOf(less, u[1..], y) == (head + ClassOf(less, u[1..], y))[|head|..];
      assert ClassOf(less, t[1..], y) == (head + ClassOf(less, t[1..], y))[|head|..];
    }
  }

  /** The first element of a sorted stable rearrangement is the first element of the original. */
  lemma SortedHeadsAgree<T(!new)>(less: (T, T) -> bool, t: seq<T>, u: seq<T>)
    requires StrictWeakOrder(less)
    requires SortedBetween(less, t, 0, |t|) && SortedBetween(less, u, 0, |u|)
    requires |t| > 0 && Stable(less, t, u)
    ensures |u| > 0 && u[0] == t[0]
  {
    StableIsPermutation(less, t, u);
    var x := t[0];
    assert x in multiset(u);
    var m' :| 0 <= m' < |u| && u[m'] == x;
    assert u[0] in multiset(t);
    var m :| 0 <= m < |t| && t[m] == u[0];
    assert !less(u[0], x) by {
      if m > 0 { assert !less(t[m], t[0]); }
    }
    assert !less(x, u[0]) by {
      if m' > 0 { assert !less(u[m'], u[0]); }
    }
    assert ClassOf(less, t, x) == [t[0]] + ClassOf(less, t[1..], x);
    assert ClassOf(less, u, x) == [u[0]] + ClassOf(less, u[1..], x);
    assert ClassOf(less, u, x) == ClassOf(less, t, x);
    assert ClassOf(less, u, x)[0] == u[0];
  }

  /**
   * A stable sort has only one possible result: two sorted sequences that
   * are stable rearrangements of each other are equal.
   */
  lemma {:induction false} SortedStableUnique<T(!new)>(less: (T, T) -> bool, t: seq<T>, u: seq<T>)
    requires StrictWeakOrder(less)
    requires SortedBetween(less, t, 0, |t|) && SortedBetween(less, u, 0, |u|)
    requires Stable(less, t, u)
    ensures t == u
    decreases |t|
  {
    StableIsPermutation(less, t, u);
    assert |t| == |multiset(t)| == |multiset(u)| == |u|;
    if |t| > 0 {
      SortedHeadsAgree(less, t, u);
      StableTails(less, t, u);
      SortedStableUnique(less, t[1..], u[1..]);
      assert t == [t[0]] + t[1..] && u == [u[0]] + u[1..];
    }
  }
}
