/**
 * Insertion sort of a slice `lo...hi` of an array, in place (`sort!`) or on
 * a copy (`sort`), under the elements' `<` or a comparator block
 * (sorting/insertion.rb).
 */
module Insertion {
  import opened SortOrder

  /**
   * The state of the inner loop while the element that started at `i` sinks
   * towards `lo`; it now sits at `j`. Apart from the pairs ending at `j`,
   * `s[lo..i]` is ordered, and the element at `j` is strictly less than those
   * it has passed.
   */
  predicate Sinking<T>(less: (T, T) -> bool, s: seq<T>, lo: int, i: int, j: int)
    requires 0 <= lo <= j <= i < |s|
  {
    (forall p, q :: lo <= p < q <= i && q != j ==> !less(s[q], s[p])) &&
    (forall q :: j < q <= i ==> less(s[j], s[q]))
  }

  /** When `s[lo..i]` is ordered, the element at `i` starts to sink. */
  lemma SinkingStart<T>(less: (T, T) -> bool, s: seq<T>, lo: int, i: int)
    requires 0 <= lo <= i < |s|
    requires SortedBetween(less, s, lo, i)
    ensures Sinking(less, s, lo, i, i)
  {
  }

  /** A swap with the left neighbour, taken when the sinking element is strictly less. */
  lemma SinkingStep<T(!new)>(less: (T, T) -> bool, s: seq<T>, lo: int, i: int, j: int)
    requires StrictWeakOrder(less)
    requires 0 <= lo < j <= i < |s|
    requires Sinking(less, s, lo, i, j) && less(s[j], s[j - 1])
    ensures Sinking(less, Swap(s, j - 1, j), lo, i, j - 1)
  {
    var t := Swap(s, j - 1, j);
    forall q | j - 1 < q <= i
      ensures less(t[j - 1], t[q])
    {
      if q > j {
        assert t[q] == s[q];
      }
    }
    forall p, q | lo <= p < q <= i && q != j - 1
      ensures !less(t[q], t[p])
    {
      if p == j - 1 {
        assert less(t[j - 1], t[q]);
      } else if q == j {
        assert t[q] == s[j - 1] && t[p] == s[p];
      } else if p == j {
        assert t[p] == s[j - 1] && t[q] == s[q];
      } else {
        assert t[p] == s[p] && t[q] == s[q];
      }
    }
  }

  /**
   * The inner loop stops at `lo` or below an element that is not greater;
   * either way `s[lo..i + 1]` is then ordered.
   */
  lemma SinkingDone<T(!new)>(less: (T, T) -> bool, s: seq<T>, lo: int, i: int, j: int)
    requires StrictWeakOrder(less)
    requires 0 <= lo <= j <= i < |s|
    requires Sinking(less, s, lo, i, j)
    requires j == lo || !less(s[j], s[j - 1])
    ensures SortedBetween(less, s, lo, i + 1)
  {
    forall p, q | lo <= p < q <= i
      ensures !less(s[q], s[p])
    {
      if q == j && p < j - 1 {
        assert !less(s[j - 1], s[p]);
      }
    }
  }

  /** Swapping inside the slice swaps inside the slice's own sequence, and nothing outside it. */
  lemma SwapInSlice<T>(s: seq<T>, lo: int, hi: int, k: int)
    requires 0 <= lo < k < hi <= |s|
    ensures Swap(s, k - 1, k)[lo..hi] == Swap(s[lo..hi], k - 1 - lo, k - lo)
    ensures Swap(s, k - 1, k)[..lo] == s[..lo]
    ensures Swap(s, k - 1, k)[hi..] == s[hi..]
  {
  }

  /**
   * One swap of the inner loop keeps the slice a stable rearrangement of the
   * original slice, and leaves everything outside the slice alone.
   */
  lemma SwapStep<T(!new)>(less: (T, T) -> bool, o: seq<T>, s: seq<T>, lo: int, hi: int, j: int)
    requires StrictWeakOrder(less)
    requires 0 <= lo < j < hi <= |s| && less(s[j], s[j - 1])
    requires Stable(less, o, s[lo..hi])
    ensures Stable(less, o, Swap(s, j - 1, j)[lo..hi])
    ensures Swap(s, j - 1, j)[..lo] == s[..lo] && Swap(s, j - 1, j)[hi..] == s[hi..]
  {
    var w := s[lo..hi];
    SwapInSlice(s, lo, hi, j);
    assert w[j - lo] == s[j] && w[j - 1 - lo] == s[j - 1];
    SwapNeighboursIsStable(less, w, j - lo);
    StableTransitive(less, o, w, Swap(w, j - 1 - lo, j - lo));
  }

  /**
   * `sort!`: for every `i` of the slice, swaps the element at `i` with its
   * left neighbour while it is strictly less (and still right of the slice's
   * start). Afterwards the slice is ordered, equivalent elements keep their
   * relative order, the slice holds the same elements, and nothing outside
   * the slice changes.
   */
  method SortInPlace<T(!new)>(a: array<T>, lo: int, hi: int, less: (T, T) -> bool)
    requires StrictWeakOrder(less)
    requires 0 <= lo <= hi <= a.Length
    modifies a
    ensures SortedBetween(less, a[..], lo, hi)
    ensures Stable(less, old(a[lo..hi]), a[lo..hi])
    ensures multiset(a[lo..hi]) == multiset(old(a[lo..hi]))
    ensures a[..lo] == old(a[..lo]) && a[hi..] == old(a[hi..])
  {
    var i := lo;
    while i < hi
      invariant lo <= i <= hi
      invariant SortedBetween(less, a[..], lo, i)
      invariant Stable(less, old(a[lo..hi]), a[lo..hi])
      invariant a[..lo] == old(a[..lo]) && a[hi..] == old(a[hi..])
    {
      var j := i;
      SinkingStart(less, a[..], lo, i);
      while j > lo && less(a[j], a[j - 1])
        invariant lo <= j <= i
        invariant Sinking(less, a[..], lo, i, j)
        invariant Stable(less, old(a[lo..hi]), a[lo..hi])
        invariant a[..lo] == old(a[..lo]) && a[hi..] == old(a[hi..])
      {
        ghost var s := a[..];
        SinkingStep(less, s, lo, i, j);
        SwapStep(less, old(a[lo..hi]), s, lo, hi, j);
        a[j], a[j - 1] := a[j - 1], a[j];
        assert a[..] == Swap(s, j - 1, j);
        j := j - 1;
      }
      SinkingDone(less, a[..], lo, i, j);
      i := i + 1;
    }
    StableIsPermutation(less, old(a[lo..hi]), a[lo..hi]);
  }

  /**
   * `sort`: the same sort on a copy. The result is the input with its slice
   * ordered stably; the input itself is a value and is left as it was.
   */
  method Sort<T(!new)>(s: seq<T>, lo: int, hi: int, less: (T, T) -> bool) returns (r: seq<T>)
    requires StrictWeakOrder(less)
    requires 0 <= lo <= hi <= |s|
    ensures |r| == |s|
    ensures SortedBetween(less, r, lo, hi)
    ensures Stable(less, s[lo..hi], r[lo..hi])
    ensures multiset(r[lo..hi]) == multiset(s[lo..hi])
    ensures r[..lo] == s[..lo] && r[hi..] == s[hi..]
  {
    var copy := new T[|s|](k requires 0 <= k < |s| => s[k]);
    assert copy[..] == s;
    SortInPlace(copy, lo, hi, less);
    r := copy[..];
  }

  /** The whole-array default `0...size` under integer `<`: sorted non-decreasingly, same elements. */
  method SortIntegers(s: seq<int>) returns (r: seq<int>)
    ensures |r| == |s| && multiset(r) == multiset(s)
    ensures forall p, q :: 0 <= p < q < |r| ==> r[p] <= r[q]
  {
    IntLessIsStrictWeakOrder();
    r := Sort(s, 0, |s|, IntLess);
    assert s[0..|s|] == s && r[0..|s|] == r;
  }
}
