/**
 * Binary insertion sort of a slice `lo...hi` of an array, in place
 * (`sort!`) or on a copy (`sort`): each element is placed by a binary search
 * of the sorted part before it (sorting/binary_insertion.rb).
 */
module BinaryInsertion {
  import opened SortOrder
  import Insertion

  /** `s` with `s[i]` moved down to position `low` and `s[low..i]` shifted up by one. */
  function Inserted<T>(s: seq<T>, low: int, i: int): (r: seq<T>)
    requires 0 <= low <= i < |s|
    ensures |r| == |s| && r[low] == s[i]
    ensures forall m :: 0 <= m < low || i < m < |s| ==> r[m] == s[m]
    ensures forall m :: low < m <= i ==> r[m] == s[m - 1]
  {
    s[..low] + [s[i]] + s[low..i] + s[i + 1..]
  }

  /**
   * The search window of `sort!` for the element at `i`: everything before
   * `low` is not greater than it, everything from `high` up to `i` is.
   */
  predicate Window<T>(less: (T, T) -> bool, s: seq<T>, lo: int, i: int, low: int, high: int)
    requires 0 <= lo <= low <= high <= i < |s|
  {
    (forall m :: lo <= m < low ==> !less(s[i], s[m])) &&
    (forall m :: high <= m < i ==> less(s[i], s[m]))
  }

  /** One halving of the window keeps it a window, on a sorted prefix. */
  lemma WindowStep<T(!new)>(less: (T, T) -> bool, s: seq<T>, lo: int, i: int, low: int, high: int)
    requires StrictWeakOrder(less)
    requires 0 <= lo <= low < high <= i < |s|
    requires SortedBetween(less, s, lo, i) && Window(less, s, lo, i, low, high)
    ensures var middle := low + (high - low) / 2;
      if less(s[i], s[middle]) then Window(less, s, lo, i, low, middle)
      else Window(less, s, lo, i, middle + 1, high)
  {
    var middle := low + (high - low) / 2;
    if less(s[i], s[middle]) {
      forall m | middle <= m < i
        ensures less(s[i], s[m])
      {
        if m > middle {
          assert !less(s[m], s[middle]);
        }
      }
    } else {
      forall m | lo <= m <= middle
        ensures !less(s[i], s[m])
      {
        if m < middle {
          assert !less(s[middle], s[m]);
        }
      }
    }
  }

  /**
   * Placing the element at the point the search found leaves `lo..i` sorted
   * and keeps every equivalence class in order.
   */
  lemma InsertionStep<T(!new)>(less: (T, T) -> bool, o: seq<T>, s: seq<T>, lo: int, hi: int, i: int, low: int)
    requires StrictWeakOrder(less)
    requires 0 <= lo <= low <= i < hi <= |s|
    requires SortedBetween(less, s, lo, i) && Window(less, s, lo, i, low, low)
    requires Stable(less, o, s[lo..hi])
    ensures SortedBetween(less, Inserted(s, low, i), lo, i + 1)
    ensures Stable(less, o, Inserted(s, low, i)[lo..hi])
    ensures Inserted(s, low, i)[..lo] == s[..lo] && Inserted(s, low, i)[hi..] == s[hi..]
  {
    var t := Inserted(s, low, i);
    forall p, q | lo <= p < q <= i
      ensures !less(t[q], t[p])
    {
      if q == low {
        assert !less(s[i], s[p]);
      } else if p == low {
        assert less(s[i], s[q - 1]);
      } else if p < low < q {
        assert !less(s[i], s[p]) && less(s[i], s[q - 1]);
      } else if low < p {
        assert t[p] == s[p - 1] && t[q] == s[q - 1];
      }
    }
    var w := s[lo..hi];
    assert t[lo..hi] == Inserted(w, low - lo, i - lo);
    assert forall m :: low - lo <= m < i - lo ==> less(w[i - lo], w[m]);
    RotateIsStable(less, w, low - lo, i - lo);
    StableTransitive(less, o, w, Inserted(w, low - lo, i - lo));
  }

  /**
   * `sort!`: for every `i` of the slice, a binary search of `lo...i` finds the
   * first position whose element is greater than `array[i]` (moving right on
   * ties); the elements from there up to `i - 1` move up one place and the
   * element goes into the gap. Afterwards the slice is ordered, equivalent
   * elements keep their relative order, the slice holds the same elements,
   * and nothing outside the slice changes.
   */
  method SortInPlace<T(!new)>(a: array<T>, lo: int, hi: int, less: (T, T) -> bool)
    requires StrictWeakOrder(less)
    requires 0 <= lo <= hi <= a.Length
    modifies a
    ensures SortedBetween(less, a[..], lo, hi)
    ensures Stable(less, old(a[lo..hi]), a[lo..hi])
    ensures multiset(a[lo..hi]) == multiset(old(a[lo..hi]))
    ensures a[..lo] == old(a[..lo]) && a[hi..] == old(a[hi..])
  {
    var i := lo;
    while i < hi
      invariant lo <= i <= hi
      invariant SortedBetween(less, a[..], lo, i)
      invariant Stable(less, old(a[lo..hi]), a[lo..hi])
      invariant a[..lo] == old(a[..lo]) && a[hi..] == old(a[hi..])
    {
      var value := a[i];
      ghost var s := a[..];
      var low, high := lo, i;
      while low < high
        invariant lo <= low <= high <= i
        invariant a[..] == s
        invariant Window(less, a[..], lo, i, low, high)
      {
        var middle := low + (high - low) / 2;
        WindowStep(less, a[..], lo, i, low, high);
        if less(a[i], a[middle]) {
          high := middle;
        } else {
          low := middle + 1;
        }
      }
      InsertionStep(less, old(a[lo..hi]), s, lo, hi, i, low);
      var j := i;
      while j > low
        invariant low <= j <= i
        invariant |s| == a.Length
        invariant forall m :: 0 <= m <= j || i < m < a.Length ==> a[m] == s[m]
        invariant forall m :: j < m <= i ==> a[m] == s[m - 1]
      {
        a[j] := a[j - 1];
        j := j - 1;
      }
      // The last step of the shift, `array[low] = array[low - 1]`, which reads
      // index -1 (the last element) when `low` is 0; the slot is overwritten next.
      a[low] := if low >= 1 then a[low - 1] else a[a.Length - 1];
      a[low] := value;
      assert a[..] == Inserted(s, low, i);
      i := i + 1;
    }
    StableIsPermutation(less, old(a[lo..hi]), a[lo..hi]);
  }

  /**
   * `sort`: `sort!` on a copy. The result is the input with its slice ordered
   * stably; the input itself is a value and is left as it was.
   */
  method Sort<T(!new)>(s: seq<T>, lo: int, hi: int, less: (T, T) -> bool) returns (r: seq<T>)
    requires StrictWeakOrder(less)
    requires 0 <= lo <= hi <= |s|
    ensures |r| == |s|
    ensures SortedBetween(less, r, lo, hi)
    ensures Stable(less, s[lo..hi], r[lo..hi])
    ensures multiset(r[lo..hi]) == multiset(s[lo..hi])
    ensures r[..lo] == s[..lo] && r[hi..] == s[hi..]
  {
    var copy := new T[|s|](k requires 0 <= k < |s| => s[k]);
    assert copy[..] == s;
    SortInPlace(copy, lo, hi, less);
    r := copy[..];
  }

  /**
   * Both insertion sorts produce the same array: a sorted, stable
   * rearrangement of a slice is unique.
   */
  method SortsAgree<T(!new)>(s: seq<T>, lo: int, hi: int, less: (T, T) -> bool) returns (r1: seq<T>, r2: seq<T>)
    requires StrictWeakOrder(less)
    requires 0 <= lo <= hi <= |s|
    ensures r1 == r2
  {
    r1 := Insertion.Sort(s, lo, hi, less);
    r2 := Sort(s, lo, hi, less);
    var m1, m2 := r1[lo..hi], r2[lo..hi];
    assert SortedBetween(less, m1, 0, |m1|) && SortedBetween(less, m2, 0, |m2|);
    StableTransitive(less, m1, s[lo..hi], m2) by {
      forall x
        ensures ClassOf(less, s[lo..hi], x) == ClassOf(less, m1, x)
      {
      }
    }
    SortedStableUnique(less, m1, m2);
    assert r1 == r1[..lo] + m1 + r1[hi..] && r2 == r2[..lo] + m2 + r2[hi..];
  }
}
