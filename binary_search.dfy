/**
 * Binary search for a key in an array of integers
 * (fundamentals/binary_search.rb).
 */
module BinarySearch {

  /** Non-decreasing order, the order `index_of` assumes of its array. */
  predicate Sorted(a: seq<int>)
  {
    forall p, q :: 0 <= p < q < |a| ==> a[p] <= a[q]
  }

  /**
   * The search the loop of `index_of` performs on the window `low..high`
   * (both inclusive): -1 when the window closes, otherwise the first probed
   * middle that holds the key.
   */
  function Search(a: seq<int>, key: int, low: int, high: int): int
    requires 0 <= low && high < |a|
    decreases high - low + 1
  {
    if low > high then -1
    else
      var middle := low + (high - low) / 2;
      if key < a[middle] then Search(a, key, low, middle - 1)
      else if key > a[middle] then Search(a, key, middle + 1, high)
      else middle
  }

  /** Whatever the search returns is -1 or an index of the window that holds the key. */
  lemma {:induction false} SearchResult(a: seq<int>, key: int, low: int, high: int)
    requires 0 <= low && high < |a|
    ensures var r := Search(a, key, low, high); r == -1 || (low <= r <= high && a[r] == key)
    decreases high - low + 1
  {
    if low <= high {
      var middle := low + (high - low) / 2;
      if key < a[middle] {
        SearchResult(a, key, low, middle - 1);
      } else if key > a[middle] {
        SearchResult(a, key, middle + 1, high);
      }
    }
  }

  /**
   * On a sorted array the search misses only absent keys: a key that occurs
   * in the window is found.
   */
  lemma {:induction false} SearchFindsPresentKey(a: seq<int>, key: int, low: int, high: int, k: int)
    requires 0 <= low && high < |a|
    requires Sorted(a)
    requires low <= k <= high && a[k] == key
    ensures Search(a, key, low, high) != -1
    decreases high - low
  {
    var middle := low + (high - low) / 2;
    if key < a[middle] {
      SearchFindsPresentKey(a, key, low, middle - 1, k);
    } else if key > a[middle] {
      SearchFindsPresentKey(a, key, middle + 1, high, k);
    }
  }

  /**
   * `index_of`: on a sorted array, -1 exactly when the key is absent (so -1 for
   * an empty array); a non-negative result is an index holding the key. With
   * duplicates any matching index may come back.
   */
  method IndexOf(a: seq<int>, key: int) returns (r: int)
    ensures r == Search(a, key, 0, |a| - 1)
    ensures r == -1 || (0 <= r < |a| && a[r] == key)
    ensures Sorted(a) ==> (r == -1 <==> key !in a)
  {
    var low := 0;
    var high := |a| - 1;
    while low <= high
      invariant 0 <= low && high < |a|
      invariant Search(a, key, low, high) == Search(a, key, 0, |a| - 1)
      invariant Sorted(a) && key in a ==> exists k :: low <= k <= high && a[k] == key
      decreases high - low
    {
      var middle := low + (high - low) / 2;
      if key < a[middle] {
        high := middle - 1;
      } else if key > a[middle] {
        low := middle + 1;
      } else {
        SearchResult(a, key, 0, |a| - 1);
        return middle;
      }
    }
    r := -1;
  }

  /**
   * The tests' examples: in `[1, 2, 3, 4, 5]` the absent key 7 gives -1 and
   * the key 3 its index 2; in `[1, 2, 3, 4, 5, 5]` the key 5 gives one of
   * its two indices.
   */
  method Examples() returns (missing: int, found: int, repeated: int)
    ensures missing == -1 && found == 2 && (repeated == 4 || repeated == 5)
  {
    missing := IndexOf([1, 2, 3, 4, 5], 7);
    found := IndexOf([1, 2, 3, 4, 5], 3);
    repeated := IndexOf([1, 2, 3, 4, 5, 5], 5);
  }
}
