/**
 * Counting zero-sum triples by sorting and binary search
 * (fundamentals/three_sum_fast.rb).
 */
module ThreeSumFast {
  import opened Errors
  import BinarySearch
  import ThreeSum
  import Insertion
  import SortOrder

  /**
   * The pairs `i < j`, with `j` from `j0` on, for which the binary search for
   * `-(s[i] + s[j])` lands beyond `j`.
   */
  function PairHits(s: seq<int>, i: int, j0: int): nat
    requires 0 <= i < |s| && 0 <= j0
    decreases |s| - j0
  {
    if j0 >= |s| then 0 else Hit(s, -(s[i] + s[j0]), j0) + PairHits(s, i, j0 + 1)
  }

  /** 1 when `index_of(s, y)` is beyond `j`, else 0. */
  function Hit(s: seq<int>, y: int, j: int): nat
  {
    if BinarySearch.Search(s, y, 0, |s| - 1) > j then 1 else 0
  }

  /** The same count for every `i` from `i0` on. */
  function Hits(s: seq<int>, i0: int): nat
    requires 0 <= i0
    decreases |s| - i0
  {
    if i0 >= |s| then 0 else PairHits(s, i0, i0 + 1) + Hits(s, i0 + 1)
  }

  /** What `count` returns for an already sorted array `s`. */
  function FastCount(s: seq<int>): nat
  {
    Hits(s, 0)
  }

  /** No value occurs twice. */
  predicate Distinct(s: seq<int>)
  {
    forall p, q :: 0 <= p < q < |s| ==> s[p] != s[q]
  }

  /**
   * Ruby's `Array#sort!` on integers, modelled by the library's insertion
   * sort: the array ends up non-decreasing with the same elements (a sorted
   * rearrangement of integers is unique, so any sort gives this result).
   */
  method SortIntegersInPlace(a: array<int>)
    modifies a
    ensures BinarySearch.Sorted(a[..]) && multiset(a[..]) == multiset(old(a[..]))
  {
    SortOrder.IntLessIsStrictWeakOrder();
    Insertion.SortInPlace(a, 0, a.Length, SortOrder.IntLess);
    assert a[0..a.Length] == a[..] && old(a[0..a.Length]) == old(a[..]);
  }

  /**
   * `count`: sorts the caller's array in place, then counts the pairs
   * `i < j` whose search result is beyond `j`.
   */
  method Count(a: array<int>) returns (count: nat)
    modifies a
    ensures BinarySearch.Sorted(a[..]) && multiset(a[..]) == multiset(old(a[..]))
    ensures count == FastCount(a[..])
  {
    var n := a.Length;
    SortIntegersInPlace(a);
    ghost var s := a[..];
    count := 0;
    var i := 0;
    while i < n
      invariant 0 <= i <= n && a[..] == s
      invariant count + Hits(s, i) == Hits(s, 0)
    {
      ghost var before := count;
      var j := i + 1;
      while j < n
        invariant i + 1 <= j <= n && a[..] == s
        invariant count + PairHits(s, i, j) == before + PairHits(s, i, i + 1)
      {
        var k := BinarySearch.IndexOf(a[..], -(a[i] + a[j]));
        if k > j {
          count := count + 1;
        }
        j := j + 1;
      }
      i := i + 1;
    }
  }

  /** Each `i` contributes at most one hit per later `j`. */
  lemma {:induction false} PairHitsBound(s: seq<int>, i: int, j0: int)
    requires 0 <= i < |s| && 0 <= j0 <= |s|
    ensures PairHits(s, i, j0) <= |s| - j0
    decreases |s| - j0
  {
    if j0 < |s| {
      PairHitsBound(s, i, j0 + 1);
    }
  }

  /** The number of pairs `i < j` among `m` indices, counted one `i` at a time. */
  function PairsAmong(m: nat): nat
  {
    if m == 0 then 0 else (m - 1) + PairsAmong(m - 1)
  }

  /** The closed form `m * (m - 1) / 2`. */
  lemma {:induction false} PairsAmongClosedForm(m: nat)
    ensures 2 * PairsAmong(m) == m * (m - 1)
  {
    if m > 0 {
      PairsAmongClosedForm(m - 1);
      assert m * (m - 1) == (m - 1) * (m - 2) + 2 * (m - 1);
    }
  }

  /** The count is at most the number of pairs `i < j` from `i0` on. */
  lemma {:induction false} HitsBound(s: seq<int>, i0: int)
    requires 0 <= i0 <= |s|
    ensures Hits(s, i0) <= PairsAmong(|s| - i0)
    decreases |s| - i0
  {
    if i0 < |s| {
      PairHitsBound(s, i0, i0 + 1);
      HitsBound(s, i0 + 1);
    }
  }

  /** `count` returns a number in `[0, n * (n - 1) / 2]`. */
  lemma FastCountBound(s: seq<int>)
    ensures 2 * FastCount(s) <= |s| * (|s| - 1)
  {
    HitsBound(s, 0);
    PairsAmongClosedForm(|s|);
  }

  /** In a sequence without repeated values a value occurs at most once. */
  lemma {:induction false} OccurrencesDistinct(t: seq<int>, y: int)
    requires Distinct(t)
    ensures ThreeSum.Occurrences(t, y) <= 1
  {
    if |t| > 0 {
      var init := t[..|t| - 1];
      OccurrencesDistinct(init, y);
      if t[|t| - 1] == y {
        ThreeSum.OccurrencesPositive(init, y);
      }
    }
  }

  /**
   * On a sorted array without repeated values, the search for `y` lands
   * beyond `j` exactly when `y` occurs after `j`.
   */
  lemma HitIsOccurrence(s: seq<int>, j: int, y: int)
    requires BinarySearch.Sorted(s) && Distinct(s) && 0 <= j < |s|
    ensures Hit(s, y, j) == ThreeSum.Occurrences(s[j + 1..], y)
  {
    var r := BinarySearch.Search(s, y, 0, |s| - 1);
    var t := s[j + 1..];
    ThreeSum.OccurrencesPositive(t, y);
    OccurrencesDistinct(t, y);
    BinarySearch.SearchResult(s, y, 0, |s| - 1);
    assert forall k :: j < k < |s| ==> s[k] == t[k - j - 1];
    if y in t {
      var k :| 0 <= k < |t| && t[k] == y;
      BinarySearch.SearchFindsPresentKey(s, y, 0, |s| - 1, j + 1 + k);
      assert s[r] == s[j + 1 + k];
      assert r == j + 1 + k;
    } else {
      assert r <= j;
    }
  }

  /**
   * For one `i`, the hit count is the pair count of the suffix after `j0`,
   * once every hit from `j0` on is known to be an occurrence count.
   */
  lemma {:induction false} PairHitsArePairs(s: seq<int>, i: int, j0: int)
    requires 0 <= i < j0 <= |s|
    requires forall j :: j0 <= j < |s| ==> Hit(s, -(s[i] + s[j]), j) == ThreeSum.Occurrences(s[j + 1..], -s[i] - s[j])
    ensures PairHits(s, i, j0) == ThreeSum.PairsSumming(s[j0..], -s[i])
    decreases |s| - j0
  {
    if j0 < |s| {
      PairHitsArePairs(s, i, j0 + 1);
      ThreeSum.PairsStep(s, j0, -s[i]);
    }
  }

  /** Every search from `i0` on hits exactly when the value occurs after `j`. */
  ghost predicate HitsAreOccurrences(s: seq<int>, i0: int)
    requires 0 <= i0
  {
    forall i, j :: i0 <= i < j < |s| ==> Hit(s, -(s[i] + s[j]), j) == ThreeSum.Occurrences(s[j + 1..], -s[i] - s[j])
  }

  /** From `i0` on, the hit count is the triple count of the suffix. */
  lemma {:induction false} HitsAreTriples(s: seq<int>, i0: int)
    requires 0 <= i0 <= |s| && HitsAreOccurrences(s, i0)
    ensures Hits(s, i0) == ThreeSum.ZeroTriples(s[i0..])
    decreases |s| - i0
  {
    if i0 < |s| {
      HitsAreTriples(s, i0 + 1);
      PairHitsArePairs(s, i0, i0 + 1);
      ThreeSum.TriplesStep(s, i0);
    }
  }

  /**
   * For a sorted array of distinct numbers, the fast count equals the
   * brute-force count of zero-sum triples.
   */
  lemma FastCountIsThreeSum(s: seq<int>)
    requires BinarySearch.Sorted(s) && Distinct(s)
    ensures FastCount(s) == ThreeSum.ZeroTriples(s)
  {
    forall i, j | 0 <= i < j < |s|
      ensures Hit(s, -(s[i] + s[j]), j) == ThreeSum.Occurrences(s[j + 1..], -s[i] - s[j])
    {
      HitIsOccurrence(s, j, -(s[i] + s[j]));
    }
    HitsAreTriples(s, 0);
    assert s[0..] == s;
  }

  /**
   * With a repeated value the fast count misses triples: `[0, 0, 0]` holds
   * one zero-sum triple, yet every search for 0 lands on the middle index 1,
   * which is never beyond `j`.
   */
  lemma RepeatedValuesUndercount()
    ensures ThreeSum.ZeroTriples([0, 0, 0]) == 1
    ensures FastCount([0, 0, 0]) == 0
  {
    var s := [0, 0, 0];
    assert BinarySearch.Search(s, 0, 0, 2) == 1;
    assert s[1..] == [0, 0] && [0, 0][1..] == [0] && [0][..0] == [] && [0, 0][..1] == [0];
    ThreeSum.PairsSummingShort([0], 0);
    ThreeSum.ZeroTriplesShort([0, 0]);
    assert ThreeSum.PairsSumming([0, 0], 0) == 1;
    assert PairHits(s, 0, 1) == 0;
    assert PairHits(s, 1, 2) == 0;
    assert Hits(s, 2) == 0;
  }

  /** On a sorted sequence, a value repeats exactly when two neighbours are equal. */
  method HasAdjacentDuplicate(s: seq<int>) returns (b: bool)
    requires BinarySearch.Sorted(s)
    ensures b <==> !Distinct(s)
  {
    var i := 1;
    while i < |s|
      invariant 1 <= i <= |s| || |s| == 0
      invariant forall p, q :: 0 <= p < q < i && q < |s| ==> s[p] < s[q]
    {
      if s[i] == s[i - 1] {
        return true;
      }
      i := i + 1;
    }
    return false;
  }

  /**
   * The count the documentation promises, with the duplicate check of the
   * algorithm's original formulation: ArgumentError when a value repeats,
   * otherwise the number of zero-sum triples of the (sorted) array.
   */
  method CountDistinct(a: array<int>) returns (r: Result<nat>)
    modifies a
    ensures BinarySearch.Sorted(a[..]) && multiset(a[..]) == multiset(old(a[..]))
    ensures r.Err? <==> !Distinct(a[..])
    ensures r.Err? ==> r.error == ArgumentError
    ensures r.Ok? ==> r.value == ThreeSum.ZeroTriples(a[..])
  {
    var count := Count(a);
    var repeated := HasAdjacentDuplicate(a[..]);
    if repeated {
      return Err(ArgumentError);
    }
    FastCountIsThreeSum(a[..]);
    return Ok(count);
  }
}
