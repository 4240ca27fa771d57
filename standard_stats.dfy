/**
 * The deterministic part of StandardStats (standard_io_libraries/standard_stats.rb):
 * the minimum, maximum and sum of a sub-array `array[low..high]` (both ends
 * inclusive) of integers.
 */
module StandardStats {
  import opened Errors

  /** An integer, or one of the float infinities `min` and `max` return for an empty array. */
  datatype Extended = NegInfinity | Finite(n: int) | PosInfinity

  /** The smallest element of a non-empty sequence (Ruby's Array#min). */
  function SeqMin(s: seq<int>): (m: int)
    requires |s| > 0
    ensures m in s
    ensures forall k :: 0 <= k < |s| ==> m <= s[k]
  {
    if |s| == 1 then s[0]
    else
      var rest := SeqMin(s[1..]);
      if s[0] <= rest then s[0] else rest
  }

  /** The largest element of a non-empty sequence (Ruby's Array#max). */
  function SeqMax(s: seq<int>): (m: int)
    requires |s| > 0
    ensures m in s
    ensures forall k :: 0 <= k < |s| ==> s[k] <= m
  {
    if |s| == 1 then s[0]
    else
      var rest := SeqMax(s[1..]);
      if s[0] >= rest then s[0] else rest
  }

  /** `inject(0, :+)`: a left fold of addition starting from 0. */
  function Inject(s: seq<int>): int
  {
    if |s| == 0 then 0 else Inject(s[..|s| - 1]) + s[|s| - 1]
  }

  /** The sum of a sequence, as a right fold (the reference definition). */
  function Total(s: seq<int>): int
  {
    if |s| == 0 then 0 else s[0] + Total(s[1..])
  }

  /** Total distributes over concatenation. */
  lemma {:induction false} TotalAppend(s: seq<int>, t: seq<int>)
    ensures Total(s + t) == Total(s) + Total(t)
  {
    if |s| == 0 {
      assert s + t == t;
    } else {
      assert (s + t)[1..] == s[1..] + t;
      TotalAppend(s[1..], t);
    }
  }

  /** The left fold that `inject` performs computes the sum of the elements. */
  lemma {:induction false} InjectIsTotal(s: seq<int>)
    ensures Inject(s) == Total(s)
  {
    if |s| > 0 {
      var init := s[..|s| - 1];
      InjectIsTotal(init);
      TotalAppend(init, [s[|s| - 1]]);
      assert init + [s[|s| - 1]] == s;
    }
  }

  /** True when `low..high` is a valid inclusive sub-range of a non-empty array. */
  predicate ValidRange(a: seq<int>, low: int, high: int)
  {
    0 <= low <= high < |a|
  }

  /**
   * `min`: +infinity for an empty array (before any range check);
   * RangeError for an invalid range; otherwise an element of the sub-array
   * that is at most every element of it.
   */
  function Min(a: seq<int>, low: int, high: int): (r: Result<Extended>)
    ensures |a| == 0 ==> r == Ok(PosInfinity)
    ensures |a| > 0 && !ValidRange(a, low, high) ==> r == Err(RangeError)
    ensures |a| > 0 && ValidRange(a, low, high) ==>
      r.Ok? && r.value.Finite? && r.value.n in a[low..high + 1] &&
      forall k :: low <= k <= high ==> r.value.n <= a[k]
  {
    if |a| == 0 then Ok(PosInfinity)
    else if low < 0 || high >= |a| || low > high then Err(RangeError)
    else
      var m := SeqMin(a[low..high + 1]);
      assert forall k :: low <= k <= high ==> a[k] == a[low..high + 1][k - low];
      Ok(Finite(m))
  }

  /**
   * `max`: -infinity for an empty array (before any range check);
   * RangeError for an invalid range; otherwise an element of the sub-array
   * that is at least every element of it.
   */
  function Max(a: seq<int>, low: int, high: int): (r: Result<Extended>)
    ensures |a| == 0 ==> r == Ok(NegInfinity)
    ensures |a| > 0 && !ValidRange(a, low, high) ==> r == Err(RangeError)
    ensures |a| > 0 && ValidRange(a, low, high) ==>
      r.Ok? && r.value.Finite? && r.value.n in a[low..high + 1] &&
      forall k :: low <= k <= high ==> a[k] <= r.value.n
  {
    if |a| == 0 then Ok(NegInfinity)
    else if low < 0 || high >= |a| || low > high then Err(RangeError)
    else
      var m := SeqMax(a[low..high + 1]);
      assert forall k :: low <= k <= high ==> a[k] == a[low..high + 1][k - low];
      Ok(Finite(m))
  }

  /**
   * `sum`: 0 for an empty array (before any range check); RangeError for an
   * invalid range; otherwise the sum of `a[low..high]` computed by a left fold.
   */
  function Sum(a: seq<int>, low: int, high: int): (r: Result<int>)
    ensures |a| == 0 ==> r == Ok(0)
    ensures |a| > 0 && !ValidRange(a, low, high) ==> r == Err(RangeError)
  {
    if |a| == 0 then Ok(0)
    else if low < 0 || high >= |a| || low > high then Err(RangeError)
    else Ok(Inject(a[low..high + 1]))
  }

  /** On a valid range, `sum` is the sum of the sub-array. */
  lemma SumIsTotal(a: seq<int>, low: int, high: int)
    requires ValidRange(a, low, high)
    ensures Sum(a, low, high) == Ok(Total(a[low..high + 1]))
  {
    InjectIsTotal(a[low..high + 1]);
  }

  /** With the default range `0..size-1`, `sum` covers the whole array. */
  lemma SumDefaultRange(a: seq<int>)
    ensures Sum(a, 0, |a| - 1) == Ok(Total(a))
  {
    if |a| > 0 {
      assert a[0..|a| - 1 + 1] == a;
      SumIsTotal(a, 0, |a| - 1);
    }
  }

  /** Sums over adjacent sub-ranges add up. */
  lemma SumSplit(a: seq<int>, low: int, mid: int, high: int)
    requires 0 <= low <= mid < high < |a|
    ensures Sum(a, low, high).Ok? && Sum(a, low, mid).Ok? && Sum(a, mid + 1, high).Ok?
    ensures Sum(a, low, high).value == Sum(a, low, mid).value + Sum(a, mid + 1, high).value
  {
    SumIsTotal(a, low, high);
    SumIsTotal(a, low, mid);
    SumIsTotal(a, mid + 1, high);
    assert a[low..high + 1] == a[low..mid + 1] + a[mid + 1..high + 1];
    TotalAppend(a[low..mid + 1], a[mid + 1..high + 1]);
  }
}
