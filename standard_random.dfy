/**
 * The integer part of StandardRandom (standard_io_libraries/standard_random.rb):
 * Fisher-Yates shuffling of a sub-array, in place or on a copy, and drawing an
 * index with probability proportional to a table of frequencies.
 *
 * Every call of `uniform(n)` with an integer `n >= 1` returns an integer in
 * `0...n`; the model takes the values it returns as an input sequence of
 * draws, and the caller promises that each draw is in its range.
 */
module StandardRandom {
  import opened Errors
  import StandardStats

  /**
   * Draws for a Fisher-Yates pass over `n` positions: the `k`-th draw is
   * `uniform(n - k)`, so it lies in `0...n - k`.
   */
  predicate DrawsFit(d: seq<int>, n: int)
  {
    |d| >= n && forall k :: 0 <= k < n ==> 0 <= d[k] < n - k
  }

  /** Draws that fit `n` positions, minus the first, fit the remaining `n - 1`. */
  lemma DrawsFitTail(d: seq<int>, n: int)
    requires n > 0 && DrawsFit(d, n)
    ensures DrawsFit(d[1..], n - 1)
  {
    assert forall k :: 0 <= k < n - 1 ==> d[1..][k] == d[k + 1];
  }

  /**
   * What the loop of `shuffle!` does to `s` from position `i` up to (not
   * including) `hi`: position `i` swaps with `i + d[0]`, which lies in
   * `i...hi`, and the loop carries on at `i + 1` with the remaining draws.
   */
  function Shuffled<T>(s: seq<T>, i: int, hi: int, d: seq<int>): seq<T>
    requires 0 <= i <= hi <= |s| && DrawsFit(d, hi - i)
    decreases hi - i
  {
    if i == hi then s
    else
      DrawsFitTail(d, hi - i);
      Shuffled(s[i := s[i + d[0]]][i + d[0] := s[i]], i + 1, hi, d[1..])
  }

  /**
   * The shuffle rearranges only the sub-array: the result holds the same
   * elements, and every position before `i` or from `hi` on keeps its element.
   */
  lemma ShuffledPermutes<T>(s: seq<T>, i: int, hi: int, d: seq<int>)
    requires 0 <= i <= hi <= |s| && DrawsFit(d, hi - i)
    ensures |Shuffled(s, i, hi, d)| == |s|
    ensures multiset(Shuffled(s, i, hi, d)) == multiset(s)
    ensures multiset(Shuffled(s, i, hi, d)[i..hi]) == multiset(s[i..hi])
    ensures Shuffled(s, i, hi, d)[..i] == s[..i] && Shuffled(s, i, hi, d)[hi..] == s[hi..]
  {
    ShuffledOutside(s, i, hi, d);
    ShuffledSlice(s, i, hi, d);
    var r := Shuffled(s, i, hi, d);
    assert s == s[..i] + s[i..hi] + s[hi..];
    assert r == r[..i] + r[i..hi] + r[hi..];
  }

  /** The shuffle from `i` up to `hi` leaves the positions outside `i...hi` alone. */
  lemma {:induction false} ShuffledOutside<T>(s: seq<T>, i: int, hi: int, d: seq<int>)
    requires 0 <= i <= hi <= |s| && DrawsFit(d, hi - i)
    ensures |Shuffled(s, i, hi, d)| == |s|
    ensures Shuffled(s, i, hi, d)[..i] == s[..i] && Shuffled(s, i, hi, d)[hi..] == s[hi..]
    decreases hi - i
  {
    if i < hi {
      ShuffledStep(s, i, hi, d);
      var t := s[i := s[i + d[0]]][i + d[0] := s[i]];
      ShuffledOutside(t, i + 1, hi, d[1..]);
      SwapInSlice(s, i, hi, i + d[0]);
      var u := Shuffled(t, i + 1, hi, d[1..]);
      assert u[..i] == u[..i + 1][..i] && t[..i] == t[..i + 1][..i];
    }
  }

  /** The shuffle from `i` up to `hi` rearranges the elements of `i...hi`. */
  lemma {:induction false} ShuffledSlice<T>(s: seq<T>, i: int, hi: int, d: seq<int>)
    requires 0 <= i <= hi <= |s| && DrawsFit(d, hi - i)
    ensures |Shuffled(s, i, hi, d)| == |s|
    ensures multiset(Shuffled(s, i, hi, d)[i..hi]) == multiset(s[i..hi])
    decreases hi - i
  {
    ShuffledOutside(s, i, hi, d);
    if i < hi {
      ShuffledStep(s, i, hi, d);
      var t := s[i := s[i + d[0]]][i + d[0] := s[i]];
      ShuffledSlice(t, i + 1, hi, d[1..]);
      ShuffledOutside(t, i + 1, hi, d[1..]);
      SwapInSlice(s, i, hi, i + d[0]);
      PrefixExtends(Shuffled(t, i + 1, hi, d[1..]), t, i, hi);
    }
  }

  /**
   * Agreeing on `..i + 1` and holding the same elements on `i + 1...hi`
   * means agreeing on `..i` and holding the same elements on `i...hi`.
   */
  lemma PrefixExtends<T>(u: seq<T>, t: seq<T>, i: int, hi: int)
    requires 0 <= i < hi <= |t| && |u| == |t|
    requires u[..i + 1] == t[..i + 1] && multiset(u[i + 1..hi]) == multiset(t[i + 1..hi])
    ensures u[..i] == t[..i] && multiset(u[i..hi]) == multiset(t[i..hi])
  {
    assert u[i] == u[..i + 1][i];
    assert u[..i] == u[..i + 1][..i];
    assert u[i..hi] == [u[i]] + u[i + 1..hi];
    assert t[i..hi] == [t[i]] + t[i + 1..hi];
  }

  /** A swap within `i...hi` is a swap of the slice, and leaves the rest alone. */
  lemma SwapInSlice<T>(s: seq<T>, i: int, hi: int, j: int)
    requires 0 <= i <= j < hi <= |s|
    ensures s[i := s[j]][j := s[i]][i] == s[j]
    ensures multiset(s[i := s[j]][j := s[i]][i..hi]) == multiset(s[i..hi])
    ensures s[i := s[j]][j := s[i]][..i] == s[..i] && s[i := s[j]][j := s[i]][hi..] == s[hi..]
  {
  }

  /** One step of the shuffle from `i`, when `i` is inside the range. */
  lemma ShuffledStep<T>(s: seq<T>, i: int, hi: int, d: seq<int>)
    requires 0 <= i < hi <= |s| && DrawsFit(d, hi - i)
    ensures DrawsFit(d[1..], hi - i - 1)
    ensures Shuffled(s, i, hi, d) == Shuffled(s[i := s[i + d[0]]][i + d[0] := s[i]], i + 1, hi, d[1..])
  {
    DrawsFitTail(d, hi - i);
  }

  /** A draw for the first of `n` positions, followed by draws for the other `n - 1`. */
  lemma ConsDrawsFit(j: int, d: seq<int>, n: int)
    requires 0 <= j < n && DrawsFit(d, n - 1)
    ensures DrawsFit([j] + d, n) && ([j] + d)[1..] == d && ([j] + d)[0] == j
  {
    var e := [j] + d;
    forall k | 0 <= k < n
      ensures 0 <= e[k] < n - k
    {
      if k > 0 {
        assert e[k] == d[k - 1];
      }
    }
  }

  /** Some element of the range `i...hi` of `s` equals `t[i]`, when the two ranges hold the same elements. */
  lemma FindFirst<T>(s: seq<T>, t: seq<T>, i: int, hi: int) returns (j: int)
    requires 0 <= i < hi <= |s| && |t| == |s|
    requires multiset(t[i..hi]) == multiset(s[i..hi])
    ensures i <= j < hi && s[j] == t[i]
  {
    assert t[i] in multiset(s[i..hi]) by {
      assert t[i..hi][0] == t[i];
    }
    var m :| 0 <= m < hi - i && s[i..hi][m] == t[i];
    j := i + m;
  }

  /**
   * Once the first swap has brought `t[i]` to position `i`, the rest of the
   * target is a rearrangement of what is left of the range.
   */
  lemma TailsMatch<T>(s: seq<T>, t: seq<T>, u: seq<T>, i: int, hi: int)
    requires 0 <= i < hi <= |s| && |t| == |s| && |u| == |s|
    requires t[..i] == s[..i] && t[hi..] == s[hi..]
    requires multiset(t[i..hi]) == multiset(s[i..hi])
    requires u[..i] == s[..i] && u[hi..] == s[hi..] && u[i] == t[i]
    requires multiset(u[i..hi]) == multiset(s[i..hi])
    ensures u[..i + 1] == t[..i + 1] && u[hi..] == t[hi..]
    ensures multiset(t[i + 1..hi]) == multiset(u[i + 1..hi])
  {
    assert t[..i + 1] == t[..i] + [t[i]] && u[..i + 1] == u[..i] + [u[i]];
    DropFirst(s, t, u, i, hi);
  }

  /** Taking the same first element away from two rearrangements of a range leaves two rearrangements. */
  lemma DropFirst<T>(s: seq<T>, t: seq<T>, u: seq<T>, i: int, hi: int)
    requires 0 <= i < hi <= |s| && |t| == |s| && |u| == |s| && u[i] == t[i]
    requires multiset(t[i..hi]) == multiset(s[i..hi]) && multiset(u[i..hi]) == multiset(s[i..hi])
    ensures multiset(t[i + 1..hi]) == multiset(u[i + 1..hi])
  {
    assert u[i..hi] == [u[i]] + u[i + 1..hi];
    assert t[i..hi] == [t[i]] + t[i + 1..hi];
    assert multiset(u[i..hi]) == multiset([t[i]]) + multiset(u[i + 1..hi]);
    assert multiset(t[i..hi]) == multiset([t[i]]) + multiset(t[i + 1..hi]);
    assert multiset(t[i + 1..hi]) == multiset(t[i..hi]) - multiset([t[i]]);
    assert multiset(u[i + 1..hi]) == multiset(u[i..hi]) - multiset([t[i]]);
  }

  /** A first draw `j - i` followed by draws `d` that take `s` with `i` and `j` exchanged to `t` take `s` to `t`. */
  lemma ExtendDraws<T>(s: seq<T>, t: seq<T>, i: int, hi: int, j: int, d: seq<int>)
    requires 0 <= i <= j < hi <= |s| && DrawsFit(d, hi - i - 1)
    requires Shuffled(s[i := s[j]][j := s[i]], i + 1, hi, d) == t
    ensures DrawsFit([j - i] + d, hi - i) && Shuffled(s, i, hi, [j - i] + d) == t
  {
    ConsDrawsFit(j - i, d, hi - i);
    ShuffledStep(s, i, hi, [j - i] + d);
  }

  /** Draws that take `s` to the rearrangement `t`, built one position at a time. */
  lemma {:induction false} ReachingDraws<T>(s: seq<T>, t: seq<T>, i: int, hi: int) returns (d: seq<int>)
    requires 0 <= i <= hi <= |s| && |t| == |s|
    requires t[..i] == s[..i] && t[hi..] == s[hi..]
    requires multiset(t[i..hi]) == multiset(s[i..hi])
    ensures DrawsFit(d, hi - i) && Shuffled(s, i, hi, d) == t
    decreases hi - i
  {
    if i == hi {
      assert s == s[..i] + s[hi..] && t == t[..i] + t[hi..];
      d := [];
    } else {
      var j := FindFirst(s, t, i, hi);
      var u := s[i := s[j]][j := s[i]];
      SwapInSlice(s, i, hi, j);
      TailsMatch(s, t, u, i, hi);
      var rest := ReachingDraws(u, t, i + 1, hi);
      ExtendDraws(s, t, i, hi, j, rest);
      d := [j - i] + rest;
    }
  }

  /**
   * Every rearrangement of the sub-array `i...hi` that leaves the rest of
   * the array alone is the outcome of some sequence of in-range draws: no
   * arrangement is out of the shuffle's reach.
   */
  lemma ShuffleReachesEveryArrangement<T>(s: seq<T>, t: seq<T>, i: int, hi: int)
    requires 0 <= i <= hi <= |s| && |t| == |s|
    requires t[..i] == s[..i] && t[hi..] == s[hi..]
    requires multiset(t[i..hi]) == multiset(s[i..hi])
    ensures exists d :: DrawsFit(d, hi - i) && Shuffled(s, i, hi, d) == t
  {
    var d := ReachingDraws(s, t, i, hi);
  }

  /** Draws that are all 0 swap every element with itself. */
  lemma {:induction false} ZeroDrawsKeepOrder<T>(s: seq<T>, i: int, hi: int, d: seq<int>)
    requires 0 <= i <= hi <= |s| && DrawsFit(d, hi - i)
    requires forall k :: 0 <= k < hi - i ==> d[k] == 0
    ensures Shuffled(s, i, hi, d) == s
    decreases hi - i
  {
    if i < hi {
      ShuffledStep(s, i, hi, d);
      assert s[i := s[i]][i := s[i]] == s;
      assert forall k :: 0 <= k < hi - i - 1 ==> d[1..][k] == d[k + 1];
      ZeroDrawsKeepOrder(s, i + 1, hi, d[1..]);
    }
  }

  /** Agreeing before `lo` and from `hi` on is agreeing at every index outside `lo...hi`. */
  lemma OutsideUnchanged<T>(s: seq<T>, t: seq<T>, lo: int, hi: int)
    requires 0 <= lo <= hi <= |s| && |t| == |s|
    requires t[..lo] == s[..lo] && t[hi..] == s[hi..]
    ensures forall m :: 0 <= m < |s| && !(lo <= m < hi) ==> t[m] == s[m]
  {
    forall m | 0 <= m < |s| && !(lo <= m < hi)
      ensures t[m] == s[m]
    {
      if m < lo {
        assert t[m] == t[..lo][m];
      } else {
        assert t[m] == t[hi..][m - hi];
      }
    }
  }

  /**
   * The range check of `shuffle!` for the range `lo...hi` of an array of
   * `n` elements: a non-empty range fails when its least index is negative
   * or its greatest index is not an index of the array. An empty range has
   * no least or greatest index and always passes.
   */
  predicate RangeInvalid(n: int, lo: int, hi: int)
  {
    lo < hi && (lo < 0 || hi - 1 >= n)
  }

  /** The array `shuffle!` leaves behind for a range that passed its check. */
  function ShuffledRange<T>(s: seq<T>, lo: int, hi: int, d: seq<int>): seq<T>
    requires !RangeInvalid(|s|, lo, hi)
    requires lo < hi ==> DrawsFit(d, hi - lo)
  {
    if lo < hi then Shuffled(s, lo, hi, d) else s
  }

  /**
   * `shuffle!(array, lo...hi)`: RangeError, with the array untouched, for an
   * invalid range; otherwise, for each `i` of the range, swaps `array[i]`
   * with `array[i + draw]`, a partner in `i..hi - 1`. The array then holds a
   * rearrangement of its elements in which only the range has moved.
   */
  method ShuffleInPlace<T>(a: array<T>, lo: int, hi: int, draws: seq<int>) returns (o: Outcome)
    requires !RangeInvalid(a.Length, lo, hi) && lo < hi ==> DrawsFit(draws, hi - lo)
    modifies a
    ensures RangeInvalid(a.Length, lo, hi) ==> o == Fail(RangeError) && a[..] == old(a[..])
    ensures !RangeInvalid(a.Length, lo, hi) ==> o == Pass && a[..] == ShuffledRange(old(a[..]), lo, hi, draws)
    ensures multiset(a[..]) == multiset(old(a[..]))
    ensures forall m :: 0 <= m < a.Length && !(lo <= m < hi) ==> a[m] == old(a[m])
  {
    if lo < hi && lo < 0 {
      return Fail(RangeError);
    } else if lo < hi && hi - 1 >= a.Length {
      return Fail(RangeError);
    }
    if lo < hi {
      ghost var s := a[..];
      ShuffledPermutes(s, lo, hi, draws);
      SwapPass(a, lo, hi, draws);
      OutsideUnchanged(s, a[..], lo, hi);
    }
    return Pass;
  }

  /** The loop of `shuffle!` over a valid, non-empty range. */
  method SwapPass<T>(a: array<T>, lo: int, hi: int, draws: seq<int>)
    requires 0 <= lo < hi <= a.Length && DrawsFit(draws, hi - lo)
    modifies a
    ensures a[..] == Shuffled(old(a[..]), lo, hi, draws)
  {
    ghost var result := Shuffled(a[..], lo, hi, draws);
    ghost var rest := draws;
    var i := lo;
    while i < hi
      invariant lo <= i <= hi && |rest| == |draws| - (i - lo)
      invariant DrawsFit(rest, hi - i) && Shuffled(a[..], i, hi, rest) == result
      invariant forall k :: 0 <= k < |rest| ==> rest[k] == draws[i - lo + k]
    {
      assert rest[0] == draws[i - lo];
      var r := i + draws[i - lo];
      ShuffledStep(a[..], i, hi, rest);
      ghost var s := a[..];
      var temp := a[i];
      a[i] := a[r];
      a[r] := temp;
      assert a[..] == s[i := s[r]][r := s[i]];
      rest := rest[1..];
      i := i + 1;
    }
  }

  /**
   * `shuffle(array, lo...hi)`: `shuffle!` on a copy. The argument is a value
   * and stays as it was; the copy is shuffled, or RangeError is returned.
   */
  method Shuffle<T>(s: seq<T>, lo: int, hi: int, draws: seq<int>) returns (r: Result<seq<T>>)
    requires !RangeInvalid(|s|, lo, hi) && lo < hi ==> DrawsFit(draws, hi - lo)
    ensures RangeInvalid(|s|, lo, hi) <==> r.Err?
    ensures r.Err? ==> r.error == RangeError
    ensures r.Ok? ==> r.value == ShuffledRange(s, lo, hi, draws)
    ensures r.Ok? ==> |r.value| == |s| && multiset(r.value) == multiset(s)
    ensures r.Ok? ==> forall m :: 0 <= m < |s| && !(lo <= m < hi) ==> r.value[m] == s[m]
  {
    var copy := new T[|s|](k requires 0 <= k < |s| => s[k]);
    assert copy[..] == s;
    var o := ShuffleInPlace(copy, lo, hi, draws);
    if o.Fail? {
      return Err(o.error);
    }
    return Ok(copy[..]);
  }

  /**
   * `fail_if_has_negative_elements`: ArgumentError exactly when some entry
   * is negative (the first one `find_index` meets).
   */
  function FailIfHasNegativeElements(s: seq<int>): (o: Outcome)
    ensures o.Fail? <==> exists k :: 0 <= k < |s| && s[k] < 0
    ensures o.Fail? ==> o.error == ArgumentError
  {
    if |s| == 0 then Pass
    else if s[0] < 0 then Fail(ArgumentError)
    else
      var rest := FailIfHasNegativeElements(s[1..]);
      assert forall k :: 1 <= k < |s| ==> s[k] == s[1..][k - 1];
      rest
  }

  /**
   * `fail_unless_has_non_zero_elements`: ArgumentError exactly when no entry
   * is non-zero, which includes the empty array.
   */
  function FailUnlessHasNonZeroElements(s: seq<int>): (o: Outcome)
    ensures o.Pass? <==> exists k :: 0 <= k < |s| && s[k] != 0
    ensures o.Fail? ==> o.error == ArgumentError
  {
    if |s| == 0 then Fail(ArgumentError)
    else if s[0] != 0 then Pass
    else
      var rest := FailUnlessHasNonZeroElements(s[1..]);
      assert forall k :: 1 <= k < |s| ==> s[k] == s[1..][k - 1];
      rest
  }

  /** Both checks of `discrete_frequencies` pass. */
  predicate FrequenciesValid(f: seq<int>)
  {
    FailIfHasNegativeElements(f).Pass? && FailUnlessHasNonZeroElements(f).Pass?
  }

  /** The running sum of the first `k` frequencies. */
  function RunningSum(f: seq<int>, k: int): int
    requires 0 <= k <= |f|
  {
    StandardStats.Inject(f[..k])
  }

  /** The running sum over all the frequencies is their total. */
  lemma RunningSumWhole(f: seq<int>)
    ensures RunningSum(f, |f|) == StandardStats.Inject(f)
  {
    assert f[..|f|] == f;
  }

  /**
   * `discrete_frequencies(frequencies)`: ArgumentError when an entry is
   * negative or none is non-zero; otherwise, with `draw = uniform(sum)` in
   * `0...sum`, the first index at which the running sum of the frequencies
   * exceeds the draw. That index has a positive frequency.
   */
  method DiscreteFrequencies(f: seq<int>, draw: int) returns (r: Result<nat>)
    requires FrequenciesValid(f) ==> 0 <= draw < StandardStats.Inject(f)
    ensures r.Err? <==> (exists k :: 0 <= k < |f| && f[k] < 0) || (forall k :: 0 <= k < |f| ==> f[k] == 0)
    ensures r.Err? ==> r.error == ArgumentError
    ensures r.Ok? ==> r.value < |f| && f[r.value] > 0
    ensures r.Ok? ==> RunningSum(f, r.value) <= draw < RunningSum(f, r.value + 1)
    ensures r.Ok? ==> forall k :: 0 < k <= r.value ==> RunningSum(f, k) <= draw
    ensures forall j :: 0 <= j < |f| && f[j] > 0 && (forall k :: 0 <= k < |f| && k != j ==> f[k] == 0) ==> r.Ok? && r.value == j
  {
    var o := FailIfHasNegativeElements(f);
    if o.Fail? {
      return Err(o.error);
    }
    o := FailUnlessHasNonZeroElements(f);
    if o.Fail? {
      return Err(o.error);
    }
    var sum := 0;
    var index := 0;
    while index < |f|
      invariant 0 <= index <= |f|
      invariant sum == StandardStats.Inject(f[..index]) && sum <= draw
      invariant forall k :: 0 < k <= index ==> RunningSum(f, k) <= draw
    {
      assert f[..index + 1][..index] == f[..index];
      sum := sum + f[index];
      if sum > draw {
        return Ok(index);
      }
      index := index + 1;
    }
    RunningSumWhole(f);
    assert false;
  }
}
