/**
 * Brute-force count of the triples that sum to zero
 * (fundamentals/three_sum.rb).
 */
module ThreeSum {

  /** How many times `y` occurs in `t`. */
  function Occurrences(t: seq<int>, y: int): nat
  {
    if |t| == 0 then 0
    else Occurrences(t[..|t| - 1], y) + (if t[|t| - 1] == y then 1 else 0)
  }

  /**
   * The number of index pairs `j < k` of `t` with `t[j] + t[k] == x`,
   * counted by choosing the first element of the pair and then the second.
   */
  function PairsSumming(t: seq<int>, x: int): nat
  {
    if |t| == 0 then 0 else Occurrences(t[1..], x - t[0]) + PairsSumming(t[1..], x)
  }

  /**
   * The number of index triples `i < j < k` of `s` whose elements sum to 0,
   * counted by choosing the first element of the triple and then a pair after it.
   */
  function ZeroTriples(s: seq<int>): nat
  {
    if |s| == 0 then 0 else PairsSumming(s[1..], -s[0]) + ZeroTriples(s[1..])
  }

  /** A sequence with fewer than two elements holds no pair. */
  lemma PairsSummingShort(t: seq<int>, x: int)
    requires |t| < 2
    ensures PairsSumming(t, x) == 0
  {
    if |t| == 1 {
      assert t[1..] == [];
    }
  }

  /** An array with fewer than three elements holds no triple (the tests' small cases). */
  lemma {:induction false} ZeroTriplesShort(s: seq<int>)
    requires |s| < 3
    ensures ZeroTriples(s) == 0
  {
    if |s| > 0 {
      PairsSummingShort(s[1..], -s[0]);
      ZeroTriplesShort(s[1..]);
    }
  }

  /** A value occurs a positive number of times exactly when it is an element. */
  lemma {:induction false} OccurrencesPositive(t: seq<int>, y: int)
    ensures Occurrences(t, y) > 0 <==> y in t
  {
    if |t| > 0 {
      var init := t[..|t| - 1];
      OccurrencesPositive(init, y);
      assert t == init + [t[|t| - 1]];
    }
  }

  /** Some index pair `j < k` of `t` sums to `x`. */
  predicate HasPair(t: seq<int>, x: int)
  {
    exists j, k :: 0 <= j < k < |t| && t[j] + t[k] == x
  }

  /** The pair `j < k` of `t` sums to `x`. */
  lemma PairAt(t: seq<int>, x: int, j: int, k: int)
    requires 0 <= j < k < |t| && t[j] + t[k] == x
    ensures HasPair(t, x)
  {
  }

  /** Some pair `j < k` of `t` sums to `x` exactly when the pair count is positive. */
  lemma PairsSummingPositive(t: seq<int>, x: int)
    ensures PairsSumming(t, x) > 0 <==> HasPair(t, x)
  {
    CountedPairsExist(t, x);
    PairsAreCounted(t, x);
  }

  /** A positive pair count means some pair sums to `x`. */
  lemma {:induction false} CountedPairsExist(t: seq<int>, x: int)
    ensures PairsSumming(t, x) > 0 ==> HasPair(t, x)
  {
    if |t| > 0 && PairsSumming(t, x) > 0 {
      var rest := t[1..];
      if Occurrences(rest, x - t[0]) > 0 {
        OccurrencesPositive(rest, x - t[0]);
        var k :| 0 <= k < |rest| && rest[k] == x - t[0];
        PairAt(t, x, 0, k + 1);
      } else {
        CountedPairsExist(rest, x);
        var j, k :| 0 <= j < k < |rest| && rest[j] + rest[k] == x;
        PairAt(t, x, j + 1, k + 1);
      }
    }
  }

  /** A pair that sums to `x` is counted. */
  lemma {:induction false} PairsAreCounted(t: seq<int>, x: int)
    ensures HasPair(t, x) ==> PairsSumming(t, x) > 0
  {
    if HasPair(t, x) {
      var rest := t[1..];
      var j, k :| 0 <= j < k < |t| && t[j] + t[k] == x;
      if j == 0 {
        assert rest[k - 1] == x - t[0];
        OccurrencesPositive(rest, x - t[0]);
      } else {
        PairAt(rest, x, j - 1, k - 1);
        PairsAreCounted(rest, x);
      }
    }
  }

  /** Some index triple `i < j < k` of `s` sums to 0. */
  predicate HasZeroTriple(s: seq<int>)
  {
    exists i, j, k :: 0 <= i < j < k < |s| && s[i] + s[j] + s[k] == 0
  }

  /** The triple `i < j < k` of `s` sums to 0. */
  lemma TripleAt(s: seq<int>, i: int, j: int, k: int)
    requires 0 <= i < j < k < |s| && s[i] + s[j] + s[k] == 0
    ensures HasZeroTriple(s)
  {
  }

  /** A triple of the tail, shifted by one, is a triple of the whole. */
  lemma ZeroTripleOfTail(s: seq<int>)
    requires |s| > 0 && HasZeroTriple(s[1..])
    ensures HasZeroTriple(s)
  {
    var rest := s[1..];
    var i, j, k :| 0 <= i < j < k < |rest| && rest[i] + rest[j] + rest[k] == 0;
    assert rest[i] == s[i + 1] && rest[j] == s[j + 1] && rest[k] == s[k + 1];
    TripleAt(s, i + 1, j + 1, k + 1);
  }

  /** A triple of `s` starts at the head, or lies in the tail. */
  lemma ZeroTripleSplit(s: seq<int>)
    requires HasZeroTriple(s)
    ensures HasPair(s[1..], -s[0]) || HasZeroTriple(s[1..])
  {
    var rest := s[1..];
    var i, j, k :| 0 <= i < j < k < |s| && s[i] + s[j] + s[k] == 0;
    if i == 0 {
      assert rest[j - 1] == s[j] && rest[k - 1] == s[k];
      PairAt(rest, -s[0], j - 1, k - 1);
    } else {
      assert rest[i - 1] == s[i] && rest[j - 1] == s[j] && rest[k - 1] == s[k];
      TripleAt(rest, i - 1, j - 1, k - 1);
    }
  }

  /** The count is positive exactly when some triple `i < j < k` of `s` sums to 0. */
  lemma ZeroTriplesPositive(s: seq<int>)
    ensures ZeroTriples(s) > 0 <==> HasZeroTriple(s)
  {
    CountedTriplesExist(s);
    TriplesAreCounted(s);
  }

  /** A positive count means some triple sums to 0. */
  lemma {:induction false} CountedTriplesExist(s: seq<int>)
    ensures ZeroTriples(s) > 0 ==> HasZeroTriple(s)
  {
    if |s| > 0 && ZeroTriples(s) > 0 {
      var rest := s[1..];
      if PairsSumming(rest, -s[0]) > 0 {
        PairsSummingPositive(rest, -s[0]);
        var j, k :| 0 <= j < k < |rest| && rest[j] + rest[k] == -s[0];
        assert rest[j] == s[j + 1] && rest[k] == s[k + 1];
        TripleAt(s, 0, j + 1, k + 1);
      } else {
        CountedTriplesExist(rest);
        ZeroTripleOfTail(s);
      }
    }
  }

  /** A triple that sums to 0 is counted. */
  lemma {:induction false} TriplesAreCounted(s: seq<int>)
    ensures HasZeroTriple(s) ==> ZeroTriples(s) > 0
  {
    if HasZeroTriple(s) {
      var rest := s[1..];
      ZeroTripleSplit(s);
      if HasPair(rest, -s[0]) {
        PairsSummingPositive(rest, -s[0]);
      } else {
        TriplesAreCounted(rest);
      }
    }
  }

  /** Extending a window by one element counts that element once more, if it matches. */
  lemma OccurrencesStep(a: seq<int>, lo: int, hi: int, y: int)
    requires 0 <= lo <= hi < |a|
    ensures Occurrences(a[lo..hi + 1], y) == Occurrences(a[lo..hi], y) + (if a[hi] == y then 1 else 0)
  {
    assert a[lo..hi + 1][..hi - lo] == a[lo..hi];
  }

  /** One step of the pair count over a suffix of `a`. */
  lemma PairsStep(a: seq<int>, j: int, x: int)
    requires 0 <= j < |a|
    ensures PairsSumming(a[j..], x) == Occurrences(a[j + 1..], x - a[j]) + PairsSumming(a[j + 1..], x)
  {
    assert a[j..][1..] == a[j + 1..];
  }

  /** One step of the triple count over a suffix of `a`. */
  lemma TriplesStep(a: seq<int>, i: int)
    requires 0 <= i < |a|
    ensures ZeroTriples(a[i..]) == PairsSumming(a[i + 1..], -a[i]) + ZeroTriples(a[i + 1..])
  {
    assert a[i..][1..] == a[i + 1..];
  }

  /**
   * `count`: three nested loops over `i < j < k`, incrementing the count for
   * every triple whose elements sum to 0. The input is only read.
   */
  method Count(a: seq<int>) returns (count: nat)
    ensures count == ZeroTriples(a)
  {
    var n := |a|;
    count := 0;
    var i := 0;
    while i < n
      invariant 0 <= i <= n
      invariant count + ZeroTriples(a[i..]) == ZeroTriples(a)
    {
      var pairs := CountPairs(a, i);
      count := count + pairs;
      TriplesStep(a, i);
      i := i + 1;
    }
  }

  /** The loop over `j` in `count`, for a fixed `i`: the pairs after `i` that complete a triple with `a[i]`. */
  method CountPairs(a: seq<int>, i: int) returns (count: nat)
    requires 0 <= i < |a|
    ensures count == PairsSumming(a[i + 1..], -a[i])
  {
    var n := |a|;
    count := 0;
    var j := i + 1;
    while j < n
      invariant i + 1 <= j <= n
      invariant count + PairsSumming(a[j..], -a[i]) == PairsSumming(a[i + 1..], -a[i])
    {
      var thirds := CountThirds(a, i, j);
      count := count + thirds;
      PairsStep(a, j, -a[i]);
      j := j + 1;
    }
    assert a[j..] == [];
  }

  /** The loop over `k` in `count`, for fixed `i < j`: the elements after `j` that complete the triple. */
  method CountThirds(a: seq<int>, i: int, j: int) returns (count: nat)
    requires 0 <= i < j < |a|
    ensures count == Occurrences(a[j + 1..], -a[i] - a[j])
  {
    var n := |a|;
    count := 0;
    var k := j + 1;
    while k < n
      invariant j + 1 <= k <= n
      invariant count == Occurrences(a[j + 1..k], -a[i] - a[j])
    {
      OccurrencesStep(a, j + 1, k, -a[i] - a[j]);
      if a[i] + a[j] + a[k] == 0 {
        count := count + 1;
      }
      k := k + 1;
    }
    assert a[j + 1..k] == a[j + 1..];
  }

  /** The tests' examples. */
  method Examples() returns (one: nat, none: nat, two: nat)
    ensures one == 1 && none == 0 && two == 2
  {
    one := Count([1, -1, 0]);
    none := Count([1, 2, 3]);
    two := Count([-1, -1, 0, 1]);
    assert ZeroTriples([1, -1, 0]) == 1 by {
      assert [1, -1, 0][1..] == [-1, 0];
      assert [-1, 0][1..] == [0] && [0][..0] == [];
      ZeroTriplesShort([-1, 0]);
      PairsSummingShort([0], -1);
    }
    assert ZeroTriples([1, 2, 3]) == 0 by {
      assert [1, 2, 3][1..] == [2, 3];
      assert [2, 3][1..] == [3] && [3][..0] == [];
      ZeroTriplesShort([2, 3]);
      PairsSummingShort([3], -1);
      assert Occurrences([3], -3) == 0;
    }
    assert ZeroTriples([-1, -1, 0, 1]) == 2 by {
      assert [-1, -1, 0, 1][1..] == [-1, 0, 1];
      assert [-1, 0, 1][1..] == [0, 1] && [0, 1][1..] == [1];
      assert [0, 1][..1] == [0] && [1][..0] == [] && [0][..0] == [];
      PairsSummingShort([1], 1);
      PairsSummingShort([1], -1);
      PairsSummingShort([1], 0);
      ZeroTriplesShort([0, 1]);
      assert PairsSumming([0, 1], 1) == 1;
      assert PairsSumming([-1, 0, 1], 1) == 1;
    }
  }
}
