/**
 * Disjoint sets as a forest of parent links with union by rank and path
 * halving (fundamentals/union_find.rb). Every element reaches the root of
 * its tree by following `@parents`; two elements are connected when they
 * reach the same root, and `size` counts the roots.
 */
module UnionFinds {
  import opened Errors

  /** The indices of `p` that hold themselves: the roots of a parent array. */
  ghost function RootsOf(p: seq<int>): set<int>
  {
    set i | 0 <= i < |p| && p[i] == i
  }

  /** In the first `k` slots of an identity array, every index is a root. */
  lemma {:induction false} IdentityRootsBelow(p: seq<int>, k: nat)
    requires k <= |p| && forall i :: 0 <= i < |p| ==> p[i] == i
    ensures |set i | 0 <= i < k && p[i] == i| == k
  {
    if k > 0 {
      IdentityRootsBelow(p, k - 1);
      assert (set i | 0 <= i < k && p[i] == i) == (set i | 0 <= i < k - 1 && p[i] == i) + {k - 1};
    }
  }

  /** An identity parent array of length `n` has `n` roots. */
  lemma IdentityRoots(p: seq<int>)
    requires forall i :: 0 <= i < |p| ==> p[i] == i
    ensures |RootsOf(p)| == |p|
  {
    IdentityRootsBelow(p, |p|);
  }

  /** Pointing a non-root at another element that is not itself keeps the roots. */
  lemma RedirectKeepsRoots(p: seq<int>, x: int, g: int)
    requires 0 <= x < |p| && p[x] != x && g != x
    ensures RootsOf(p[x := g]) == RootsOf(p)
  {
  }

  /** Pointing a root at another element removes exactly that root. */
  lemma LinkRemovesRoot(p: seq<int>, loser: int, winner: int)
    requires 0 <= loser < |p| && p[loser] == loser && loser != winner
    ensures RootsOf(p[loser := winner]) == RootsOf(p) - {loser}
    ensures |RootsOf(p[loser := winner])| == |RootsOf(p)| - 1
  {
    assert RootsOf(p[loser := winner]) == RootsOf(p) - {loser};
  }

  /**
   * The forest invariant on a parent array `p` with ranks `rk`: every parent
   * is an element; following parents from an element strictly decreases its
   * distance `dist` until a root, which is at distance 0, and keeps the root
   * `root` it reaches (a root reaches itself); ranks are non-negative and strictly increase along
   * each link.
   */
  ghost predicate Forest(p: seq<int>, rk: seq<int>, root: seq<int>, dist: seq<nat>)
  {
    |p| == |rk| == |root| == |dist| &&
    (forall i {:trigger p[i]} :: 0 <= i < |p| ==> 0 <= p[i] < |p|) &&
    (forall i {:trigger root[i]} :: 0 <= i < |p| ==> 0 <= root[i] < |p| && p[root[i]] == root[i] && (p[i] == i ==> root[i] == i)) &&
    (forall i {:trigger root[p[i]]} :: 0 <= i < |p| ==> root[p[i]] == root[i]) &&
    (forall i {:trigger dist[i]} :: 0 <= i < |p| ==> (dist[i] == 0 <==> p[i] == i)) &&
    (forall i {:trigger dist[p[i]]} :: 0 <= i < |p| && p[i] != i ==> dist[p[i]] < dist[i]) &&
    (forall i {:trigger rk[i]} :: 0 <= i < |p| ==> 0 <= rk[i]) &&
    (forall i {:trigger rk[p[i]]} :: 0 <= i < |p| && p[i] != i ==> rk[i] < rk[p[i]])
  }

  /** Path halving at `x` keeps the forest, every root, and the root each element reaches. */
  lemma HalvingKeepsForest(p: seq<int>, rk: seq<int>, root: seq<int>, dist: seq<nat>, x: int)
    requires Forest(p, rk, root, dist) && 0 <= x < |p| && p[x] != x
    ensures Forest(p[x := p[p[x]]], rk, root, dist)
    ensures RootsOf(p[x := p[p[x]]]) == RootsOf(p)
    ensures dist[p[p[x]]] < dist[x] && root[p[p[x]]] == root[x]
  {
    var g := p[p[x]];
    assert g != x;
    RedirectKeepsRoots(p, x, g);
  }

  /** Linking root `loser` under root `winner` keeps a forest with the two trees joined. */
  lemma LinkKeepsForest(p: seq<int>, rk: seq<int>, root: seq<int>, dist: seq<nat>, loser: int, winner: int, rk2: seq<int>)
    requires Forest(p, rk, root, dist) && 0 <= loser < |p| && 0 <= winner < |p| && loser != winner
    requires p[loser] == loser && p[winner] == winner
    requires |rk2| == |rk| && rk2[loser] < rk2[winner] && rk[winner] <= rk2[winner]
    requires forall i :: 0 <= i < |p| && i != winner ==> rk2[i] == rk[i]
    ensures Forest(p[loser := winner], rk2,
      seq(|p|, x requires 0 <= x < |p| => if root[x] == loser then winner else root[x]),
      seq(|p|, x requires 0 <= x < |p| => if root[x] == loser then dist[x] + 1 else dist[x]))
  {
    var p2 := p[loser := winner];
    var root2 := seq(|p|, x requires 0 <= x < |p| => if root[x] == loser then winner else root[x]);
    var dist2 := seq(|p|, x requires 0 <= x < |p| => if root[x] == loser then dist[x] + 1 else dist[x]);
    forall i | 0 <= i < |p|
      ensures 0 <= root2[i] < |p| && p2[root2[i]] == root2[i] && (p2[i] == i ==> root2[i] == i)
      ensures root2[p2[i]] == root2[i]
      ensures dist2[i] == 0 <==> p2[i] == i
      ensures p2[i] != i ==> dist2[p2[i]] < dist2[i] && rk2[i] < rk2[p2[i]]
    {
      assert root[winner] == winner && root[loser] == loser;
      if i != loser {
        assert p2[i] == p[i] && root[p[i]] == root[i];
        if p[i] == i {
          assert root[i] == i;
        } else {
          assert dist[p[i]] < dist[i] && rk[i] < rk[p[i]] && i != winner;
        }
      }
    }
  }

  class UnionFind {
    /** `@parents`: the parent of each element; a root is its own parent. */
    var parents: array<int>
    /** `@ranks`: the rank of each element. */
    var ranks: array<int>
    /** `@size`: the number of components. */
    var size: nat
    /** The root each element reaches. */
    ghost var root: seq<int>
    /** How many links each element is from its root. */
    ghost var dist: seq<nat>

    /** The elements that are their own parent. */
    ghost function Roots(): set<int>
      reads this, parents
    {
      RootsOf(parents[..])
    }

    /** The forest invariant, with `size` the number of roots. */
    ghost predicate Valid()
      reads this, parents, ranks
    {
      parents != ranks && Forest(parents[..], ranks[..], root, dist) && size == |Roots()|
    }

    /** `new(n)` once `n` is checked: every element is its own root, with rank 0. */
    constructor Singletons(n: nat)
      ensures Valid() && fresh(parents) && fresh(ranks)
      ensures parents[..] == seq(n, i => i) && ranks[..] == seq(n, _ => 0) && size == n
      ensures root == seq(n, i => i)
    {
      parents := new int[n](i => i);
      ranks := new int[n](_ => 0);
      size := n;
      root := seq(n, i => i);
      dist := seq(n, _ => 0);
      new;
      IdentityRoots(parents[..]);
    }

    /** `new(n)`: ArgumentError when `n` is negative, otherwise `n` singletons. */
    static method New(n: int) returns (r: Result<UnionFind>)
      ensures n < 0 <==> r.Err?
      ensures r.Err? ==> r.error == ArgumentError
      ensures r.Ok? ==> fresh(r.value) && fresh(r.value.parents) && fresh(r.value.ranks) && r.value.Valid()
      ensures r.Ok? ==> r.value.size == n && r.value.root == seq(n, i => i) && r.value.ranks[..] == seq(n, _ => 0)
    {
      if n < 0 {
        return Err(ArgumentError);
      }
      var uf := new UnionFind.Singletons(n);
      return Ok(uf);
    }

    /** `size`: the number of components is the number of roots. */
    function Count(): (c: nat)
      reads this, parents, ranks
      requires Valid()
      ensures c == |Roots()|
    {
      size
    }

    /**
     * `find(i)`: RangeError outside `0...n`; otherwise walks to the root,
     * pointing each visited element at its grandparent on the way. The
     * forest changes but no element changes root.
     */
    method Find(i: int) returns (r: Result<int>)
      requires Valid()
      modifies parents
      ensures Valid() && root == old(root) && Roots() == old(Roots())
      ensures !(0 <= i < parents.Length) ==> r == Err(RangeError) && parents[..] == old(parents[..])
      ensures 0 <= i < parents.Length ==> r == Ok(root[i]) && parents[r.value] == r.value
    {
      if !(0 <= i < parents.Length) {
        return Err(RangeError);
      }
      var x := i;
      while x != parents[x]
        invariant Valid() && Roots() == old(Roots())
        invariant 0 <= x < parents.Length && root[x] == root[i]
        decreases dist[x]
      {
        ghost var p := parents[..];
        HalvingKeepsForest(p, ranks[..], root, dist, x);
        parents[x] := parents[parents[x]];
        assert parents[..] == p[x := p[p[x]]];
        x := parents[x];
      }
      return Ok(x);
    }

    /**
     * Links root `loser` under root `winner`, adding one to the winner's rank
     * when `bump` is set: the two components become one.
     */
    method Link(loser: int, winner: int, bump: bool)
      requires Valid() && 0 <= loser < parents.Length && 0 <= winner < parents.Length && loser != winner
      requires parents[loser] == loser && parents[winner] == winner
      requires if bump then ranks[loser] == ranks[winner] else ranks[loser] < ranks[winner]
      modifies this, parents, ranks
      ensures Valid() && parents == old(parents) && ranks == old(ranks)
      ensures parents[..] == old(parents[..])[loser := winner]
      ensures ranks[..] == if bump then old(ranks[..])[winner := old(ranks[winner]) + 1] else old(ranks[..])
      ensures root == seq(|old(root)|, x requires 0 <= x < |old(root)| => if old(root)[x] == loser then winner else old(root)[x])
      ensures size == old(size) - 1 && Roots() == old(Roots()) - {loser}
    {
      ghost var n, p, r0, d0 := parents.Length, parents[..], root, dist;
      LinkRemovesRoot(p, loser, winner);
      parents[loser] := winner;
      if bump {
        ranks[winner] := ranks[winner] + 1;
      }
      LinkKeepsForest(p, old(ranks[..]), r0, d0, loser, winner, ranks[..]);
      root := seq(n, x requires 0 <= x < n => if r0[x] == loser then winner else r0[x]);
      dist := seq(n, x requires 0 <= x < n => if r0[x] == loser then d0[x] + 1 else d0[x]);
      size := size - 1;
    }

    /**
     * `union(a, b)`: RangeError when either index is out of range, with no
     * component changed; nothing more when they are already connected;
     * otherwise the root of lower rank goes under the other (`root_b` under
     * `root_a` on equal ranks, whose rank then grows by one), and the number
     * of components drops by one.
     */
    method Union(a: int, b: int) returns (o: Outcome)
      requires Valid()
      modifies this, parents, ranks
      ensures Valid() && parents == old(parents) && ranks == old(ranks)
      ensures !(0 <= a < parents.Length && 0 <= b < parents.Length) ==>
        o == Fail(RangeError) && root == old(root) && size == old(size) && ranks[..] == old(ranks[..])
      ensures 0 <= a < parents.Length && 0 <= b < parents.Length ==> o == Pass && root[a] == root[b]
      ensures 0 <= a < parents.Length && 0 <= b < parents.Length && old(root[a]) == old(root[b]) ==>
        root == old(root) && size == old(size) && ranks[..] == old(ranks[..])
      ensures 0 <= a < parents.Length && 0 <= b < parents.Length && old(root[a]) != old(root[b]) ==>
        var ra, rb := old(root[a]), old(root[b]);
        size == old(size) - 1 &&
        (old(ranks[ra]) < old(ranks[rb]) ==> parents[ra] == rb && ranks[..] == old(ranks[..])) &&
        (old(ranks[ra]) > old(ranks[rb]) ==> parents[rb] == ra && ranks[..] == old(ranks[..])) &&
        (old(ranks[ra]) == old(ranks[rb]) ==> parents[rb] == ra && ranks[..] == old(ranks[..])[ra := old(ranks[ra]) + 1]) &&
        forall x, y :: 0 <= x < parents.Length && 0 <= y < parents.Length ==>
          (root[x] == root[y] <==>
            old(root[x]) == old(root[y]) || (old(root[x]) == ra && old(root[y]) == rb) || (old(root[x]) == rb && old(root[y]) == ra))
    {
      var fa := Find(a);
      if fa.Err? {
        return Fail(RangeError);
      }
      var fb := Find(b);
      if fb.Err? {
        return Fail(RangeError);
      }
      var rootA, rootB := fa.value, fb.value;
      if rootA == rootB {
        return Pass;
      }
      if ranks[rootA] < ranks[rootB] {
        Link(rootA, rootB, false);
      } else if ranks[rootA] > ranks[rootB] {
        Link(rootB, rootA, false);
      } else {
        Link(rootB, rootA, true);
      }
      return Pass;
    }

    /** `connected?(a, b)`: RangeError out of range; otherwise whether `a` and `b` have the same root. */
    method Connected(a: int, b: int) returns (r: Result<bool>)
      requires Valid()
      modifies parents
      ensures Valid() && root == old(root) && Roots() == old(Roots())
      ensures 0 <= a < parents.Length && 0 <= b < parents.Length <==> r.Ok?
      ensures r.Err? ==> r.error == RangeError
      ensures r.Ok? ==> r.value == (root[a] == root[b])
    {
      var fa := Find(a);
      var fb := Find(b);
      if fa.Err? || fb.Err? {
        return Err(RangeError);
      }
      return Ok(fa.value == fb.value);
    }
  }

  /**
   * Joining the components of `0` and `i` when `0..i-1` already share one
   * root and every later element is alone: now `0..i` share one root and
   * every element after `i` is still alone. `r0` and `r1` are the roots
   * before and after.
   */
  lemma JoinStep(r0: seq<int>, r1: seq<int>, i: int)
    requires |r1| == |r0| && 1 <= i < |r0|
    requires forall j :: 0 <= j < i ==> r0[j] == r0[0]
    requires forall j, k :: i <= j < |r0| && 0 <= k < |r0| && k != j ==> r0[k] != r0[j]
    requires forall x, y :: 0 <= x < |r0| && 0 <= y < |r0| ==>
      (r1[x] == r1[y] <==>
        r0[x] == r0[y] || (r0[x] == r0[0] && r0[y] == r0[i]) || (r0[x] == r0[i] && r0[y] == r0[0]))
    ensures forall j :: 0 <= j <= i ==> r1[j] == r1[0]
    ensures forall j, k :: i < j < |r0| && 0 <= k < |r0| && k != j ==> r1[k] != r1[j]
  {
    forall j | 0 <= j <= i
      ensures r1[j] == r1[0]
    {
      if j < i {
        assert r0[j] == r0[0];
      }
    }
    forall j, k | i < j < |r0| && 0 <= k < |r0| && k != j
      ensures r1[k] != r1[j]
    {
      assert r0[k] != r0[j] && r0[0] != r0[j] && r0[i] != r0[j];
    }
  }

  /**
   * Joining every element with element 0, one `union(0, i)` at a time: after
   * each call the count is `n - i`, and at the end all `n` elements form one
   * component.
   */
  method JoinAllWithZero(n: int) returns (counts: seq<nat>, joined: Result<bool>)
    requires n >= 1
    ensures |counts| == n && forall i :: 0 <= i < n ==> counts[i] == n - i
    ensures joined == Ok(true)
  {
    var made := UnionFind.New(n);
    var uf := made.value;
    counts := [uf.Count()];
    var i := 1;
    while i < n
      invariant 1 <= i <= n && uf.Valid() && uf.parents.Length == n
      invariant fresh(uf) && fresh(uf.parents) && fresh(uf.ranks)
      invariant |counts| == i && forall k :: 0 <= k < i ==> counts[k] == n - k
      invariant uf.size == n - i + 1
      invariant forall j :: 0 <= j < i ==> uf.root[j] == uf.root[0]
      invariant forall j, k :: i <= j < n && 0 <= k < n && k != j ==> uf.root[k] != uf.root[j]
    {
      ghost var r0 := uf.root;
      var o := uf.Union(0, i);
      JoinStep(r0, uf.root, i);
      counts := counts + [uf.Count()];
      i := i + 1;
    }
    joined := uf.Connected(0, n - 1);
  }
}
