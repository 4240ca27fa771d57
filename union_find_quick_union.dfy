/**
 * Disjoint sets as a forest of parent links without balancing
 * (fundamentals/union_find_quick_union.rb): `union` always links the root
 * of `a` under the root of `b`, and `find` walks up without changing the
 * forest.
 */
module UnionFindQuickUnions {
  import opened Errors
  import UnionFinds

  /**
   * The forest invariant on a parent array `p`: every parent is an element;
   * following parents from an element strictly decreases its distance
   * `dist` until a root, which is at distance 0, and keeps the root `root`
   * it reaches (a root reaches itself).
   */
  ghost predicate Forest(p: seq<int>, root: seq<int>, dist: seq<nat>)
  {
    |p| == |root| == |dist| &&
    (forall i {:trigger p[i]} :: 0 <= i < |p| ==> 0 <= p[i] < |p|) &&
    (forall i {:trigger root[i]} :: 0 <= i < |p| ==> 0 <= root[i] < |p| && p[root[i]] == root[i] && (p[i] == i ==> root[i] == i)) &&
    (forall i {:trigger root[p[i]]} :: 0 <= i < |p| ==> root[p[i]] == root[i]) &&
    (forall i {:trigger dist[i]} :: 0 <= i < |p| ==> (dist[i] == 0 <==> p[i] == i)) &&
    (forall i {:trigger dist[p[i]]} :: 0 <= i < |p| && p[i] != i ==> dist[p[i]] < dist[i])
  }

  /** Linking root `loser` under root `winner` keeps a forest with the two trees joined. */
  lemma LinkKeepsForest(p: seq<int>, root: seq<int>, dist: seq<nat>, loser: int, winner: int)
    requires Forest(p, root, dist) && 0 <= loser < |p| && 0 <= winner < |p| && loser != winner
    requires p[loser] == loser && p[winner] == winner
    ensures Forest(p[loser := winner],
      seq(|p|, x requires 0 <= x < |p| => if root[x] == loser then winner else root[x]),
      seq(|p|, x requires 0 <= x < |p| => if root[x] == loser then dist[x] + 1 else dist[x]))
  {
    var p2 := p[loser := winner];
    var root2 := seq(|p|, x requires 0 <= x < |p| => if root[x] == loser then winner else root[x]);
    var dist2 := seq(|p|, x requires 0 <= x < |p| => if root[x] == loser then dist[x] + 1 else dist[x]);
    forall i | 0 <= i < |p|
      ensures 0 <= root2[i] < |p| && p2[root2[i]] == root2[i] && (p2[i] == i ==> root2[i] == i)
      ensures root2[p2[i]] == root2[i]
      ensures dist2[i] == 0 <==> p2[i] == i
      ensures p2[i] != i ==> dist2[p2[i]] < dist2[i]
    {
      assert root[winner] == winner && root[loser] == loser;
      if i != loser {
        assert p2[i] == p[i] && root[p[i]] == root[i];
        if p[i] == i {
          assert root[i] == i;
        } else {
          assert dist[p[i]] < dist[i];
        }
      }
    }
  }

  class UnionFindQuickUnion {
    /** `@parents`: the parent of each element; a root is its own parent. */
    var parents: array<int>
    /** `@size`: the number of components. */
    var size: nat
    /** The root each element reaches. */
    ghost var root: seq<int>
    /** How many links each element is from its root. */
    ghost var dist: seq<nat>

    /** The elements that are their own parent. */
    ghost function Roots(): set<int>
      reads this, parents
    {
      UnionFinds.RootsOf(parents[..])
    }

    /** The forest invariant, with `size` the number of roots. */
    ghost predicate Valid()
      reads this, parents
    {
      Forest(parents[..], root, dist) && size == |Roots()|
    }

    /** `new(n)` once `n` is checked: every element is its own root. */
    constructor Singletons(n: nat)
      ensures Valid() && fresh(parents)
      ensures parents[..] == seq(n, i => i) && size == n && root == seq(n, i => i)
    {
      parents := new int[n](i => i);
      size := n;
      root := seq(n, i => i);
      dist := seq(n, _ => 0);
      new;
      UnionFinds.IdentityRoots(parents[..]);
    }

    /** `new(n)`: ArgumentError when `n` is negative, otherwise `n` singletons. */
    static method New(n: int) returns (r: Result<UnionFindQuickUnion>)
      ensures n < 0 <==> r.Err?
      ensures r.Err? ==> r.error == ArgumentError
      ensures r.Ok? ==> fresh(r.value) && fresh(r.value.parents) && r.value.Valid()
      ensures r.Ok? ==> r.value.size == n && r.value.root == seq(n, i => i) && r.value.parents[..] == seq(n, i => i)
    {
      if n < 0 {
        return Err(ArgumentError);
      }
      var uf := new UnionFindQuickUnion.Singletons(n);
      return Ok(uf);
    }

    /** `size`: the number of components is the number of roots. */
    function Count(): (c: nat)
      reads this, parents
      requires Valid()
      ensures c == |Roots()|
    {
      size
    }

    /** `find(i)`: RangeError outside `0...n`; otherwise the root `i` reaches, with nothing changed. */
    method Find(i: int) returns (r: Result<int>)
      requires Valid()
      ensures !(0 <= i < parents.Length) <==> r == Err(RangeError)
      ensures 0 <= i < parents.Length ==> r == Ok(root[i]) && parents[r.value] == r.value
    {
      if !(0 <= i < parents.Length) {
        return Err(RangeError);
      }
      var x := i;
      while x != parents[x]
        invariant 0 <= x < parents.Length && root[x] == root[i]
        decreases dist[x]
      {
        x := parents[x];
      }
      return Ok(x);
    }

    /**
     * `union(a, b)`: RangeError, with nothing changed, when either index is
     * out of range; nothing more when they are already connected; otherwise
     * the root of `a` goes under the root of `b` and the number of
     * components drops by one.
     */
    method Union(a: int, b: int) returns (o: Outcome)
      requires Valid()
      modifies this, parents
      ensures Valid() && parents == old(parents)
      ensures !(0 <= a < parents.Length && 0 <= b < parents.Length) ==>
        o == Fail(RangeError) && parents[..] == old(parents[..]) && root == old(root) && size == old(size)
      ensures 0 <= a < parents.Length && 0 <= b < parents.Length ==> o == Pass && root[a] == root[b]
      ensures 0 <= a < parents.Length && 0 <= b < parents.Length && old(root[a]) == old(root[b]) ==>
        parents[..] == old(parents[..]) && root == old(root) && size == old(size)
      ensures 0 <= a < parents.Length && 0 <= b < parents.Length && old(root[a]) != old(root[b]) ==>
        var ra, rb := old(root[a]), old(root[b]);
        size == old(size) - 1 && parents[..] == old(parents[..])[ra := rb] &&
        forall x, y :: 0 <= x < parents.Length && 0 <= y < parents.Length ==>
          (root[x] == root[y] <==>
            old(root[x]) == old(root[y]) || (old(root[x]) == ra && old(root[y]) == rb) || (old(root[x]) == rb && old(root[y]) == ra))
    {
      if !(0 <= a < parents.Length) {
        return Fail(RangeError);
      } else if !(0 <= b < parents.Length) {
        return Fail(RangeError);
      }
      var fa := Find(a);
      var fb := Find(b);
      var rootA, rootB := fa.value, fb.value;
      if rootA == rootB {
        return Pass;
      }
      ghost var n, p, r0, d0 := parents.Length, parents[..], root, dist;
      UnionFinds.LinkRemovesRoot(p, rootA, rootB);
      LinkKeepsForest(p, r0, d0, rootA, rootB);
      parents[rootA] := rootB;
      root := seq(n, x requires 0 <= x < n => if r0[x] == rootA then rootB else r0[x]);
      dist := seq(n, x requires 0 <= x < n => if r0[x] == rootA then d0[x] + 1 else d0[x]);
      size := size - 1;
      return Pass;
    }

    /** `connected?(a, b)`: RangeError out of range; otherwise whether `a` and `b` have the same root. */
    method Connected(a: int, b: int) returns (r: Result<bool>)
      requires Valid()
      ensures 0 <= a < parents.Length && 0 <= b < parents.Length <==> r.Ok?
      ensures r.Err? ==> r.error == RangeError
      ensures r.Ok? ==> r.value == (root[a] == root[b])
    {
      var fa := Find(a);
      var fb := Find(b);
      if fa.Err? || fb.Err? {
        return Err(RangeError);
      }
      return Ok(fa.value == fb.value);
    }
  }

  /**
   * Joining every element with element 0: afterwards `find` gives one
   * representative for all `n` elements.
   */
  method JoinAllWithZero(n: int) returns (count: nat, representatives: set<int>)
    requires n >= 1
    ensures count == 1 && |representatives| == 1
  {
    var made := UnionFindQuickUnion.New(n);
    var uf := made.value;
    var i := 1;
    while i < n
      invariant 1 <= i <= n && uf.Valid() && uf.parents.Length == n
      invariant fresh(uf) && fresh(uf.parents)
      invariant uf.size == n - i + 1
      invariant forall j :: 0 <= j < i ==> uf.root[j] == uf.root[0]
      invariant forall j, k :: i <= j < n && 0 <= k < n && k != j ==> uf.root[k] != uf.root[j]
    {
      ghost var r0 := uf.root;
      var o := uf.Union(0, i);
      UnionFinds.JoinStep(r0, uf.root, i);
      i := i + 1;
    }
    count := uf.Count();
    representatives := {};
    var j := 0;
    while j < n
      invariant 0 <= j <= n && uf.Valid() && uf.parents.Length == n
      invariant forall k :: 0 <= k < n ==> uf.root[k] == uf.root[0]
      invariant representatives == if j == 0 then {} else {uf.root[0]}
    {
      var f := uf.Find(j);
      representatives := representatives + {f.value};
      j := j + 1;
    }
  }
}
