/**
 * An undirected multigraph on the vertices `0...v` as adjacency bags
 * (graphs/graph.rb), and the vocabulary of paths and reachability the
 * traversals are specified with. Parallel edges and self-loops are allowed.
 * A bag is a sequence with the most recently added vertex first, the order
 * a bag iterates in.
 */
module Graphs {
  import opened Errors

  /** Every listed neighbour is a vertex. */
  ghost predicate WellFormed(adj: seq<seq<int>>)
  {
    forall u, k :: 0 <= u < |adj| && 0 <= k < |adj[u]| ==> 0 <= adj[u][k] < |adj|
  }

  /** The edges are undirected: `w` is a neighbour of `u` exactly when `u` is one of `w`. */
  ghost predicate Symmetric(adj: seq<seq<int>>)
  {
    forall u, w :: 0 <= u < |adj| && 0 <= w < |adj| ==> (w in adj[u] <==> u in adj[w])
  }

  /** The sum of the degrees of all vertices. */
  function TotalDegree(adj: seq<seq<int>>): nat
  {
    if |adj| == 0 then 0 else TotalDegree(adj[..|adj| - 1]) + |adj[|adj| - 1]|
  }

  /** Replacing one bag changes the degree sum by the change in its size. */
  lemma {:induction false} TotalDegreeUpdate(adj: seq<seq<int>>, u: int, bag: seq<int>)
    requires 0 <= u < |adj|
    ensures TotalDegree(adj[u := bag]) == TotalDegree(adj) - |adj[u]| + |bag|
    decreases |adj|
  {
    var n := |adj|;
    var adj2 := adj[u := bag];
    assert adj2[..n - 1] == if u == n - 1 then adj[..n - 1] else adj[..n - 1][u := bag];
    if u < n - 1 {
      TotalDegreeUpdate(adj[..n - 1], u, bag);
    }
  }

  /** The bags after `add_edge(a, b)`: `b` is added to the bag of `a`, then `a` to the bag of `b`. */
  function Added(adj: seq<seq<int>>, a: int, b: int): (r: seq<seq<int>>)
    requires 0 <= a < |adj| && 0 <= b < |adj|
    ensures |r| == |adj|
  {
    var once := adj[a := [b] + adj[a]];
    once[b := [a] + once[b]]
  }

  /**
   * What adding an edge does to the bags: for distinct endpoints each bag
   * gains the other endpoint; for a self-loop the bag gains the vertex
   * twice; every other bag is as it was.
   */
  lemma AddedBags(adj: seq<seq<int>>, a: int, b: int)
    requires 0 <= a < |adj| && 0 <= b < |adj|
    ensures a != b ==> Added(adj, a, b)[a] == [b] + adj[a] && Added(adj, a, b)[b] == [a] + adj[b]
    ensures a == b ==> Added(adj, a, b)[a] == [a, a] + adj[a]
    ensures forall x :: 0 <= x < |adj| && x != a && x != b ==> Added(adj, a, b)[x] == adj[x]
  {
  }

  /** A vertex is in a bag after adding an edge exactly when it was before or is the other endpoint. */
  lemma AddedMembers(adj: seq<seq<int>>, a: int, b: int, x: int, y: int)
    requires 0 <= a < |adj| && 0 <= b < |adj| && 0 <= x < |adj|
    ensures y in Added(adj, a, b)[x] <==> y in adj[x] || (x == a && y == b) || (x == b && y == a)
  {
    AddedBags(adj, a, b);
  }

  /** Adding an edge keeps the bags well formed and symmetric, and adds 2 to the degree sum. */
  lemma AddedKeepsInvariant(adj: seq<seq<int>>, a: int, b: int)
    requires WellFormed(adj) && Symmetric(adj) && 0 <= a < |adj| && 0 <= b < |adj|
    ensures WellFormed(Added(adj, a, b)) && Symmetric(Added(adj, a, b))
    ensures TotalDegree(Added(adj, a, b)) == TotalDegree(adj) + 2
  {
    var once := adj[a := [b] + adj[a]];
    TotalDegreeUpdate(adj, a, [b] + adj[a]);
    TotalDegreeUpdate(once, b, [a] + once[b]);
    var r := Added(adj, a, b);
    forall x, k | 0 <= x < |r| && 0 <= k < |r[x]|
      ensures 0 <= r[x][k] < |r|
    {
      AddedMembers(adj, a, b, x, r[x][k]);
    }
    forall x, y | 0 <= x < |r| && 0 <= y < |r|
      ensures y in r[x] <==> x in r[y]
    {
      AddedMembers(adj, a, b, x, y);
      AddedMembers(adj, a, b, y, x);
    }
  }

  class Graph {
    /** `v`: the number of vertices. */
    const v: nat
    /** `e`: the number of edges. */
    var e: nat
    /** `@adjacency_matrix`: the bag of neighbours of each vertex. */
    var adj: seq<seq<int>>

    /**
     * The graph's invariant: one bag per vertex holding only vertices, each
     * edge listed at both ends, and the degrees summing to twice the number
     * of edges.
     */
    ghost predicate Valid()
      reads this
    {
      |adj| == v && WellFormed(adj) && Symmetric(adj) && TotalDegree(adj) == 2 * e
    }

    /** `new(v)` once `v` is checked: `v` vertices and no edges. */
    constructor Empty(v: nat)
      ensures Valid() && this.v == v && e == 0 && adj == seq(v, _ => [])
    {
      this.v := v;
      e := 0;
      adj := seq(v, _ => []);
      new;
      NoEdgesNoDegree(v);
    }

    /** `new(v)`: ArgumentError when `v` is negative, otherwise `v` vertices and no edges. */
    static method New(v: int) returns (r: Result<Graph>)
      ensures v < 0 <==> r.Err?
      ensures r.Err? ==> r.error == ArgumentError
      ensures r.Ok? ==> fresh(r.value) && r.value.Valid() && r.value.v == v && r.value.e == 0
      ensures r.Ok? ==> r.value.adj == seq(v, _ => [])
    {
      if v < 0 {
        return Err(ArgumentError);
      }
      var g := new Graph.Empty(v);
      return Ok(g);
    }

    /** `validate_vertex(x)`: IndexError unless `x` is in `0...v`. */
    function ValidateVertex(x: int): (o: Outcome)
      reads this
      ensures o.Pass? <==> 0 <= x < v
      ensures o.Fail? ==> o.error == IndexError
    {
      if 0 <= x < v then Pass else Fail(IndexError)
    }

    /**
     * `add_edge(a, b)`: IndexError, with nothing changed, when either
     * endpoint is not a vertex; otherwise one more edge, with `b` added to
     * the bag of `a` and `a` to the bag of `b`.
     */
    method AddEdge(a: int, b: int) returns (o: Outcome)
      requires Valid()
      modifies this
      ensures Valid()
      ensures !(0 <= a < v && 0 <= b < v) ==> o == Fail(IndexError) && e == old(e) && adj == old(adj)
      ensures 0 <= a < v && 0 <= b < v ==> o == Pass && e == old(e) + 1 && adj == Added(old(adj), a, b)
    {
      var check := ValidateVertex(a);
      if check.Fail? {
        return check;
      }
      check := ValidateVertex(b);
      if check.Fail? {
        return check;
      }
      AddedKeepsInvariant(adj, a, b);
      e := e + 1;
      adj := adj[a := [b] + adj[a]];
      adj := adj[b := [a] + adj[b]];
      return Pass;
    }

    /** `adjacent(x)`: IndexError unless `x` is a vertex; otherwise its bag of neighbours. */
    function Adjacent(x: int): (r: Result<seq<int>>)
      reads this
      requires Valid()
      ensures r.Ok? <==> 0 <= x < v
      ensures r.Err? ==> r.error == IndexError
      ensures r.Ok? ==> r.value == adj[x] && forall w :: w in r.value ==> 0 <= w < v && x in adj[w]
    {
      if ValidateVertex(x).Fail? then Err(IndexError) else Ok(adj[x])
    }

    /** `degree(x)`: IndexError unless `x` is a vertex; otherwise the size of its bag. */
    function Degree(x: int): (r: Result<nat>)
      reads this
      requires Valid()
      ensures r.Ok? <==> 0 <= x < v
      ensures r.Err? ==> r.error == IndexError
      ensures r.Ok? ==> r.value == |adj[x]|
    {
      if ValidateVertex(x).Fail? then Err(IndexError) else Ok(|adj[x]|)
    }
  }

  /** With every bag empty the degrees sum to 0. */
  lemma {:induction false} NoEdgesNoDegree(n: nat)
    ensures TotalDegree(seq(n, _ => [])) == 0
  {
    if n > 0 {
      var none: seq<seq<int>> := seq(n, _ => []);
      assert none[..n - 1] == seq(n - 1, _ => []);
      NoEdgesNoDegree(n - 1);
    }
  }

  /**
   * A client of `add_edge`: on three vertices, the edges 0-1 and 1-1 give
   * degrees 1, 3 and 0 (a self-loop counts twice), and an edge to the
   * vertex 3 is refused.
   */
  method DegreesOfSmallGraph() returns (d0: Result<nat>, d1: Result<nat>, d2: Result<nat>, refused: Outcome, edges: nat)
    ensures d0 == Ok(1) && d1 == Ok(3) && d2 == Ok(0)
    ensures refused == Fail(IndexError) && edges == 2
  {
    var g := new Graph.Empty(3);
    var o := g.AddEdge(0, 1);
    o := g.AddEdge(1, 1);
    refused := g.AddEdge(2, 3);
    d0, d1, d2 := g.Degree(0), g.Degree(1), g.Degree(2);
    edges := g.e;
  }

  // Paths and reachability.

  /** `p` is a walk: at least one vertex, and each next vertex is in the bag of the one before. */
  ghost predicate IsPath(adj: seq<seq<int>>, p: seq<int>)
  {
    |p| >= 1 &&
    (forall k :: 0 <= k < |p| ==> 0 <= p[k] < |adj|) &&
    (forall k :: 0 <= k < |p| - 1 ==> p[k + 1] in adj[p[k]])
  }

  /** There is a walk from `s` to `t`. */
  ghost predicate Reachable(adj: seq<seq<int>>, s: int, t: int)
  {
    exists p :: IsPath(adj, p) && p[0] == s && p[|p| - 1] == t
  }

  /** A walk extends backwards along an edge into its first vertex. */
  lemma PrependStep(adj: seq<seq<int>>, u: int, p: seq<int>)
    requires IsPath(adj, p) && 0 <= u < |adj| && p[0] in adj[u]
    ensures IsPath(adj, [u] + p)
  {
    var longer := [u] + p;
    forall k | 0 <= k < |longer| - 1
      ensures longer[k + 1] in adj[longer[k]]
    {
      if k > 0 {
        assert longer[k] == p[k - 1] && longer[k + 1] == p[k];
      }
    }
  }

  /** Each vertex reaches itself. */
  lemma ReachableSelf(adj: seq<seq<int>>, s: int)
    requires 0 <= s < |adj|
    ensures Reachable(adj, s, s)
  {
    assert IsPath(adj, [s]);
  }

  /** A walk to `u` extends along an edge of `u`. */
  lemma ReachableStep(adj: seq<seq<int>>, s: int, u: int, w: int)
    requires WellFormed(adj) && Reachable(adj, s, u) && 0 <= u < |adj| && w in adj[u]
    ensures Reachable(adj, s, w)
  {
    var p :| IsPath(adj, p) && p[0] == s && p[|p| - 1] == u;
    var k :| 0 <= k < |adj[u]| && adj[u][k] == w;
    assert IsPath(adj, p + [w]);
  }

  /** Walks join end to end. */
  lemma ReachableTransitive(adj: seq<seq<int>>, s: int, u: int, t: int)
    requires Reachable(adj, s, u) && Reachable(adj, u, t)
    ensures Reachable(adj, s, t)
  {
    var p :| IsPath(adj, p) && p[0] == s && p[|p| - 1] == u;
    var q :| IsPath(adj, q) && q[0] == u && q[|q| - 1] == t;
    var pq := p + q[1..];
    forall k | 0 <= k < |pq| - 1
      ensures pq[k + 1] in adj[pq[k]]
    {
      if k == |p| - 1 {
        assert pq[k] == q[0] && pq[k + 1] == q[1];
      } else if k >= |p| {
        assert pq[k] == q[k - |p| + 1] && pq[k + 1] == q[k - |p| + 2];
      }
    }
    assert IsPath(adj, pq);
  }

  /** The walks of an undirected graph reverse. */
  lemma ReachableSymmetric(adj: seq<seq<int>>, s: int, t: int)
    requires Symmetric(adj) && Reachable(adj, s, t)
    ensures Reachable(adj, t, s)
  {
    var p :| IsPath(adj, p) && p[0] == s && p[|p| - 1] == t;
    var r := seq(|p|, k requires 0 <= k < |p| => p[|p| - 1 - k]);
    forall k | 0 <= k < |r| - 1
      ensures r[k + 1] in adj[r[k]]
    {
      var j := |p| - 2 - k;
      assert r[k] == p[j + 1] && r[k + 1] == p[j];
      assert p[j + 1] in adj[p[j]];
    }
    assert IsPath(adj, r);
  }

  /** The vertices marked in `m`. */
  ghost function MarkedOf(m: seq<bool>): set<int>
  {
    set u | 0 <= u < |m| && m[u]
  }

  /** The vertices not marked in `m`. */
  ghost function UnmarkedOf(m: seq<bool>): set<int>
  {
    set u | 0 <= u < |m| && !m[u]
  }

  /** Marks are only ever added. */
  ghost predicate Grows(before: seq<bool>, after: seq<bool>)
  {
    |before| == |after| && forall u :: 0 <= u < |before| && before[u] ==> after[u]
  }

  /** Every neighbour of a marked vertex is marked. */
  ghost predicate Closed(adj: seq<seq<int>>, m: seq<bool>)
  {
    |m| == |adj| && forall u, k :: 0 <= u < |m| && m[u] && 0 <= k < |adj[u]| ==> 0 <= adj[u][k] < |m| && m[adj[u][k]]
  }

  /** Every neighbour of a vertex marked in `after` but not in `before` is marked in `after`. */
  ghost predicate ClosedOutside(adj: seq<seq<int>>, before: seq<bool>, after: seq<bool>)
  {
    |before| == |after| == |adj| &&
    forall u, k :: 0 <= u < |after| && after[u] && !before[u] && 0 <= k < |adj[u]| ==> 0 <= adj[u][k] < |after| && after[adj[u][k]]
  }

  /** Every marked vertex is reachable from `s`. */
  ghost predicate AllReachable(adj: seq<seq<int>>, s: int, m: seq<bool>)
  {
    forall u :: 0 <= u < |m| && m[u] ==> Reachable(adj, s, u)
  }

  /** The first `i` vertices of `ws` are marked in `m`. */
  ghost predicate MarkedUpTo(m: seq<bool>, ws: seq<int>, i: int)
  {
    forall j :: 0 <= j < i && j < |ws| ==> 0 <= ws[j] < |m| && m[ws[j]]
  }

  /** Growing marks keep the first `i` vertices marked; once `ws[i]` is marked too, the first `i + 1` are. */
  lemma MarkedUpToGrows(before: seq<bool>, after: seq<bool>, ws: seq<int>, i: int)
    requires Grows(before, after) && MarkedUpTo(before, ws, i)
    requires 0 <= i < |ws| && 0 <= ws[i] < |after| && after[ws[i]]
    ensures MarkedUpTo(after, ws, i + 1)
  {
  }

  /**
   * Once every neighbour of `v` is marked, closure beyond the marks with `v`
   * added is closure beyond the marks without it.
   */
  lemma ClosedOutsideFinish(adj: seq<seq<int>>, before: seq<bool>, v: int, m: seq<bool>)
    requires 0 <= v < |adj| && |before| == |adj|
    requires ClosedOutside(adj, before[v := true], m) && MarkedUpTo(m, adj[v], |adj[v]|)
    ensures ClosedOutside(adj, before, m)
  {
    var entered := before[v := true];
    forall u, k | 0 <= u < |m| && m[u] && !before[u] && 0 <= k < |adj[u]|
      ensures 0 <= adj[u][k] < |m| && m[adj[u][k]]
    {
      if u != v {
        assert !entered[u];
      }
    }
  }

  /** Marking one more vertex adds it to the marked set. */
  lemma MarkOne(m: seq<bool>, v: int)
    requires 0 <= v < |m| && !m[v]
    ensures MarkedOf(m[v := true]) == MarkedOf(m) + {v}
    ensures UnmarkedOf(m[v := true]) == UnmarkedOf(m) - {v}
  {
  }

  /** Growing marks that newly cover `v` shrink the unmarked set. */
  lemma GrowsShrinks(before: seq<bool>, after: seq<bool>, v: int)
    requires Grows(before, after) && 0 <= v < |before| && !before[v] && after[v]
    ensures UnmarkedOf(after) < UnmarkedOf(before)
  {
    assert v in UnmarkedOf(before) - UnmarkedOf(after);
  }

  /** Closure beyond `before` composes over two stretches of growing marks. */
  lemma ClosedOutsideTransitive(adj: seq<seq<int>>, a: seq<bool>, b: seq<bool>, c: seq<bool>)
    requires ClosedOutside(adj, a, b) && ClosedOutside(adj, b, c) && Grows(b, c)
    ensures ClosedOutside(adj, a, c)
  {
  }

  /** Marks closed beyond a set with no marks are closed. */
  lemma ClosedFromNothing(adj: seq<seq<int>>, none: seq<bool>, m: seq<bool>)
    requires ClosedOutside(adj, none, m) && forall u :: 0 <= u < |none| ==> !none[u]
    ensures Closed(adj, m)
  {
    forall u, k | 0 <= u < |m| && m[u] && 0 <= k < |adj[u]|
      ensures 0 <= adj[u][k] < |m| && m[adj[u][k]]
    {
      assert !none[u];
    }
  }

  /** A closed set of vertices holds every vertex reachable from a member. */
  lemma {:induction false} ClosedHoldsPath(adj: seq<seq<int>>, m: seq<bool>, p: seq<int>)
    requires Closed(adj, m) && IsPath(adj, p) && m[p[0]]
    ensures m[p[|p| - 1]]
    decreases |p|
  {
    if |p| > 1 {
      var q := p[..|p| - 1];
      assert IsPath(adj, q);
      ClosedHoldsPath(adj, m, q);
      var u := q[|q| - 1];
      var k :| 0 <= k < |adj[u]| && adj[u][k] == p[|p| - 1];
    }
  }

  /** A closed set of vertices holds everything reachable from a member. */
  lemma ClosedHoldsReachable(adj: seq<seq<int>>, m: seq<bool>, s: int, t: int)
    requires Closed(adj, m) && 0 <= s < |m| && m[s] && Reachable(adj, s, t)
    ensures 0 <= t < |m| && m[t]
  {
    var p :| IsPath(adj, p) && p[0] == s && p[|p| - 1] == t;
    ClosedHoldsPath(adj, m, p);
  }

  /** The vertices reachable from `s`. */
  ghost function ReachableFrom(adj: seq<seq<int>>, s: int): set<int>
  {
    set t | 0 <= t < |adj| && Reachable(adj, s, t)
  }

  /**
   * Closed marks containing `s`, all reachable from `s`, are exactly the
   * vertices reachable from `s`.
   */
  lemma MarkedIsReachable(adj: seq<seq<int>>, m: seq<bool>, s: int)
    requires Closed(adj, m) && 0 <= s < |m| && m[s] && AllReachable(adj, s, m)
    ensures MarkedOf(m) == ReachableFrom(adj, s)
    ensures forall t :: 0 <= t < |m| ==> (m[t] <==> Reachable(adj, s, t))
  {
    forall t | 0 <= t < |m| && Reachable(adj, s, t)
      ensures m[t]
    {
      ClosedHoldsReachable(adj, m, s, t);
    }
  }

  // Cycles and two-colourings.

  /** No entry of `s` occurs twice. */
  predicate Distinct(s: seq<int>)
  {
    forall i, j :: 0 <= i < j < |s| ==> s[i] != s[j]
  }

  /**
   * `c` is a cycle of odd length: an odd number of distinct vertices, each
   * adjacent to the next and the last adjacent to the first (a single
   * vertex with a self-loop included).
   */
  ghost predicate IsOddCycle(adj: seq<seq<int>>, c: seq<int>)
  {
    |c| % 2 == 1 && IsPath(adj, c) && c[0] in adj[c[|c| - 1]] && Distinct(c)
  }

  /** `col` gives the two ends of every edge different colours. */
  ghost predicate ProperColouring(adj: seq<seq<int>>, col: seq<bool>)
  {
    |col| == |adj| &&
    forall x, k :: 0 <= x < |adj| && 0 <= k < |adj[x]| ==> 0 <= adj[x][k] < |col| && col[adj[x][k]] != col[x]
  }

  /** The graph is bipartite: some two-colouring is proper. */
  ghost predicate TwoColourable(adj: seq<seq<int>>)
  {
    exists col :: ProperColouring(adj, col)
  }

  /** Along a walk, a proper two-colouring alternates: entries an even distance apart share a colour. */
  lemma {:induction false} Alternates(adj: seq<seq<int>>, col: seq<bool>, c: seq<int>, k: int)
    requires ProperColouring(adj, col) && IsPath(adj, c) && 0 <= k < |c|
    ensures col[c[k]] == (col[c[0]] == (k % 2 == 0))
    decreases k
  {
    if k > 0 {
      Alternates(adj, col, c, k - 1);
      var i :| 0 <= i < |adj[c[k - 1]]| && adj[c[k - 1]][i] == c[k];
    }
  }

  /** A graph with an odd cycle has no proper two-colouring. */
  lemma OddCycleNotColourable(adj: seq<seq<int>>, c: seq<int>)
    requires IsOddCycle(adj, c)
    ensures !TwoColourable(adj)
  {
    forall col | ProperColouring(adj, col)
      ensures false
    {
      var n := |c|;
      Alternates(adj, col, c, n - 1);
      var i :| 0 <= i < |adj[c[n - 1]]| && adj[c[n - 1]][i] == c[0];
    }
  }
}
