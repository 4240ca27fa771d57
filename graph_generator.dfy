/**
 * The deterministic core of the graph constructions (graphs/graph_generator.rb).
 * Random draws are inputs: `shuffle!` of `Array 0...v` is the Fisher-Yates
 * pass of StandardRandom driven by a sequence of draws, and `uniform(v)`
 * draws are sequences of vertices. Each construction is the list of edges
 * its loop adds, in order; the graph it returns holds the bags of an empty
 * graph after adding those edges.
 */
module GraphGenerator {
  import opened Errors
  import opened Graphs
  import StandardRandom

  // ---------------------------------------------------------------------
  // Edge
  // ---------------------------------------------------------------------

  /** `Edge`: an undirected edge, the endpoint with the lower id in `v`. */
  datatype Edge = Edge(v: int, w: int)

  /** `Edge.new(v, w)`: the same two endpoints, the lower one first. */
  function NewEdge(a: int, b: int): (r: Edge)
    ensures r.v <= r.w && multiset{r.v, r.w} == multiset{a, b}
  {
    if a < b then Edge(a, b) else Edge(b, a)
  }

  /**
   * Two edges built from endpoint pairs are equal, in the sense of
   * Comparable's `==` (`<=>` giving 0), exactly when the pairs name the
   * same two endpoints in either order.
   */
  lemma NewEdgeIdentifiesPair(a: int, b: int, c: int, d: int)
    ensures NewEdge(a, b) == NewEdge(c, d) <==> (a == c && b == d) || (a == d && b == c)
  {
  }

  /** Integer `<=>`: -1, 0 or 1 as `a` is below, equal to or above `b`. */
  function Spaceship(a: int, b: int): (c: int)
    ensures (c == -1 <==> a < b) && (c == 0 <==> a == b) && (c == 1 <==> a > b)
  {
    if a < b then -1 else if a == b then 0 else 1
  }

  /** `Edge#<=>`: by the lower endpoint, ties broken by the higher one. */
  function Compare(x: Edge, y: Edge): (c: int)
    ensures -1 <= c <= 1
    ensures c == 0 <==> x == y
    ensures c == -1 <==> x.v < y.v || (x.v == y.v && x.w < y.w)
  {
    if x.v == y.v then Spaceship(x.w, y.w) else Spaceship(x.v, y.v)
  }

  /** `<=>` is a total order: it flips when its arguments swap, and it is transitive. */
  lemma CompareIsTotalOrder(x: Edge, y: Edge, z: Edge)
    ensures Compare(x, y) == -Compare(y, x)
    ensures Compare(x, y) <= 0 && Compare(y, z) <= 0 ==> Compare(x, z) <= 0
  {
  }

  // ---------------------------------------------------------------------
  // Argument checks of the rejection-sampling constructions
  // ---------------------------------------------------------------------

  /** `simple(v, e)`'s checks: ArgumentError unless `0 <= e <= v * (v - 1) / 2`. */
  function SimpleCheck(v: int, e: int): (o: Outcome)
    ensures o.Pass? <==> 0 <= e <= v * (v - 1) / 2
    ensures o.Fail? ==> o.error == ArgumentError
  {
    if e < 0 then Fail(ArgumentError)
    else if e > v * (v - 1) / 2 then Fail(ArgumentError)
    else Pass
  }

  /** `bipartite(v1, v2, e)`'s checks: ArgumentError unless `0 <= e <= v1 * v2`. */
  function BipartiteCheck(v1: int, v2: int, e: int): (o: Outcome)
    ensures o.Pass? <==> 0 <= e <= v1 * v2
    ensures o.Fail? ==> o.error == ArgumentError
  {
    if e < 0 then Fail(ArgumentError)
    else if e > v1 * v2 then Fail(ArgumentError)
    else Pass
  }

  // ---------------------------------------------------------------------
  // Building a graph from a list of edges
  // ---------------------------------------------------------------------

  /** Every endpoint listed in `es` is a vertex of a graph on `n` vertices. */
  predicate Fits(es: seq<(int, int)>, n: int)
  {
    forall j :: 0 <= j < |es| ==> 0 <= es[j].0 < n && 0 <= es[j].1 < n
  }

  /** The bags after `add_edge(a, b)` for each pair `(a, b)` of `es`, in order. */
  function AddedAll(adj: seq<seq<int>>, es: seq<(int, int)>): (r: seq<seq<int>>)
    requires Fits(es, |adj|)
    ensures |r| == |adj|
    decreases |es|
  {
    if |es| == 0 then adj
    else
      var last := es[|es| - 1];
      Added(AddedAll(adj, es[..|es| - 1]), last.0, last.1)
  }

  /** The bags of `Graph.new(n)` after adding the edges `es`. */
  function Built(n: nat, es: seq<(int, int)>): (r: seq<seq<int>>)
    requires Fits(es, n)
    ensures |r| == n
  {
    AddedAll(seq(n, _ => []), es)
  }

  /** How many endpoints of the edges `es` are `x` (a self-loop at `x` counts twice). */
  function Ends(es: seq<(int, int)>, x: int): nat
  {
    if |es| == 0 then 0
    else Ends(es[..|es| - 1], x) + (if es[|es| - 1].0 == x then 1 else 0) + (if es[|es| - 1].1 == x then 1 else 0)
  }

  /** Some edge of `es` joins `x` and `y`. */
  ghost predicate Joins(es: seq<(int, int)>, x: int, y: int)
  {
    exists j :: 0 <= j < |es| && (es[j] == (x, y) || es[j] == (y, x))
  }

  /**
   * Adding the edges `es` adds to the bag of `x` one entry per endpoint of
   * `es` at `x`, and `y` is then in that bag exactly when it was before or
   * some edge of `es` joins `x` and `y`.
   */
  lemma {:induction false} AddedAllBags(adj: seq<seq<int>>, es: seq<(int, int)>, x: int, y: int)
    requires Fits(es, |adj|) && 0 <= x < |adj|
    ensures |AddedAll(adj, es)[x]| == |adj[x]| + Ends(es, x)
    ensures y in AddedAll(adj, es)[x] <==> y in adj[x] || Joins(es, x, y)
    decreases |es|
  {
    if |es| > 0 {
      var n := |es|;
      var pre := es[..n - 1];
      var a, b := es[n - 1].0, es[n - 1].1;
      var mid := AddedAll(adj, pre);
      AddedAllBags(adj, pre, x, y);
      AddedBags(mid, a, b);
      AddedMembers(mid, a, b, x, y);
      if Joins(pre, x, y) {
        var j :| 0 <= j < |pre| && (pre[j] == (x, y) || pre[j] == (y, x));
        assert es[j] == pre[j];
      }
      if Joins(es, x, y) && !Joins(pre, x, y) {
        var j :| 0 <= j < n && (es[j] == (x, y) || es[j] == (y, x));
        assert forall k :: 0 <= k < n - 1 ==> pre[k] == es[k];
        assert j == n - 1;
      }
      if (x == a && y == b) || (x == b && y == a) {
        assert es[n - 1] == (x, y) || es[n - 1] == (y, x);
      }
    }
  }

  /** In a built graph, the degree of `x` is its number of endpoints, and `y` is a neighbour exactly when an edge joins them. */
  lemma BuiltBags(n: nat, es: seq<(int, int)>, x: int, y: int)
    requires Fits(es, n) && 0 <= x < n
    ensures |Built(n, es)[x]| == Ends(es, x)
    ensures y in Built(n, es)[x] <==> Joins(es, x, y)
  {
    AddedAllBags(seq(n, _ => []), es, x, y);
  }

  /** Adding `s` and then `t` is adding `s + t`. */
  lemma {:induction false} AddedAllAppend(adj: seq<seq<int>>, s: seq<(int, int)>, t: seq<(int, int)>)
    requires Fits(s, |adj|) && Fits(t, |adj|)
    ensures Fits(s + t, |adj|)
    ensures AddedAll(adj, s + t) == AddedAll(AddedAll(adj, s), t)
    decreases |t|
  {
    if |t| == 0 {
      assert s + t == s;
    } else {
      var n := |t|;
      assert (s + t)[..|s + t| - 1] == s + t[..n - 1];
      assert (s + t)[|s + t| - 1] == t[n - 1];
      AddedAllAppend(adj, s, t[..n - 1]);
    }
  }

  /**
   * The loop of a construction: `add_edge(a, b)` for each pair of `es` in
   * turn. The graph gains one edge per pair and its bags become those of
   * `AddedAll`.
   */
  method AddAll(g: Graph, es: seq<(int, int)>)
    requires g.Valid() && Fits(es, g.v)
    modifies g
    ensures g.Valid() && g.e == old(g.e) + |es| && g.adj == AddedAll(old(g.adj), es)
  {
    ghost var adj0 := g.adj;
    var i := 0;
    while i < |es|
      invariant 0 <= i <= |es| && g.Valid() && g.e == old(g.e) + i
      invariant Fits(es[..i], g.v) && g.adj == AddedAll(adj0, es[..i])
    {
      var o := g.AddEdge(es[i].0, es[i].1);
      assert es[..i + 1][..i] == es[..i];
      i := i + 1;
    }
    assert es[..|es|] == es;
  }

  // ---------------------------------------------------------------------
  // Shuffled vertices
  // ---------------------------------------------------------------------

  /** `Array 0...n`. */
  function Iota(n: nat): (r: seq<int>)
    ensures |r| == n
  {
    seq(n, i => i)
  }

  /** `p` lists every vertex `0...n` exactly once. */
  ghost predicate IsArrangement(p: seq<int>, n: nat)
  {
    |p| == n && (forall i :: 0 <= i < n ==> 0 <= p[i] < n) &&
    (forall i, j :: 0 <= i < j < n ==> p[i] != p[j]) &&
    (forall x :: 0 <= x < n ==> x in p)
  }

  /** `Array 0...n` holds each vertex once. */
  lemma {:induction false} IotaCounts(n: nat, x: int)
    ensures multiset(Iota(n))[x] == if 0 <= x < n then 1 else 0
  {
    if n > 0 {
      assert Iota(n) == Iota(n - 1) + [n - 1];
      IotaCounts(n - 1, x);
    }
  }

  /** A sequence with the elements of `Array 0...n` lists every vertex exactly once. */
  lemma PermutedIota(p: seq<int>, n: nat)
    requires |p| == n && multiset(p) == multiset(Iota(n))
    ensures IsArrangement(p, n)
  {
    forall i | 0 <= i < n
      ensures 0 <= p[i] < n
    {
      IotaCounts(n, p[i]);
    }
    forall i, j | 0 <= i < j < n
      ensures p[i] != p[j]
    {
      IotaCounts(n, p[i]);
      assert p == p[..j] + p[j..];
      assert p[i] in multiset(p[..j]) && p[j] in multiset(p[j..]);
    }
    forall x | 0 <= x < n
      ensures x in p
    {
      IotaCounts(n, x);
      assert x in multiset(p);
    }
  }

  /** `Array 0...n` after `shuffle!` with the draws `d`: an arrangement of the vertices. */
  function Arranged(n: nat, d: seq<int>): (p: seq<int>)
    requires StandardRandom.DrawsFit(d, n)
    ensures IsArrangement(p, n)
  {
    StandardRandom.ShuffledPermutes(Iota(n), 0, n, d);
    PermutedIota(StandardRandom.Shuffled(Iota(n), 0, n, d), n);
    StandardRandom.Shuffled(Iota(n), 0, n, d)
  }

  // ---------------------------------------------------------------------
  // Edge lists of the constructions
  // ---------------------------------------------------------------------

  /** Adding the edges `es` makes the endpoints of its `j`-th edge neighbours of each other. */
  lemma Listed(n: nat, es: seq<(int, int)>, j: int)
    requires Fits(es, n) && 0 <= j < |es|
    ensures es[j].1 in Built(n, es)[es[j].0] && es[j].0 in Built(n, es)[es[j].1]
  {
    BuiltBags(n, es, es[j].0, es[j].1);
    BuiltBags(n, es, es[j].1, es[j].0);
  }

  /** `each_cons(2)` over `p`: each entry paired with the next. */
  function Consecutive(p: seq<int>): (es: seq<(int, int)>)
    ensures |es| == if |p| == 0 then 0 else |p| - 1
  {
    if |p| == 0 then [] else seq(|p| - 1, i requires 0 <= i < |p| - 1 => (p[i], p[i + 1]))
  }

  /** The edges `each_cons(2)` adds along a sequence of vertices let that sequence run as a walk of the graph. */
  lemma ConsecutiveWalks(n: nat, w: seq<int>, es: seq<(int, int)>)
    requires |w| >= 1 && (forall i :: 0 <= i < |w| ==> 0 <= w[i] < n)
    requires Fits(es, n) && |es| >= |w| - 1 && es[..|w| - 1] == Consecutive(w)
    ensures IsPath(Built(n, es), w)
  {
    forall k | 0 <= k < |w| - 1
      ensures w[k + 1] in Built(n, es)[w[k]]
    {
      assert es[k] == es[..|w| - 1][k] == (w[k], w[k + 1]);
      Listed(n, es, k);
    }
  }

  /** Row `a` of `erdos_renyi(v, 1.0)`: the pairs `(a, b)` for `b` in `(a + 1)...v`. */
  function Row(a: int, v: int): (es: seq<(int, int)>)
    requires 0 <= a < v
    ensures |es| == v - a - 1
  {
    seq(v - a - 1, j => (a, a + 1 + j))
  }

  /** The pairs `erdos_renyi(v, 1.0)` adds for the rows `0...a`. */
  function CompletePrefix(a: nat, v: nat): seq<(int, int)>
    requires a <= v
  {
    if a == 0 then [] else CompletePrefix(a - 1, v) + Row(a - 1, v)
  }

  /** The pairs `complete(v)` adds, every row in order. */
  function CompleteEdges(v: nat): seq<(int, int)>
  {
    CompletePrefix(v, v)
  }

  /** The rows `0...a` hold `a * (2v - a - 1) / 2` pairs. */
  lemma {:induction false} CompletePrefixSize(a: nat, v: nat)
    requires a <= v
    ensures 2 * |CompletePrefix(a, v)| == a * (2 * v - a - 1)
  {
    if a > 0 {
      CompletePrefixSize(a - 1, v);
      assert (a - 1) * (2 * v - a) == a * (2 * v - a - 1) - 2 * (v - a);
    }
  }

  /** Every pair `(x, y)` of the rows `0...a` has `x < y < v` and `x < a`. */
  lemma {:induction false} CompletePrefixOrdered(a: nat, v: nat)
    requires a <= v
    ensures forall j :: 0 <= j < |CompletePrefix(a, v)| ==> 0 <= CompletePrefix(a, v)[j].0 < CompletePrefix(a, v)[j].1 < v && CompletePrefix(a, v)[j].0 < a
  {
    if a > 0 {
      CompletePrefixOrdered(a - 1, v);
      var pre, row := CompletePrefix(a - 1, v), Row(a - 1, v);
      var es := pre + row;
      forall j | 0 <= j < |es|
        ensures 0 <= es[j].0 < es[j].1 < v && es[j].0 < a
      {
        if j >= |pre| {
          assert es[j] == row[j - |pre|];
        } else {
          assert es[j] == pre[j];
        }
      }
    }
  }

  /** The rows `0...a` hold every pair `(x, y)` with `x < y < v` and `x < a`. */
  lemma {:induction false} CompletePrefixCovers(a: nat, v: nat)
    requires a <= v
    ensures forall x, y :: 0 <= x < a && x < y < v ==> (x, y) in CompletePrefix(a, v)
  {
    if a > 0 {
      CompletePrefixCovers(a - 1, v);
      var pre, row := CompletePrefix(a - 1, v), Row(a - 1, v);
      forall x, y | 0 <= x < a && x < y < v
        ensures (x, y) in pre + row
      {
        if x == a - 1 {
          assert row[y - a] == (x, y);
        } else {
          assert (x, y) in pre;
        }
      }
    }
  }

  /** The rows `0...a` hold no pair twice. */
  lemma {:induction false} CompletePrefixDistinct(a: nat, v: nat)
    requires a <= v
    ensures forall i, j :: 0 <= i < j < |CompletePrefix(a, v)| ==> CompletePrefix(a, v)[i] != CompletePrefix(a, v)[j]
  {
    if a > 0 {
      CompletePrefixDistinct(a - 1, v);
      CompletePrefixOrdered(a - 1, v);
      var pre, row := CompletePrefix(a - 1, v), Row(a - 1, v);
      var es := pre + row;
      forall i, j | 0 <= i < j < |es|
        ensures es[i] != es[j]
      {
        if j >= |pre| {
          assert es[j] == row[j - |pre|];
          if i >= |pre| {
            assert es[i] == row[i - |pre|];
          } else {
            assert es[i] == pre[i];
          }
        } else {
          assert es[i] == pre[i] && es[j] == pre[j];
        }
      }
    }
  }

  /**
   * `complete(v)` is the complete simple graph: `v * (v - 1) / 2` edges, no
   * two the same, and two vertices are neighbours exactly when they differ.
   */
  lemma CompleteIsComplete(v: nat)
    ensures Fits(CompleteEdges(v), v)
    ensures |CompleteEdges(v)| == v * (v - 1) / 2
    ensures forall i, j :: 0 <= i < j < |CompleteEdges(v)| ==> CompleteEdges(v)[i] != CompleteEdges(v)[j]
    ensures forall x, y :: 0 <= x < v && 0 <= y < v ==> (y in Built(v, CompleteEdges(v))[x] <==> x != y)
  {
    CompletePrefixSize(v, v);
    CompletePrefixOrdered(v, v);
    CompletePrefixCovers(v, v);
    CompletePrefixDistinct(v, v);
    var es := CompleteEdges(v);
    forall x, y | 0 <= x < v && 0 <= y < v
      ensures y in Built(v, es)[x] <==> x != y
    {
      BuiltBags(v, es, x, y);
      if x < y {
        assert (x, y) in es;
      } else if y < x {
        assert (y, x) in es;
      }
    }
  }

  /** `simple(v, e)` accepts exactly the edge counts a simple graph on `v` vertices can have. */
  lemma SimpleCheckCountsPairs(v: nat, e: int)
    ensures SimpleCheck(v, e).Pass? <==> 0 <= e <= |CompleteEdges(v)|
  {
    CompleteIsComplete(v);
  }

  /** The pairs `star(v)` adds: `vertices[0]` with each later vertex. */
  function StarEdges(p: seq<int>): (es: seq<(int, int)>)
    requires |p| >= 1
    ensures |es| == |p| - 1
  {
    seq(|p| - 1, i requires 0 <= i < |p| - 1 => (p[0], p[i + 1]))
  }

  /**
   * `star(v)` joins the hub `vertices[0]` to every other vertex and to
   * nothing else: two vertices are neighbours exactly when one of them is
   * the hub and the other is not, and the hub has degree `v - 1`.
   */
  lemma StarIsStar(p: seq<int>, n: nat)
    requires n >= 1 && IsArrangement(p, n)
    ensures Fits(StarEdges(p), n)
    ensures forall x, y :: 0 <= x < n && 0 <= y < n ==> (y in Built(n, StarEdges(p))[x] <==> (x == p[0]) != (y == p[0]))
    ensures |Built(n, StarEdges(p))[p[0]]| == n - 1
  {
    var es := StarEdges(p);
    forall x, y | 0 <= x < n && 0 <= y < n
      ensures y in Built(n, es)[x] <==> (x == p[0]) != (y == p[0])
    {
      BuiltBags(n, es, x, y);
      if (x == p[0]) != (y == p[0]) {
        var other := if x == p[0] then y else x;
        assert other in p;
        var i :| 0 <= i < n && p[i] == other;
        assert es[i - 1] == (p[0], other);
      }
    }
    BuiltBags(n, es, p[0], p[0]);
    HubEnds(p, n, n - 1);
    assert es[..n - 1] == es;
  }

  /** The first `k` star pairs have `k` endpoints at the hub. */
  lemma {:induction false} HubEnds(p: seq<int>, n: nat, k: nat)
    requires n >= 1 && IsArrangement(p, n) && k <= n - 1
    ensures Ends(StarEdges(p)[..k], p[0]) == k
  {
    if k > 0 {
      HubEnds(p, n, k - 1);
      assert StarEdges(p)[..k][..k - 1] == StarEdges(p)[..k - 1];
      assert StarEdges(p)[..k][k - 1] == (p[0], p[k]);
    }
  }

  /**
   * The pairs `wheel(v)` adds as written: `each_cons(2)` over
   * `vertices[0...(v - 1)]`, then `vertices.first` with `vertices.last`,
   * then `vertices[0]` with each later vertex. The hub `vertices[0]` is
   * also on the rim, and the rim is left open.
   */
  function WheelEdgesAsWritten(p: seq<int>): seq<(int, int)>
    requires |p| >= 2
  {
    Consecutive(p[..|p| - 1]) + [(p[0], p[|p| - 1])] + StarEdges(p)
  }

  /**
   * The pairs of the wheel as intended: the rim `vertices[1...v]` as a
   * cycle, closed by `vertices[v - 1]` and `vertices[1]`, and the hub
   * `vertices[0]` joined to every rim vertex.
   */
  function WheelEdges(p: seq<int>): (es: seq<(int, int)>)
    requires |p| >= 2
    ensures |es| == 2 * (|p| - 1)
  {
    Consecutive(p[1..]) + [(p[|p| - 1], p[1])] + StarEdges(p)
  }

  /**
   * `wheel(4)` as written, for the arrangement `[0, 1, 2, 3]`: vertex 3 is
   * joined only to the hub, so the rim is not a cycle.
   */
  lemma WheelAsWrittenLeavesRimOpen()
    ensures Fits(WheelEdgesAsWritten([0, 1, 2, 3]), 4)
    ensures 1 !in Built(4, WheelEdgesAsWritten([0, 1, 2, 3]))[3] && 2 !in Built(4, WheelEdgesAsWritten([0, 1, 2, 3]))[3]
  {
    var p := [0, 1, 2, 3];
    var es := WheelEdgesAsWritten(p);
    assert Consecutive(p[..3]) == [(0, 1), (1, 2)];
    assert StarEdges(p) == [(0, 1), (0, 2), (0, 3)];
    assert es == [(0, 1), (1, 2), (0, 3), (0, 1), (0, 2), (0, 3)];
    BuiltBags(4, es, 3, 1);
    BuiltBags(4, es, 3, 2);
  }

  /** The intended `wheel(4)`, for the same arrangement: vertex 3 is joined to both of its rim neighbours 1 and 2. */
  lemma WheelClosesRim()
    ensures Fits(WheelEdges([0, 1, 2, 3]), 4)
    ensures 1 in Built(4, WheelEdges([0, 1, 2, 3]))[3] && 2 in Built(4, WheelEdges([0, 1, 2, 3]))[3]
  {
    var p := [0, 1, 2, 3];
    var es := WheelEdges(p);
    assert Consecutive(p[1..]) == [(1, 2), (2, 3)];
    assert StarEdges(p) == [(0, 1), (0, 2), (0, 3)];
    assert es == [(1, 2), (2, 3), (3, 1), (0, 1), (0, 2), (0, 3)];
    Listed(4, es, 1);
    Listed(4, es, 2);
  }

  /** In the intended `wheel(v)` the hub `vertices[0]` is a neighbour of every other vertex. */
  lemma WheelHub(p: seq<int>, n: nat)
    requires n >= 2 && IsArrangement(p, n)
    ensures Fits(WheelEdges(p), n)
    ensures forall x :: 0 <= x < n && x != p[0] ==> x in Built(n, WheelEdges(p))[p[0]]
  {
    WheelFits(p, n);
    forall x | 0 <= x < n && x != p[0]
      ensures x in Built(n, WheelEdges(p))[p[0]]
    {
      var j := WheelSpoke(p, n, x);
      Listed(n, WheelEdges(p), j);
    }
  }

  /** Every pair of the intended wheel joins two vertices of the graph. */
  lemma WheelFits(p: seq<int>, n: nat)
    requires n >= 2 && IsArrangement(p, n)
    ensures Fits(WheelEdges(p), n)
  {
    var star := StarEdges(p);
    var rim := Consecutive(p[1..]) + [(p[n - 1], p[1])];
    assert WheelEdges(p) == rim + star;
    assert Fits(rim, n) && Fits(star, n);
  }

  /** The intended wheel has a spoke from the hub to every other vertex. */
  lemma WheelSpoke(p: seq<int>, n: nat, x: int) returns (j: int)
    requires n >= 2 && IsArrangement(p, n) && 0 <= x < n && x != p[0]
    ensures 0 <= j < |WheelEdges(p)| && WheelEdges(p)[j] == (p[0], x)
  {
    assert x in p;
    var i :| 0 <= i < n && p[i] == x;
    j := n - 1 + (i - 1);
    assert WheelEdges(p)[j] == StarEdges(p)[i - 1];
  }

  /** In the intended `wheel(v)` the rim `vertices[1...v]` is a walk of the graph, closed by an edge from its last vertex back to its first. */
  lemma WheelRim(p: seq<int>, n: nat)
    requires n >= 2 && IsArrangement(p, n)
    ensures Fits(WheelEdges(p), n)
    ensures IsPath(Built(n, WheelEdges(p)), p[1..]) && p[1] in Built(n, WheelEdges(p))[p[n - 1]]
  {
    var es := WheelEdges(p);
    var rim := p[1..];
    assert es[..n - 2] == Consecutive(rim);
    ConsecutiveWalks(n, rim, es);
    assert es[n - 2] == (p[n - 1], p[1]);
    Listed(n, es, n - 2);
  }

  /**
   * A wheel around the arrangement `p`: the hub `p[0]` is joined to every
   * other vertex, and `p[1..]` runs as a walk closed from its last vertex
   * back to `p[1]`.
   */
  ghost predicate IsWheel(adj: seq<seq<int>>, p: seq<int>)
  {
    |p| == |adj| >= 2 && (forall i :: 0 <= i < |p| ==> 0 <= p[i] < |adj|) &&
    (forall x :: 0 <= x < |adj| && x != p[0] ==> x in adj[p[0]]) &&
    IsPath(adj, p[1..]) && p[1] in adj[p[|p| - 1]]
  }

  /** The corrected `wheel` edges make a wheel. */
  lemma WheelIsWheel(p: seq<int>, n: nat)
    requires n >= 2 && IsArrangement(p, n)
    ensures Fits(WheelEdges(p), n) && IsWheel(Built(n, WheelEdges(p)), p)
  {
    WheelHub(p, n);
    WheelRim(p, n);
  }

  /** The pairs `cycle(v)` adds: `each_cons(2)`, then `vertices.last` with `vertices.first` when `v > 1`. */
  function CycleEdges(p: seq<int>): (es: seq<(int, int)>)
    ensures |es| == if |p| > 1 then |p| else 0
  {
    Consecutive(p) + if |p| > 1 then [(p[|p| - 1], p[0])] else []
  }

  /** `cycle(v)` for `v > 1`: the shuffled vertices run as a walk of the graph, closed by an edge from the last back to the first. */
  lemma CycleIsCycle(p: seq<int>, n: nat)
    requires n > 1 && IsArrangement(p, n)
    ensures Fits(CycleEdges(p), n)
    ensures IsPath(Built(n, CycleEdges(p)), p) && p[0] in Built(n, CycleEdges(p))[p[n - 1]]
  {
    var es := CycleEdges(p);
    ConsecutiveWalks(n, p, es);
    Listed(n, es, n - 1);
  }

  /** `path(v)` for `v >= 1`: the shuffled vertices, each exactly once, run as a walk of the graph. */
  lemma PathIsPath(p: seq<int>, n: nat)
    requires n >= 1 && IsArrangement(p, n)
    ensures Fits(Consecutive(p), n) && IsPath(Built(n, Consecutive(p)), p)
  {
    ConsecutiveWalks(n, p, Consecutive(p));
  }

  /** The pairs `binary_tree(v)` adds: `vertices[i]` with `vertices[(i - 1) / 2]` for `i` in `1...v`. */
  function BinaryTreeEdges(p: seq<int>): (es: seq<(int, int)>)
    ensures |es| == if |p| == 0 then 0 else |p| - 1
  {
    if |p| == 0 then [] else seq(|p| - 1, k requires 0 <= k < |p| - 1 => (p[k + 1], p[k / 2]))
  }

  /** In `binary_tree(v)` the vertex at position `i` is reached from the root `vertices[0]`. */
  lemma {:induction false} BinaryTreeReaches(p: seq<int>, n: nat, i: nat)
    requires n >= 1 && IsArrangement(p, n) && i < n
    ensures Fits(BinaryTreeEdges(p), n) && Reachable(Built(n, BinaryTreeEdges(p)), p[0], p[i])
    decreases i
  {
    var es := BinaryTreeEdges(p);
    assert Fits(es, n) by {
      forall k | 0 <= k < |es|
        ensures 0 <= es[k].0 < n && 0 <= es[k].1 < n
      {
        assert es[k] == (p[k + 1], p[k / 2]);
      }
    }
    var adj := Built(n, es);
    if i == 0 {
      assert IsPath(adj, [p[0]]);
    } else {
      BinaryTreeReaches(p, n, (i - 1) / 2);
      assert es[i - 1] == (p[i], p[(i - 1) / 2]);
      Listed(n, es, i - 1);
      WellFormedBuilt(n, es);
      ReachableStep(adj, p[0], p[(i - 1) / 2], p[i]);
    }
  }

  /** `binary_tree(v)` for `v >= 1`: every vertex is reached from the root, so its `v - 1` edges span the graph. */
  lemma BinaryTreeSpans(p: seq<int>, n: nat)
    requires n >= 1 && IsArrangement(p, n)
    ensures Fits(BinaryTreeEdges(p), n)
    ensures forall x :: 0 <= x < n ==> Reachable(Built(n, BinaryTreeEdges(p)), p[0], x)
  {
    BinaryTreeReaches(p, n, 0);
    forall x | 0 <= x < n
      ensures Reachable(Built(n, BinaryTreeEdges(p)), p[0], x)
    {
      assert x in p;
      var i :| 0 <= i < n && p[i] == x;
      BinaryTreeReaches(p, n, i);
    }
  }

  /** A built graph lists only vertices in its bags. */
  lemma WellFormedBuilt(n: nat, es: seq<(int, int)>)
    requires Fits(es, n)
    ensures WellFormed(Built(n, es))
  {
    var adj := Built(n, es);
    forall u, k | 0 <= u < n && 0 <= k < |adj[u]|
      ensures 0 <= adj[u][k] < n
    {
      BuiltBags(n, es, u, adj[u][k]);
      var j :| 0 <= j < |es| && (es[j] == (u, adj[u][k]) || es[j] == (adj[u][k], u));
    }
  }

  /** The pairs `eulerian_cycle(v, e)` adds for the drawn vertices `w`: `each_cons(2)`, then `w.first` with `w.last`. */
  function EulerianCycleEdges(w: seq<int>): (es: seq<(int, int)>)
    requires |w| >= 1
    ensures |es| == |w|
  {
    Consecutive(w) + [(w[0], w[|w| - 1])]
  }

  /**
   * `eulerian_cycle(v, e)`: the `e` drawn vertices run as a walk of the
   * graph and its last edge returns to the first, a closed walk using each
   * of the `e` edges once.
   */
  lemma EulerianCycleCloses(n: nat, w: seq<int>)
    requires |w| >= 1 && forall i :: 0 <= i < |w| ==> 0 <= w[i] < n
    ensures Fits(EulerianCycleEdges(w), n)
    ensures IsPath(Built(n, EulerianCycleEdges(w)), w) && w[0] in Built(n, EulerianCycleEdges(w))[w[|w| - 1]]
  {
    var es := EulerianCycleEdges(w);
    ConsecutiveWalks(n, w, es);
    Listed(n, es, |w| - 1);
  }

  /** `eulerian_path(v, e)`: the `e + 1` drawn vertices run as a walk along the `e` edges. */
  lemma EulerianPathWalks(n: nat, w: seq<int>)
    requires |w| >= 1 && forall i :: 0 <= i < |w| ==> 0 <= w[i] < n
    ensures Fits(Consecutive(w), n) && IsPath(Built(n, Consecutive(w)), w)
  {
    ConsecutiveWalks(n, w, Consecutive(w));
  }

  // ---------------------------------------------------------------------
  // The edge drawn by `bipartite`
  // ---------------------------------------------------------------------

  /**
   * The edge `bipartite(v1, v2, e)` draws as written for the draws
   * `uniform(v1) = a` and `uniform(v2) = b`: both endpoints index the
   * shuffled `vertices` from 0.
   */
  function DrawnEdgeAsWritten(p: seq<int>, a: int, b: int): Edge
    requires 0 <= a < |p| && 0 <= b < |p|
  {
    NewEdge(p[a], p[b])
  }

  /**
   * The edge as intended, the way `erdos_renyi_bipartite` indexes it: the
   * second endpoint comes from the second part, `vertices[v1 + b]`.
   */
  function DrawnEdge(p: seq<int>, v1: int, a: int, b: int): Edge
    requires 0 <= a < v1 && 0 <= b && v1 + b < |p|
  {
    NewEdge(p[a], p[v1 + b])
  }

  /**
   * As written, with `v1 = v2 = 2` and the vertices left in order, the
   * checks accept `e = 4`, and every edge drawn lies inside the first part
   * {0, 1}: a draw with `a == b` is a self-loop, and no draw crosses to
   * {2, 3}. The graph `complete_bipartite(2, 2)` returns is then neither
   * bipartite nor free of self-loops.
   */
  lemma BipartiteAsWrittenDrawsInsideOnePart()
    ensures BipartiteCheck(2, 2, 4).Pass?
    ensures (set a, b | 0 <= a < 2 && 0 <= b < 2 :: DrawnEdgeAsWritten([0, 1, 2, 3], a, b)) == {Edge(0, 0), Edge(0, 1), Edge(1, 1)}
  {
    var p := [0, 1, 2, 3];
    var drawn := set a, b | 0 <= a < 2 && 0 <= b < 2 :: DrawnEdgeAsWritten(p, a, b);
    assert DrawnEdgeAsWritten(p, 0, 0) == Edge(0, 0);
    assert DrawnEdgeAsWritten(p, 0, 1) == Edge(0, 1);
    assert DrawnEdgeAsWritten(p, 1, 1) == Edge(1, 1);
    assert DrawnEdgeAsWritten(p, 1, 0) == Edge(0, 1);
  }

  /**
   * As intended, every drawn edge joins the two parts (no self-loop, one
   * endpoint among the first `v1` shuffled vertices and the other not),
   * and different draws give different edges, so `v1 * v2` distinct edges
   * can be drawn, the most the checks accept.
   */
  lemma DrawnEdgesCross(p: seq<int>, v1: nat, v2: nat, a: int, b: int, c: int, d: int)
    requires IsArrangement(p, v1 + v2) && 0 <= a < v1 && 0 <= b < v2 && 0 <= c < v1 && 0 <= d < v2
    ensures DrawnEdge(p, v1, a, b).v != DrawnEdge(p, v1, a, b).w
    ensures (DrawnEdge(p, v1, a, b).v in p[..v1]) != (DrawnEdge(p, v1, a, b).w in p[..v1])
    ensures DrawnEdge(p, v1, a, b) == DrawnEdge(p, v1, c, d) ==> a == c && b == d
  {
    assert p[a] in p[..v1] by {
      assert p[..v1][a] == p[a];
    }
    assert p[v1 + b] !in p[..v1] by {
      forall i | 0 <= i < v1
        ensures p[..v1][i] != p[v1 + b]
      {
        assert p[..v1][i] == p[i];
      }
    }
    NewEdgeIdentifiesPair(p[a], p[v1 + b], p[c], p[v1 + d]);
  }

  // ---------------------------------------------------------------------
  // `regular`
  // ---------------------------------------------------------------------

  /**
   * `regular(v, k)`'s checks as written. The `k < 0` branch reads
   * `fail ArgumentError "..."` with no comma, which calls a method named
   * `ArgumentError` and raises NoMethodError; an odd `v * k` raises
   * ArgumentError.
   */
  function RegularCheckAsWritten(v: int, k: int): (o: Outcome)
    ensures k < 0 ==> o == Fail(NoMethodError)
    ensures k >= 0 ==> (o.Pass? <==> (v * k) % 2 == 0) && (o.Fail? ==> o.error == ArgumentError)
  {
    if k < 0 then Fail(NoMethodError)
    else if (v * k) % 2 == 1 then Fail(ArgumentError)
    else Pass
  }

  /** `regular(v, k)`'s checks as documented: ArgumentError for a negative degree or an odd `v * k`. */
  function RegularCheck(v: int, k: int): (o: Outcome)
    ensures o.Pass? <==> k >= 0 && (v * k) % 2 == 0
    ensures o.Fail? ==> o.error == ArgumentError
  {
    if k < 0 then Fail(ArgumentError)
    else if (v * k) % 2 == 1 then Fail(ArgumentError)
    else Pass
  }

  /** With a negative degree the code as written raises NoMethodError where ArgumentError is documented; otherwise the two checks agree. */
  lemma RegularNegativeDegree(v: int, k: int)
    ensures k < 0 ==> RegularCheckAsWritten(v, k) == Fail(NoMethodError) && RegularCheck(v, k) == Fail(ArgumentError)
    ensures k >= 0 ==> RegularCheckAsWritten(v, k) == RegularCheck(v, k)
  {
  }

  /** Position `i + v * j` of the `vertices` array of `regular`: copy `j` of vertex `i`. */
  function Slot(v: int, i: int, j: int): int
  {
    i + v * j
  }

  /** `k` copies of each vertex, block after block: the contents the fill loop of `regular` gives `vertices`. */
  function Copies(v: nat, k: nat): (r: seq<int>)
    ensures |r| == v * k
  {
    if k == 0 then [] else assert v * k == v * (k - 1) + v; Copies(v, k - 1) + Iota(v)
  }

  /** Copy `j` of vertex `i` lies inside the array, and the copies hold `i` there. */
  lemma {:induction false} CopiesSlot(v: nat, k: nat, i: int, j: int)
    requires 0 <= i < v && 0 <= j < k
    ensures 0 <= Slot(v, i, j) < v * k && Copies(v, k)[Slot(v, i, j)] == i
    decreases k
  {
    assert v * k == v * (k - 1) + v;
    if j < k - 1 {
      CopiesSlot(v, k - 1, i, j);
    } else {
      assert Slot(v, i, j) == v * (k - 1) + i;
    }
  }

  /** Every position of the array is copy `t / v` of vertex `t % v`. */
  lemma Decompose(v: nat, k: nat, t: int)
    requires 0 <= t < v * k
    ensures v > 0 && 0 <= t % v < v && 0 <= t / v < k && Slot(v, t % v, t / v) == t
  {
    assert v > 0;
    assert t == v * (t / v) + t % v;
  }

  /** The copies hold each vertex `k` times and nothing else. */
  lemma {:induction false} CopiesCount(v: nat, k: nat, x: int)
    ensures multiset(Copies(v, k))[x] == if 0 <= x < v then k else 0
  {
    if k > 0 {
      CopiesCount(v, k - 1, x);
      IotaCounts(v, x);
    }
  }

  /**
   * The fill loop of `regular`: `vertices[i + v * j] = i` for each vertex
   * `i` and copy `j`, leaving the array equal to `Copies(v, k)`.
   */
  method FillCopies(v: nat, k: nat) returns (a: array<int>)
    ensures fresh(a) && a[..] == Copies(v, k)
  {
    a := new int[v * k];
    ghost var written: set<int> := {};
    var i := 0;
    while i < v
      invariant 0 <= i <= v
      invariant forall t :: t in written ==> 0 <= t < v * k && a[t] == Copies(v, k)[t]
      invariant forall i', j' :: 0 <= i' < i && 0 <= j' < k ==> Slot(v, i', j') in written
    {
      var j := 0;
      while j < k
        invariant 0 <= j <= k
        invariant forall t :: t in written ==> 0 <= t < v * k && a[t] == Copies(v, k)[t]
        invariant forall i', j' :: 0 <= i' < i && 0 <= j' < k ==> Slot(v, i', j') in written
        invariant forall j' :: 0 <= j' < j ==> Slot(v, i, j') in written
      {
        CopiesSlot(v, k, i, j);
        a[i + v * j] := i;
        written := written + {Slot(v, i, j)};
        j := j + 1;
      }
      i := i + 1;
    }
    forall t | 0 <= t < v * k
      ensures a[t] == Copies(v, k)[t]
    {
      Decompose(v, k, t);
    }
  }

  /** The pairs the loop of `regular` adds: positions `2i` and `2i + 1` of the shuffled copies. */
  function Paired(s: seq<int>): (es: seq<(int, int)>)
    ensures |es| == |s| / 2
  {
    seq(|s| / 2, i requires 0 <= i < |s| / 2 => (s[2 * i], s[2 * i + 1]))
  }

  /** Pairing off a sequence of even length gives each entry one endpoint. */
  lemma {:induction false} PairedEnds(s: seq<int>, x: int)
    requires |s| % 2 == 0
    ensures Ends(Paired(s), x) == multiset(s)[x]
    decreases |s|
  {
    if |s| > 0 {
      var n := |s|;
      var t := s[..n - 2];
      PairedEnds(t, x);
      var es := Paired(s);
      assert es[..|es| - 1] == Paired(t);
      assert es[|es| - 1] == (s[n - 2], s[n - 1]);
      assert s == t + [s[n - 2], s[n - 1]];
    }
  }

  /**
   * `regular(v, k)`: whatever order the shuffle leaves the copies in, the
   * graph has `v * k / 2` edges and every vertex has degree `k`, a
   * self-loop counting twice.
   */
  lemma RegularIsRegular(v: nat, k: nat, s: seq<int>)
    requires (v * k) % 2 == 0 && |s| == v * k && multiset(s) == multiset(Copies(v, k))
    ensures Fits(Paired(s), v) && |Paired(s)| == v * k / 2
    ensures forall x :: 0 <= x < v ==> |Built(v, Paired(s))[x]| == k
  {
    forall i | 0 <= i < |s|
      ensures 0 <= s[i] < v
    {
      assert s[i] in multiset(Copies(v, k));
      CopiesCount(v, k, s[i]);
    }
    var es := Paired(s);
    assert Fits(es, v) by {
      forall j | 0 <= j < |es|
        ensures 0 <= es[j].0 < v && 0 <= es[j].1 < v
      {
        assert es[j] == (s[2 * j], s[2 * j + 1]);
      }
    }
    forall x | 0 <= x < v
      ensures |Built(v, es)[x]| == k
    {
      BuiltBags(v, es, x, x);
      PairedEnds(s, x);
      CopiesCount(v, k, x);
    }
  }

  // ---------------------------------------------------------------------
  // The constructions
  // ---------------------------------------------------------------------

  /**
   * `complete(v)`, that is `erdos_renyi(v, 1.0)`, where every Bernoulli
   * trial succeeds: ArgumentError for a negative `v`; otherwise row `a`
   * joins `a` to each `b` in `a + 1...v`, giving one edge per pair.
   */
  method Complete(v: int) returns (r: Result<Graph>)
    ensures r.Err? <==> v < 0
    ensures r.Err? ==> r.error == ArgumentError
    ensures r.Ok? ==> fresh(r.value) && r.value.Valid() && r.value.v == v
    ensures r.Ok? ==> Fits(CompleteEdges(v), v) && r.value.adj == Built(v, CompleteEdges(v)) && r.value.e == v * (v - 1) / 2
    ensures r.Ok? ==> forall x, y :: 0 <= x < v && 0 <= y < v ==> (y in r.value.adj[x] <==> x != y)
  {
    r := Graph.New(v);
    if r.Err? {
      return;
    }
    var g := r.value;
    var a := 0;
    while a < v
      invariant 0 <= a <= v && g.Valid() && g.v == v
      invariant Fits(CompletePrefix(a, v), v) && g.adj == Built(v, CompletePrefix(a, v)) && g.e == |CompletePrefix(a, v)|
    {
      AddAll(g, Row(a, v));
      AddedAllAppend(seq(v, _ => []), CompletePrefix(a, v), Row(a, v));
      a := a + 1;
    }
    CompleteIsComplete(v);
  }

  /**
   * `path(v)`: ArgumentError for a negative `v`; otherwise the shuffled
   * vertices, joined one after the next, run as a walk of the graph.
   */
  method Path(v: int, d: seq<int>) returns (r: Result<Graph>)
    requires v >= 0 ==> StandardRandom.DrawsFit(d, v)
    ensures r.Err? <==> v < 0
    ensures r.Err? ==> r.error == ArgumentError
    ensures r.Ok? ==> fresh(r.value) && r.value.Valid() && r.value.v == v
    ensures r.Ok? ==> r.value.adj == Built(v, Consecutive(Arranged(v, d))) && r.value.e == if v == 0 then 0 else v - 1
    ensures r.Ok? && v >= 1 ==> IsPath(r.value.adj, Arranged(v, d))
  {
    r := Graph.New(v);
    if r.Err? {
      return;
    }
    var vertices := Arranged(v, d);
    if v >= 1 {
      PathIsPath(vertices, v);
    }
    AddAll(r.value, Consecutive(vertices));
  }

  /**
   * `cycle(v)`: ArgumentError for a negative `v`; otherwise the path of
   * `path(v)` closed by an edge from its last vertex to its first when
   * `v > 1`.
   */
  method Cycle(v: int, d: seq<int>) returns (r: Result<Graph>)
    requires v >= 0 ==> StandardRandom.DrawsFit(d, v)
    ensures r.Err? <==> v < 0
    ensures r.Err? ==> r.error == ArgumentError
    ensures r.Ok? ==> fresh(r.value) && r.value.Valid() && r.value.v == v
    ensures r.Ok? ==> r.value.adj == Built(v, CycleEdges(Arranged(v, d))) && r.value.e == if v > 1 then v else 0
    ensures r.Ok? && v > 1 ==> IsPath(r.value.adj, Arranged(v, d)) && Arranged(v, d)[0] in r.value.adj[Arranged(v, d)[v - 1]]
  {
    r := Graph.New(v);
    if r.Err? {
      return;
    }
    var vertices := Arranged(v, d);
    if v > 1 {
      CycleIsCycle(vertices, v);
    }
    AddAll(r.value, CycleEdges(vertices));
  }

  /**
   * `star(v)`: ArgumentError for `v < 1`; otherwise `vertices[0]` is joined
   * to every other vertex, and no two other vertices are joined.
   */
  method Star(v: int, d: seq<int>) returns (r: Result<Graph>)
    requires v >= 1 ==> StandardRandom.DrawsFit(d, v)
    ensures r.Err? <==> v < 1
    ensures r.Err? ==> r.error == ArgumentError
    ensures r.Ok? ==> fresh(r.value) && r.value.Valid() && r.value.v == v
    ensures r.Ok? ==> r.value.adj == Built(v, StarEdges(Arranged(v, d))) && r.value.e == v - 1
    ensures r.Ok? ==> |r.value.adj[Arranged(v, d)[0]]| == v - 1
    ensures r.Ok? ==> forall x, y :: 0 <= x < v && 0 <= y < v ==> (y in r.value.adj[x] <==> (x == Arranged(v, d)[0]) != (y == Arranged(v, d)[0]))
  {
    if v < 1 {
      return Err(ArgumentError);
    }
    r := Graph.New(v);
    var vertices := Arranged(v, d);
    StarIsStar(vertices, v);
    AddAll(r.value, StarEdges(vertices));
  }

  /**
   * `wheel(v)` as intended: ArgumentError for `v < 2`; otherwise a cycle
   * through `vertices[1...v]`, closed from the last back to `vertices[1]`,
   * plus an edge from the hub `vertices[0]` to every other vertex.
   */
  method Wheel(v: int, d: seq<int>) returns (r: Result<Graph>)
    requires v >= 2 ==> StandardRandom.DrawsFit(d, v)
    ensures r.Err? <==> v < 2
    ensures r.Err? ==> r.error == ArgumentError
    ensures r.Ok? ==> fresh(r.value) && r.value.Valid() && r.value.v == v
    ensures r.Ok? ==> var p := Arranged(v, d); r.value.adj == Built(v, WheelEdges(p)) && r.value.e == 2 * (v - 1)
    ensures r.Ok? ==> IsWheel(r.value.adj, Arranged(v, d))
  {
    if v < 2 {
      return Err(ArgumentError);
    }
    r := Graph.New(v);
    var vertices := Arranged(v, d);
    WheelIsWheel(vertices, v);
    AddAll(r.value, WheelEdges(vertices));
  }

  /**
   * `binary_tree(v)`: ArgumentError for a negative `v`; otherwise
   * `vertices[i]` is joined to its parent `vertices[(i - 1) / 2]`, so
   * `max(v - 1, 0)` edges reach every vertex from the root `vertices[0]`.
   */
  method BinaryTree(v: int, d: seq<int>) returns (r: Result<Graph>)
    requires v >= 0 ==> StandardRandom.DrawsFit(d, v)
    ensures r.Err? <==> v < 0
    ensures r.Err? ==> r.error == ArgumentError
    ensures r.Ok? ==> fresh(r.value) && r.value.Valid() && r.value.v == v
    ensures r.Ok? ==> r.value.adj == Built(v, BinaryTreeEdges(Arranged(v, d))) && r.value.e == if v == 0 then 0 else v - 1
    ensures r.Ok? && v >= 1 ==> forall x :: 0 <= x < v ==> Reachable(r.value.adj, Arranged(v, d)[0], x)
  {
    r := Graph.New(v);
    if r.Err? {
      return;
    }
    var vertices := Arranged(v, d);
    if v >= 1 {
      BinaryTreeSpans(vertices, v);
    }
    AddAll(r.value, BinaryTreeEdges(vertices));
  }

  /**
   * `eulerian_path(v, e)`: ArgumentError for `e < 0` or `v < 1`; otherwise
   * the `e + 1` drawn vertices `w`, joined one after the next, give `e`
   * edges along which `w` runs as a walk.
   */
  method EulerianPath(v: int, e: int, w: seq<int>) returns (r: Result<Graph>)
    requires e >= 0 && v >= 1 ==> |w| == e + 1 && forall i :: 0 <= i < |w| ==> 0 <= w[i] < v
    ensures r.Err? <==> e < 0 || v < 1
    ensures r.Err? ==> r.error == ArgumentError
    ensures r.Ok? ==> fresh(r.value) && r.value.Valid() && r.value.v == v
    ensures r.Ok? ==> r.value.adj == Built(v, Consecutive(w)) && r.value.e == e
    ensures r.Ok? ==> IsPath(r.value.adj, w)
  {
    if e < 0 || v < 1 {
      return Err(ArgumentError);
    }
    r := Graph.New(v);
    EulerianPathWalks(v, w);
    AddAll(r.value, Consecutive(w));
  }

  /**
   * `eulerian_cycle(v, e)`: ArgumentError for `e < 1` or `v < 1`; otherwise
   * the `e` drawn vertices `w` joined one after the next, and the first
   * joined to the last: `e` edges, along which `w` runs as a closed walk.
   */
  method EulerianCycle(v: int, e: int, w: seq<int>) returns (r: Result<Graph>)
    requires e >= 1 && v >= 1 ==> |w| == e && forall i :: 0 <= i < |w| ==> 0 <= w[i] < v
    ensures r.Err? <==> e < 1 || v < 1
    ensures r.Err? ==> r.error == ArgumentError
    ensures r.Ok? ==> fresh(r.value) && r.value.Valid() && r.value.v == v
    ensures r.Ok? ==> r.value.adj == Built(v, EulerianCycleEdges(w)) && r.value.e == e
    ensures r.Ok? ==> IsPath(r.value.adj, w) && w[0] in r.value.adj[w[|w| - 1]]
  {
    if e < 1 || v < 1 {
      return Err(ArgumentError);
    }
    r := Graph.New(v);
    EulerianCycleCloses(v, w);
    AddAll(r.value, EulerianCycleEdges(w));
  }

  /**
   * `regular(v, k)` with the documented checks: ArgumentError for `k < 0`,
   * an odd `v * k` or a negative `v`; otherwise `k` copies of each vertex
   * are shuffled in place and paired off, giving `v * k / 2` edges and
   * degree `k` at every vertex.
   */
  method Regular(v: int, k: int, d: seq<int>) returns (r: Result<Graph>)
    requires v >= 0 && k >= 0 && v * k > 0 ==> StandardRandom.DrawsFit(d, v * k)
    ensures r.Err? <==> RegularCheck(v, k).Fail? || v < 0
    ensures r.Err? ==> r.error == ArgumentError
    ensures r.Ok? ==> fresh(r.value) && r.value.Valid() && r.value.v == v
    ensures r.Ok? ==> var s := StandardRandom.ShuffledRange(Copies(v, k), 0, v * k, d); Fits(Paired(s), v) && r.value.adj == Built(v, Paired(s))
    ensures r.Ok? ==> r.value.e == v * k / 2 && forall x :: 0 <= x < v ==> |r.value.adj[x]| == k
  {
    var check := RegularCheck(v, k);
    if check.Fail? {
      return Err(check.error);
    }
    r := Graph.New(v);
    if r.Err? {
      return;
    }
    var g := r.value;
    var vertices := FillCopies(v, k);
    var _ := StandardRandom.ShuffleInPlace(vertices, 0, v * k, d);
    RegularIsRegular(v, k, vertices[..]);
    AddAll(g, Paired(vertices[..]));
  }
}
