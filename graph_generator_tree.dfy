/**
 * `tree(v)` of graphs/graph_generator.rb: a uniformly drawn Prüfer
 * sequence decoded into a tree with the help of a MinPQ of leaves.
 */
module GraphGeneratorTree {
  import opened Errors
  import opened Graphs
  import MinPQs
  import opened GraphGenerator


  /** `(0...n).select { |i| 1 == degrees[i] }` over the first `n` degrees. */
  function Ones(deg: seq<int>, n: nat): (r: seq<int>)
    requires n <= |deg|
  {
    if n == 0 then [] else Ones(deg, n - 1) + if deg[n - 1] == 1 then [n - 1] else []
  }

  /** The selection holds each vertex of degree 1 once, and nothing else. */
  lemma {:induction false} OnesCount(deg: seq<int>, n: nat, x: int)
    requires n <= |deg|
    ensures multiset(Ones(deg, n))[x] == if 0 <= x < n && deg[x] == 1 then 1 else 0
  {
    if n > 0 {
      var m := n - 1;
      OnesCount(deg, m, x);
      var tail := if deg[m] == 1 then [m] else [];
      assert Ones(deg, n) == Ones(deg, m) + tail;
      assert multiset(Ones(deg, n))[x] == multiset(Ones(deg, m))[x] + multiset(tail)[x];
    }
  }

  /** The vertices dealt with are vertices that do not occur in the rest of the sequence. */
  ghost predicate Dealt(v: nat, rest: seq<int>, removed: set<int>)
  {
    forall x :: x in removed ==> 0 <= x < v && x !in rest
  }

  /** A vertex dealt with has degree 0; any other has one more than its occurrences in the rest. */
  ghost predicate DegreesLeft(v: nat, rest: seq<int>, deg: seq<int>, removed: set<int>)
  {
    |deg| == v && forall x :: 0 <= x < v ==> deg[x] == if x in removed then 0 else 1 + multiset(rest)[x]
  }

  /** The leaves are the vertices not dealt with that do not occur in the rest. */
  ghost predicate LeavesLeft(v: nat, rest: seq<int>, removed: set<int>, leaves: set<int>)
  {
    forall x :: x in leaves <==> 0 <= x < v && x !in removed && x !in rest
  }

  /** Each bag plus its vertex's degree is one more than the vertex's occurrences in the whole sequence, and no bag holds its own vertex. */
  ghost predicate BagsLeft(v: nat, prufer: seq<int>, deg: seq<int>, adj: seq<seq<int>>)
  {
    |deg| == v && |adj| == v && forall x :: 0 <= x < v ==> |adj[x]| + deg[x] == 1 + multiset(prufer)[x] && x !in adj[x]
  }

  /**
   * The state of `tree(v)`'s decoding loop after `i` steps, with `removed`
   * the `i` leaves taken from the queue so far and `leaves` the keys in it.
   */
  ghost predicate Decoding(v: nat, prufer: seq<int>, i: nat, deg: seq<int>, removed: set<int>, leaves: set<int>, adj: seq<seq<int>>)
  {
    v >= 2 && |prufer| == v - 2 && i <= v - 2 && (forall k :: 0 <= k < |prufer| ==> 0 <= prufer[k] < v) &&
    |removed| == i && Dealt(v, prufer[i..], removed) && DegreesLeft(v, prufer[i..], deg, removed) &&
    LeavesLeft(v, prufer[i..], removed, leaves) && BagsLeft(v, prufer, deg, adj)
  }

  /** Before the loop: no vertex dealt with, the degrees counted, the leaves those of degree 1. */
  lemma DecodingStart(v: nat, prufer: seq<int>, deg: seq<int>)
    requires v >= 2 && |prufer| == v - 2 && forall k :: 0 <= k < |prufer| ==> 0 <= prufer[k] < v
    requires |deg| == v && forall x :: 0 <= x < v ==> deg[x] == 1 + multiset(prufer)[x]
    ensures Decoding(v, prufer, 0, deg, {}, set x | 0 <= x < v && deg[x] == 1, seq(v, _ => []))
    ensures multiset(Ones(deg, v)) == multiset(set x | 0 <= x < v && deg[x] == 1)
  {
    assert prufer[0..] == prufer;
    forall x
      ensures multiset(Ones(deg, v))[x] == multiset(set x | 0 <= x < v && deg[x] == 1)[x]
    {
      OnesCount(deg, v, x);
    }
  }

  /** `|A - B|` is at least `|A| - |B|`. */
  lemma DifferenceCard(a: set<int>, b: set<int>)
    ensures |a - b| >= |a| - |b|
  {
    assert a == (a - b) + (a * b) && (a - b) * (a * b) == {};
    assert b == (b - a) + (a * b) && (b - a) * (a * b) == {};
  }

  /** The vertices `0...n` are `n` in number. */
  lemma {:induction false} RangeCard(n: nat)
    ensures |set x | x in Iota(n)| == n
    ensures forall x :: x in Iota(n) <==> 0 <= x < n
  {
    forall x
      ensures x in Iota(n) <==> 0 <= x < n
    {
      IotaCounts(n, x);
    }
    if n > 0 {
      var m := n - 1;
      RangeCard(m);
      assert Iota(n) == Iota(m) + [m];
      assert (set x | x in Iota(n)) == (set x | x in Iota(m)) + {m};
    }
  }

  /** A sequence has no more distinct values than entries. */
  lemma {:induction false} ValuesCard(s: seq<int>)
    ensures |set x | x in s| <= |s|
  {
    if s != [] {
      ValuesCard(s[1..]);
      assert (set x | x in s) == (set x | x in s[1..]) + {s[0]};
    }
  }

  /**
   * With `rest` the part of the sequence still to decode, at least two
   * leaves are left: `v - |removed|` vertices are left and `rest` names at
   * most `|rest|` of them. Once `rest` is empty the leaves are exactly the
   * vertices not dealt with.
   */
  lemma LeavesLeftCount(v: nat, rest: seq<int>, removed: set<int>, leaves: set<int>)
    requires |rest| + |removed| + 2 == v && Dealt(v, rest, removed) && LeavesLeft(v, rest, removed, leaves)
    ensures |leaves| >= 2
    ensures rest == [] ==> |leaves| == 2 && forall x :: 0 <= x < v ==> (x in leaves <==> x !in removed)
  {
    var all := set x | x in Iota(v);
    var left := all - removed;
    var named := set x | x in rest;
    RangeCard(v);
    assert |left| == |all| - |removed| by {
      forall x | x in removed
        ensures x in all
      {
        assert 0 <= x < v;
      }
      assert all == left + removed && left * removed == {};
    }
    ValuesCard(rest);
    DifferenceCard(left, named);
    forall x
      ensures x in leaves <==> x in left - named
    {
      assert x in all <==> x in Iota(v);
      assert x in named <==> x in rest;
    }
    assert leaves == left - named;
  }

  /** There are always at least two leaves in the queue, and exactly two after the last step. */
  lemma LeavesCount(v: nat, prufer: seq<int>, i: nat, deg: seq<int>, removed: set<int>, leaves: set<int>, adj: seq<seq<int>>)
    requires Decoding(v, prufer, i, deg, removed, leaves, adj)
    ensures |leaves| >= 2
    ensures i == v - 2 ==> |leaves| == 2 && forall x :: 0 <= x < v ==> (x in leaves <==> x !in removed)
  {
    LeavesLeftCount(v, prufer[i..], removed, leaves);
  }

  /** The leaf taken at step `i` is not the vertex it is joined to, which is no leaf. */
  lemma DecodingPick(v: nat, prufer: seq<int>, i: nat, deg: seq<int>, removed: set<int>, leaves: set<int>, adj: seq<seq<int>>, a: int)
    requires Decoding(v, prufer, i, deg, removed, leaves, adj) && i < v - 2 && a in leaves
    ensures 0 <= a < v && a != prufer[i] && deg[a] == 1 && deg[prufer[i]] >= 2 && prufer[i] !in leaves && prufer[i] !in removed
  {
    assert prufer[i] == prufer[i..][0];
    assert prufer[i] in multiset(prufer[i..]);
  }

  /** Taking the leaf `a` and the next entry `b` leaves `a` dealt with. */
  lemma StepDealt(v: nat, b: int, rest: seq<int>, removed: set<int>, a: int)
    requires Dealt(v, [b] + rest, removed) && 0 <= a < v && a !in [b] + rest
    ensures Dealt(v, rest, removed + {a})
  {
    forall x | x in removed
      ensures x !in rest
    {
      assert x !in [b] + rest;
    }
  }

  /** The step's degree updates: `a` drops to 0 and `b` loses the occurrence just decoded. */
  lemma StepDegrees(v: nat, b: int, rest: seq<int>, deg: seq<int>, removed: set<int>, a: int, deg2: seq<int>)
    requires DegreesLeft(v, [b] + rest, deg, removed) && 0 <= a < v && 0 <= b < v && a != b
    requires a !in removed && a !in [b] + rest && b !in removed
    requires deg2 == deg[a := deg[a] - 1][b := deg[b] - 1]
    ensures DegreesLeft(v, rest, deg2, removed + {a}) && deg2[b] == 1 + multiset(rest)[b]
  {
    assert multiset([b] + rest) == multiset{b} + multiset(rest);
  }

  /** The step's queue updates: `a` leaves it, and `b` joins it when it no longer occurs in the rest. */
  lemma StepLeaves(v: nat, b: int, rest: seq<int>, removed: set<int>, leaves: set<int>, a: int, leaves2: set<int>)
    requires LeavesLeft(v, [b] + rest, removed, leaves) && a in leaves && 0 <= b < v && b !in removed && a != b
    requires leaves2 == (leaves - {a}) + if b !in rest then {b} else {}
    ensures LeavesLeft(v, rest, removed + {a}, leaves2)
  {
    forall x
      ensures x in leaves2 <==> 0 <= x < v && x !in removed + {a} && x !in rest
    {
      if x != b {
        assert x in [b] + rest <==> x in rest;
      }
    }
  }

  /** `add_edge(a, b)` with the two degree decrements keeps every bag-plus-degree sum, and adds no self-loop. */
  lemma StepBags(v: nat, prufer: seq<int>, deg: seq<int>, adj: seq<seq<int>>, a: int, b: int, deg2: seq<int>)
    requires BagsLeft(v, prufer, deg, adj) && 0 <= a < v && 0 <= b < v && a != b
    requires deg2 == deg[a := deg[a] - 1][b := deg[b] - 1]
    ensures BagsLeft(v, prufer, deg2, Added(adj, a, b))
  {
  }

  /**
   * One step of the loop, on the part of the sequence still to decode:
   * with the leaf `a` dealt with and the entry `prufer[i]` consumed, the
   * dealt-with vertices, the degrees and the leaves match the rest.
   */
  lemma RestStep(v: nat, prufer: seq<int>, i: nat, deg: seq<int>, removed: set<int>, leaves: set<int>,
                 a: int, deg2: seq<int>, leaves2: set<int>)
    requires i < |prufer| && 0 <= prufer[i] < v && |removed| == i
    requires Dealt(v, prufer[i..], removed) && DegreesLeft(v, prufer[i..], deg, removed) && LeavesLeft(v, prufer[i..], removed, leaves)
    requires a in leaves && a != prufer[i] && prufer[i] !in removed
    requires deg2 == deg[a := deg[a] - 1][prufer[i] := deg[prufer[i]] - 1]
    requires leaves2 == (leaves - {a}) + if deg2[prufer[i]] == 1 then {prufer[i]} else {}
    ensures Dealt(v, prufer[i + 1..], removed + {a}) && DegreesLeft(v, prufer[i + 1..], deg2, removed + {a})
    ensures LeavesLeft(v, prufer[i + 1..], removed + {a}, leaves2) && |removed + {a}| == i + 1
  {
    var b, rest := prufer[i], prufer[i + 1..];
    assert prufer[i..] == [b] + rest;
    assert 0 <= a < v && a !in removed && a !in [b] + rest;
    StepDealt(v, b, rest, removed, a);
    StepDegrees(v, b, rest, deg, removed, a, deg2);
    assert deg2[b] == 1 <==> b !in rest;
    StepLeaves(v, b, rest, removed, leaves, a, leaves2);
  }

  /** One step of the loop keeps the decoding state, with the leaf `a` dealt with. */
  lemma DecodingStep(v: nat, prufer: seq<int>, i: nat, deg: seq<int>, removed: set<int>, leaves: set<int>, adj: seq<seq<int>>,
                     a: int, deg2: seq<int>, leaves2: set<int>, adj2: seq<seq<int>>)
    requires Decoding(v, prufer, i, deg, removed, leaves, adj) && i < v - 2 && a in leaves
    requires 0 <= a < v && a != prufer[i] && deg2 == deg[a := deg[a] - 1][prufer[i] := deg[prufer[i]] - 1]
    requires leaves2 == (leaves - {a}) + if deg2[prufer[i]] == 1 then {prufer[i]} else {}
    requires adj2 == Added(adj, a, prufer[i])
    ensures Decoding(v, prufer, i + 1, deg2, removed + {a}, leaves2, adj2)
  {
    DecodingPick(v, prufer, i, deg, removed, leaves, adj, a);
    RestStep(v, prufer, i, deg, removed, leaves, a, deg2, leaves2);
    StepBags(v, prufer, deg, adj, a, prufer[i], deg2);
  }

  /** The final edge joins the two leaves left and gives every vertex its full degree. */
  lemma DecodingEnd(v: nat, prufer: seq<int>, deg: seq<int>, removed: set<int>, leaves: set<int>, adj: seq<seq<int>>, a: int, b: int)
    requires v >= 2 && Decoding(v, prufer, v - 2, deg, removed, leaves, adj) && a in leaves && b in leaves && a != b
    ensures forall x :: 0 <= x < v ==> |Added(adj, a, b)[x]| == 1 + multiset(prufer)[x] && x !in Added(adj, a, b)[x]
  {
    LeavesCount(v, prufer, v - 2, deg, removed, leaves, adj);
    assert prufer[v - 2..] == [];
    assert leaves == {a, b} by {
      assert {a, b} <= leaves;
      assert |{a, b}| == 2;
      assert |leaves - {a, b}| == 0;
    }
  }

  /** `degrees`: 1 for every vertex, plus 1 for each of its occurrences in the sequence. */
  method CountDegrees(v: nat, prufer: seq<int>) returns (degrees: array<int>)
    requires forall k :: 0 <= k < |prufer| ==> 0 <= prufer[k] < v
    ensures fresh(degrees) && degrees.Length == v
    ensures forall x :: 0 <= x < v ==> degrees[x] == 1 + multiset(prufer)[x]
  {
    degrees := new int[v](_ => 1);
    var j := 0;
    while j < |prufer|
      invariant 0 <= j <= |prufer|
      invariant forall x :: 0 <= x < v ==> degrees[x] == 1 + multiset(prufer[..j])[x]
    {
      assert prufer[..j + 1] == prufer[..j] + [prufer[j]];
      degrees[prufer[j]] := degrees[prufer[j]] + 1;
      j := j + 1;
    }
    assert prufer[..j] == prufer;
  }

  /** `pq.delete_min` on a queue of distinct leaves ordered by `>`: the least leaf, gone from the queue. */
  method TakeLeaf(pq: MinPQs.MinPQ<int>, ghost leaves: set<int>) returns (a: int)
    requires pq.Valid() && pq.greater == MinPQs.IntGreater && pq.Keys() == multiset(leaves) && leaves != {}
    modifies pq
    ensures pq.Valid() && a in leaves && pq.Keys() == multiset(leaves - {a})
    ensures forall x :: x in leaves ==> a <= x
  {
    var m := pq.DeleteMin();
    a := m.value;
    forall x | x in leaves
      ensures a <= x
    {
      assert x in old(pq.Keys()) && !MinPQs.IntGreater(a, x);
    }
  }

  /** `pq.insert(b)` for a vertex that is not yet a leaf. */
  method AddLeaf(pq: MinPQs.MinPQ<int>, ghost leaves: set<int>, b: int)
    requires pq.Valid() && pq.Keys() == multiset(leaves) && b !in leaves
    modifies pq
    ensures pq.Valid() && pq.Keys() == multiset(leaves + {b})
  {
    pq.Insert(b);
  }

  /** `graph.add_edge(a, b)`, then `degrees[a] -= 1` and `degrees[b] -= 1`. */
  method JoinTo(g: Graph, degrees: array<int>, a: int, b: int)
    requires g.Valid() && 0 <= a < g.v && 0 <= b < g.v && 0 <= a < degrees.Length && 0 <= b < degrees.Length && a != b
    modifies g, degrees
    ensures g.Valid() && g.e == old(g.e) + 1 && g.adj == Added(old(g.adj), a, b)
    ensures degrees[..] == old(degrees[..])[a := old(degrees[..])[a] - 1][b := old(degrees[..])[b] - 1]
  {
    var _ := g.AddEdge(a, b);
    degrees[a] := degrees[a] - 1;
    degrees[b] := degrees[b] - 1;
  }

  /**
   * The second half of one pass of `tree(v)`'s loop: `add_edge(a, b)`,
   * both degrees decremented, and `b` inserted when its degree drops to 1.
   */
  method JoinLeaf(g: Graph, degrees: array<int>, pq: MinPQs.MinPQ<int>, a: int, b: int,
                  ghost queued: set<int>, ghost deg0: seq<int>, ghost adj0: seq<seq<int>>)
    requires g.Valid() && 0 <= a < g.v && 0 <= b < g.v && a != b && degrees.Length == g.v
    requires degrees[..] == deg0 && g.adj == adj0
    requires pq.Valid() && pq.Keys() == multiset(queued) && b !in queued
    modifies g, degrees, pq
    ensures g.Valid() && g.e == old(g.e) + 1 && g.adj == Added(adj0, a, b)
    ensures degrees[..] == deg0[a := deg0[a] - 1][b := deg0[b] - 1]
    ensures pq.Valid() && pq.Keys() == multiset(queued + if degrees[..][b] == 1 then {b} else {})
  {
    JoinTo(g, degrees, a, b);
    if degrees[b] == 1 {
      AddLeaf(pq, queued, b);
    }
  }

  /**
   * One pass of `tree(v)`'s loop: `a = pq.delete_min`, `b = prufer_seq[i]`,
   * `add_edge(a, b)`, both degrees decremented, and `b` inserted when its
   * degree drops to 1. The edge added joins the least leaf to `prufer[i]`.
   */
  method DecodeStep(g: Graph, degrees: array<int>, pq: MinPQs.MinPQ<int>, v: nat, prufer: seq<int>, i: nat,
                    ghost removed: set<int>, ghost leaves: set<int>) returns (a: int, ghost removed2: set<int>, ghost leaves2: set<int>)
    requires g.Valid() && g.v == v && pq.Valid() && pq.greater == MinPQs.IntGreater && pq.Keys() == multiset(leaves)
    requires Decoding(v, prufer, i, degrees[..], removed, leaves, g.adj) && i < v - 2
    modifies g, degrees, pq
    ensures g.Valid() && g.v == v && g.e == old(g.e) + 1 && pq.Valid() && pq.Keys() == multiset(leaves2)
    ensures Decoding(v, prufer, i + 1, degrees[..], removed2, leaves2, g.adj)
    ensures a in leaves && (forall x :: x in leaves ==> a <= x) && g.adj == Added(old(g.adj), a, prufer[i])
  {
    ghost var deg0, adj0 := degrees[..], g.adj;
    LeavesCount(v, prufer, i, deg0, removed, leaves, adj0);
    a := TakeLeaf(pq, leaves);
    var b := prufer[i];
    DecodingPick(v, prufer, i, deg0, removed, leaves, adj0, a);
    ghost var deg2, adj2 := deg0[a := deg0[a] - 1][b := deg0[b] - 1], Added(adj0, a, b);
    leaves2 := (leaves - {a}) + if deg2[b] == 1 then {b} else {};
    removed2 := removed + {a};
    DecodingStep(v, prufer, i, deg0, removed, leaves, adj0, a, deg2, leaves2, adj2);
    assert degrees[..] == deg0 && g.adj == adj0;
    JoinLeaf(g, degrees, pq, a, b, leaves - {a}, deg0, adj0);
    assert degrees[..] == deg2 && g.adj == adj2;
  }

  /** `MinPQ.new((0...v).select { |i| 1 == degrees[i] })`: a queue of the vertices of degree 1, the leaves before the first step. */
  method LeafQueue(degrees: array<int>, v: nat, prufer: seq<int>) returns (pq: MinPQs.MinPQ<int>, ghost leaves: set<int>)
    requires v >= 2 && |prufer| == v - 2 && forall k :: 0 <= k < |prufer| ==> 0 <= prufer[k] < v
    requires degrees.Length == v && forall x :: 0 <= x < v ==> degrees[x] == 1 + multiset(prufer)[x]
    ensures fresh(pq) && pq.Valid() && pq.greater == MinPQs.IntGreater && pq.Keys() == multiset(leaves)
    ensures Decoding(v, prufer, 0, degrees[..], {}, leaves, seq(v, _ => []))
  {
    MinPQs.IntGreaterIsStrictWeakOrder();
    pq := new MinPQs.MinPQ<int>.FromKeys(Ones(degrees[..], v), MinPQs.IntGreater);
    leaves := set x | 0 <= x < v && degrees[..][x] == 1;
    DecodingStart(v, prufer, degrees[..]);
  }

  /** `graph.add_edge(pq.delete_min, pq.delete_min)`: the two leaves left are joined, completing every degree. */
  method FinishTree(g: Graph, pq: MinPQs.MinPQ<int>, v: nat, prufer: seq<int>, ghost deg: seq<int>, ghost removed: set<int>, ghost leaves: set<int>)
    requires g.Valid() && g.v == v && pq.Valid() && pq.greater == MinPQs.IntGreater && pq.Keys() == multiset(leaves)
    requires v >= 2 && Decoding(v, prufer, v - 2, deg, removed, leaves, g.adj)
    modifies g, pq
    ensures g.Valid() && g.e == old(g.e) + 1
    ensures forall x :: 0 <= x < v ==> |g.adj[x]| == 1 + multiset(prufer)[x] && x !in g.adj[x]
  {
    LeavesCount(v, prufer, v - 2, deg, removed, leaves, g.adj);
    var a := TakeLeaf(pq, leaves);
    assert leaves - {a} != {} by {
      assert leaves != {a};
      assert leaves == (leaves - {a}) + {a};
    }
    var b := TakeLeaf(pq, leaves - {a});
    DecodingEnd(v, prufer, deg, removed, leaves, g.adj, a, b);
    var _ := g.AddEdge(a, b);
  }

  /**
   * `tree(v)`: ArgumentError for a negative `v`; no edges for `v < 2`;
   * otherwise the Prüfer sequence `prufer` (the `v - 2` draws) decoded:
   * each step joins the least leaf to the next entry, and the last edge
   * joins the two leaves left. The graph has `v - 1` edges, no self-loop,
   * and every vertex has degree one more than its occurrences in `prufer`.
   */
  method Tree(v: int, prufer: seq<int>) returns (r: Result<Graph>)
    requires v >= 2 ==> |prufer| == v - 2 && forall k :: 0 <= k < |prufer| ==> 0 <= prufer[k] < v
    ensures r.Err? <==> v < 0
    ensures r.Err? ==> r.error == ArgumentError
    ensures r.Ok? ==> fresh(r.value) && r.value.Valid() && r.value.v == v
    ensures r.Ok? ==> r.value.e == if v < 2 then 0 else v - 1
    ensures r.Ok? ==> forall x :: 0 <= x < v ==> x !in r.value.adj[x]
    ensures r.Ok? && v >= 2 ==> forall x :: 0 <= x < v ==> |r.value.adj[x]| == 1 + multiset(prufer)[x]
  {
    r := Graph.New(v);
    if r.Err? || v < 2 {
      return;
    }
    var g := r.value;
    var degrees := CountDegrees(v, prufer);
    var pq, leaves := LeafQueue(degrees, v, prufer);
    ghost var removed: set<int> := {};
    var i := 0;
    while i < v - 2
      invariant 0 <= i <= v - 2 && g.Valid() && g.v == v && g.e == i
      invariant pq.Valid() && pq.greater == MinPQs.IntGreater && pq.Keys() == multiset(leaves)
      invariant Decoding(v, prufer, i, degrees[..], removed, leaves, g.adj)
    {
      var a;
      a, removed, leaves := DecodeStep(g, degrees, pq, v, prufer, i, removed, leaves);
      i := i + 1;
    }
    FinishTree(g, pq, v, prufer, degrees[..], removed, leaves);
  }
}
