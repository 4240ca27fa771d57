/**
 * Finding a cycle in an undirected multigraph (graphs/cycle.rb): a
 * self-loop is reported first, then a pair of parallel edges, and
 * otherwise a depth-first search reports the first edge that leads back to
 * a marked vertex other than the one the search came from.
 *
 * The cycles are listed in the order the Ruby stack iterates, most recently
 * pushed first. A self-loop is listed `[w, w]` and a parallel pair
 * `[w, u, w]`, both returning to their first vertex; a cycle found by the
 * search is listed `[w, ..., v]` without repeating `w`, its closing edge
 * running from `v` back to `w`.
 */
module Cycles {
  import opened Errors
  import opened Graphs

  /** No vertex lists itself as a neighbour. */
  ghost predicate NoSelfLoops(adj: seq<seq<int>>)
  {
    forall x :: 0 <= x < |adj| ==> x !in adj[x]
  }

  /** No bag lists a neighbour twice, so no two edges join the same two vertices. */
  ghost predicate NoParallelEdges(adj: seq<seq<int>>)
  {
    forall x :: 0 <= x < |adj| ==> Distinct(adj[x])
  }

  /**
   * `c` is a cycle: at least three distinct vertices, each adjacent to the
   * next and the last adjacent to the first.
   */
  ghost predicate IsSimpleCycle(adj: seq<seq<int>>, c: seq<int>)
  {
    |c| >= 3 && IsPath(adj, c) && c[0] in adj[c[|c| - 1]] && Distinct(c)
  }

  /** The graph contains a cycle of at least three distinct vertices. */
  ghost predicate HasSimpleCycle(adj: seq<seq<int>>)
  {
    exists c :: IsSimpleCycle(adj, c)
  }

  /** `c` is the stack `has_self_loops?` builds: `[w, w]` for the first vertex `w` with a self-loop. */
  ghost predicate SelfLoopCycle(adj: seq<seq<int>>, c: seq<int>)
  {
    |c| == 2 && c[1] == c[0] && 0 <= c[0] < |adj| && c[0] in adj[c[0]] && NoSelfLoops(adj[..c[0]])
  }

  /** Index `i` holds the first entry of `s` that already occurred before it. */
  ghost predicate FirstRepeat(s: seq<int>, i: int)
  {
    0 <= i < |s| && s[i] in s[..i] && Distinct(s[..i])
  }

  /**
   * `c` is the stack `has_parallel_edges?` builds: `[w, u, w]` for the first
   * vertex `w` whose bag repeats a neighbour, `u` being its first repeated
   * neighbour.
   */
  ghost predicate ParallelCycle(adj: seq<seq<int>>, c: seq<int>)
  {
    |c| == 3 && c[2] == c[0] && 0 <= c[0] < |adj| && NoParallelEdges(adj[..c[0]]) &&
    exists i :: FirstRepeat(adj[c[0]], i) && adj[c[0]][i] == c[1]
  }

  /**
   * `has_self_loops?`: the first vertex, in vertex order, whose bag holds
   * the vertex itself, or None when no bag does.
   */
  method FindSelfLoop(graph: Graph) returns (r: Option<int>)
    requires graph.Valid()
    ensures r.None? <==> NoSelfLoops(graph.adj)
    ensures r.Some? ==> SelfLoopCycle(graph.adj, [r.value, r.value])
  {
    var w := 0;
    while w < graph.v
      invariant 0 <= w <= graph.v
      invariant NoSelfLoops(graph.adj[..w])
    {
      var bag := graph.Adjacent(w).value;
      var i := 0;
      while i < |bag|
        invariant 0 <= i <= |bag|
        invariant w !in bag[..i]
      {
        if bag[i] == w {
          assert graph.adj[..w] == graph.adj[..w][..w];
          return Some(w);
        }
        assert bag[..i + 1] == bag[..i] + [bag[i]];
        i := i + 1;
      }
      assert bag[..i] == bag;
      assert graph.adj[..w + 1] == graph.adj[..w] + [bag];
      w := w + 1;
    }
    assert graph.adj[..w] == graph.adj;
    return None;
  }

  /** The marks `m` are set exactly at the entries of `s`. */
  ghost predicate MarksExactly(m: seq<bool>, s: seq<int>)
  {
    forall x :: 0 <= x < |m| ==> (m[x] <==> x in s)
  }

  /**
   * The first loop over one bag in `has_parallel_edges?`: marks its entries
   * in order and stops at the first one already marked. With no marks on
   * entry, that is the first repeat of the bag, and without one the marks
   * are exactly the bag's entries, which are distinct.
   */
  method MarkBag(marked: array<bool>, bag: seq<int>) returns (repeat: Option<int>)
    requires MarksExactly(marked[..], []) && forall k :: 0 <= k < |bag| ==> 0 <= bag[k] < marked.Length
    modifies marked
    ensures repeat.Some? ==> FirstRepeat(bag, repeat.value)
    ensures repeat.None? ==> Distinct(bag) && MarksExactly(marked[..], bag)
  {
    var i := 0;
    while i < |bag|
      invariant 0 <= i <= |bag|
      invariant Distinct(bag[..i]) && MarksExactly(marked[..], bag[..i])
    {
      var u := bag[i];
      if marked[u] {
        return Some(i);
      }
      assert bag[..i + 1] == bag[..i] + [u];
      marked[u] := true;
      i := i + 1;
    }
    assert bag[..i] == bag;
    return None;
  }

  /**
   * The second loop over one bag in `has_parallel_edges?`, reached only
   * when the bag repeats no entry: clears the marks of its entries again.
   */
  method ClearBag(marked: array<bool>, bag: seq<int>)
    requires Distinct(bag) && MarksExactly(marked[..], bag) && forall k :: 0 <= k < |bag| ==> 0 <= bag[k] < marked.Length
    modifies marked
    ensures MarksExactly(marked[..], [])
  {
    var i := 0;
    while i < |bag|
      invariant 0 <= i <= |bag|
      invariant MarksExactly(marked[..], bag[i..])
    {
      assert bag[i..] == [bag[i]] + bag[i + 1..];
      marked[bag[i]] := false;
      i := i + 1;
    }
  }

  /**
   * `has_parallel_edges?`: scanning each bag in vertex order, marking its
   * entries and clearing those marks again before the next bag, the first
   * vertex whose bag repeats an entry, with that entry; None when no bag
   * repeats one.
   */
  method FindParallelEdges(graph: Graph) returns (r: Option<(int, int)>)
    requires graph.Valid()
    ensures r.None? <==> NoParallelEdges(graph.adj)
    ensures r.Some? ==> ParallelCycle(graph.adj, [r.value.0, r.value.1, r.value.0])
  {
    var marked := new bool[graph.v](_ => false);
    var w := 0;
    while w < graph.v
      invariant 0 <= w <= graph.v && marked.Length == graph.v
      invariant NoParallelEdges(graph.adj[..w])
      invariant MarksExactly(marked[..], [])
    {
      var bag := graph.Adjacent(w).value;
      var repeat := MarkBag(marked, bag);
      if repeat.Some? {
        assert graph.adj[..w] == graph.adj[..w][..w];
        return Some((w, bag[repeat.value]));
      }
      ClearBag(marked, bag);
      assert graph.adj[..w + 1] == graph.adj[..w] + [bag];
      w := w + 1;
    }
    assert graph.adj[..w] == graph.adj;
    return None;
  }

  // The depth-first search, described over snapshots of its arrays: the
  // marks `m`, the tree parents `et` (`@edge_to`) and a ghost depth `d` of
  // each vertex in the search forest.

  /** One mark, one parent and one depth per vertex. */
  ghost predicate Sized(adj: seq<seq<int>>, m: seq<bool>, et: seq<int>, d: seq<nat>)
  {
    |m| == |adj| && |et| == |adj| && |d| == |adj|
  }

  /** A marked vertex below a root of the search forest has a marked parent. */
  ghost predicate Forest(adj: seq<seq<int>>, m: seq<bool>, et: seq<int>, d: seq<nat>)
  {
    Sized(adj, m, et, d) &&
    forall x :: 0 <= x < |m| && m[x] && d[x] > 0 ==> 0 <= et[x] < |m| && m[et[x]]
  }

  /** The edge between `x` and `y` joins a vertex to its parent in the search forest. */
  ghost predicate TreeEdge(et: seq<int>, d: seq<nat>, x: int, y: int)
    requires 0 <= x < |et| && 0 <= y < |et| && |d| == |et|
  {
    (et[y] == x && d[y] == d[x] + 1) || (et[x] == y && d[x] == d[y] + 1)
  }

  /** The first `i` neighbours of `x` are marked and joined to `x` by tree edges. */
  ghost predicate ExploredUpTo(adj: seq<seq<int>>, m: seq<bool>, et: seq<int>, d: seq<nat>, x: int, i: int)
    requires Sized(adj, m, et, d) && 0 <= x < |adj|
  {
    forall k :: 0 <= k < i && k < |adj[x]| ==> 0 <= adj[x][k] < |m| && m[adj[x][k]] && TreeEdge(et, d, x, adj[x][k])
  }

  /** Every neighbour of `x` is marked and joined to `x` by a tree edge. */
  ghost predicate Finished(adj: seq<seq<int>>, m: seq<bool>, et: seq<int>, d: seq<nat>, x: int)
    requires Sized(adj, m, et, d) && 0 <= x < |adj|
  {
    ExploredUpTo(adj, m, et, d, x, |adj[x]|)
  }

  /** Every marked vertex off the search path is finished. */
  ghost predicate Settled(adj: seq<seq<int>>, m: seq<bool>, et: seq<int>, d: seq<nat>, path: seq<int>)
    requires Sized(adj, m, et, d)
  {
    forall x :: 0 <= x < |m| && m[x] && x !in path ==> Finished(adj, m, et, d, x)
  }

  /**
   * `path` is the search path from a root: marked vertices at depths
   * 0, 1, ..., each the tree child of the one before and adjacent to it.
   */
  ghost predicate Chain(adj: seq<seq<int>>, m: seq<bool>, et: seq<int>, d: seq<nat>, path: seq<int>)
    requires Sized(adj, m, et, d)
  {
    forall i :: 0 <= i < |path| ==>
      0 <= path[i] < |m| && m[path[i]] && d[path[i]] == i &&
      (i > 0 ==> et[path[i]] == path[i - 1] && 0 <= path[i - 1] < |adj| && path[i] in adj[path[i - 1]])
  }

  /**
   * `dfs(graph, u, v)` is called for `v` below the end `u` of the path, or
   * with `u` = -1 for a new root.
   */
  ghost predicate Hangs(adj: seq<seq<int>>, et: seq<int>, d: seq<nat>, path: seq<int>, u: int, v: int)
    requires 0 <= v < |adj| && |et| == |adj| && |d| == |adj|
  {
    if path == [] then u == -1 && d[v] == 0
    else u == path[|path| - 1] && 0 <= u < |adj| && et[v] == u && v in adj[u] && d[v] == |path|
  }

  /** Every marked tree child of `v` is among the entries `s`. */
  ghost predicate ChildrenListed(m: seq<bool>, et: seq<int>, d: seq<nat>, v: int, s: seq<int>)
    requires |m| == |et| == |d| && 0 <= v < |m|
  {
    forall y :: 0 <= y < |m| && m[y] && et[y] == v && d[y] == d[v] + 1 ==> y in s
  }

  /** Marking `v` and putting it on the path keeps the marks off the path finished. */
  lemma SettledMark(adj: seq<seq<int>>, m: seq<bool>, et: seq<int>, d: seq<nat>, path: seq<int>, v: int)
    requires Forest(adj, m, et, d) && Settled(adj, m, et, d, path) && 0 <= v < |m|
    requires Forest(adj, m[v := true], et, d)
    ensures Settled(adj, m[v := true], et, d, path + [v])
  {
    var m2 := m[v := true];
    forall x | 0 <= x < |m2| && m2[x] && x !in path + [v]
      ensures Finished(adj, m2, et, d, x)
    {
      assert m[x];
    }
  }

  /** Relabelling an unmarked vertex changes nothing about the marked ones. */
  lemma SettledRelabel(adj: seq<seq<int>>, m: seq<bool>, et: seq<int>, d: seq<nat>, path: seq<int>, w: int, p: int, k: nat)
    requires Forest(adj, m, et, d) && Chain(adj, m, et, d, path)
    requires 0 <= w < |m| && !m[w]
    ensures Forest(adj, m, et[w := p], d[w := k]) && Chain(adj, m, et[w := p], d[w := k], path)
    ensures Settled(adj, m, et, d, path) ==> Settled(adj, m, et[w := p], d[w := k], path)
  {
    var et2, d2 := et[w := p], d[w := k];
    if Settled(adj, m, et, d, path) {
      forall x | 0 <= x < |m| && m[x] && x !in path
        ensures Finished(adj, m, et2, d2, x)
      {
        assert Finished(adj, m, et, d, x);
      }
    }
  }

  /** A finished vertex leaves the end of the path. */
  lemma SettledPop(adj: seq<seq<int>>, m: seq<bool>, et: seq<int>, d: seq<nat>, path: seq<int>, v: int)
    requires Forest(adj, m, et, d) && 0 <= v < |m|
    requires Settled(adj, m, et, d, path + [v]) && Finished(adj, m, et, d, v)
    ensures Settled(adj, m, et, d, path)
  {
  }

  /** A vertex hanging below the end of the path extends it. */
  lemma ChainPush(adj: seq<seq<int>>, m: seq<bool>, et: seq<int>, d: seq<nat>, path: seq<int>, u: int, v: int)
    requires Forest(adj, m, et, d) && Chain(adj, m, et, d, path) && 0 <= v < |m| && m[v]
    requires Hangs(adj, et, d, path, u, v)
    ensures Chain(adj, m, et, d, path + [v])
  {
  }

  /** A prefix of the path is a path. */
  lemma ChainPrefix(adj: seq<seq<int>>, m: seq<bool>, et: seq<int>, d: seq<nat>, path: seq<int>, v: int)
    requires Forest(adj, m, et, d) && Chain(adj, m, et, d, path + [v])
    ensures Chain(adj, m, et, d, path)
  {
    forall i | 0 <= i < |path|
      ensures (path + [v])[i] == path[i]
    {
    }
  }

  /**
   * A marked neighbour `w` of `v`, met at index `i` of its bag, that is not
   * the vertex the search came from, lies on the search path: every marked
   * vertex off the path is finished, and a finished `w` would be joined to
   * `v` by a tree edge, making it `v`'s parent (it is not) or a child
   * already listed earlier in the bag (bags have no repeats).
   */
  lemma MarkedNeighbourOnPath(adj: seq<seq<int>>, m: seq<bool>, et: seq<int>, d: seq<nat>, path: seq<int>, u: int, v: int, i: int)
    requires WellFormed(adj) && Symmetric(adj) && NoSelfLoops(adj) && NoParallelEdges(adj)
    requires Forest(adj, m, et, d) && 0 <= v < |adj| && m[v]
    requires Settled(adj, m, et, d, path + [v]) && Hangs(adj, et, d, path, u, v)
    requires 0 <= i < |adj[v]| && ChildrenListed(m, et, d, v, adj[v][..i])
    requires m[adj[v][i]] && adj[v][i] != u
    ensures adj[v][i] in path
  {
    var w := adj[v][i];
    assert w != v;
    assert w !in adj[v][..i] by {
      assert Distinct(adj[v]);
    }
    var dv: int, dw: int := d[v], d[w];
    assert !(et[w] == v && dw == dv + 1);
    assert !(et[v] == w && dv == dw + 1);
    assert v in adj[w];
    var k :| 0 <= k < |adj[w]| && adj[w][k] == v;
    assert !TreeEdge(et, d, w, adj[w][k]);
    assert !Finished(adj, m, et, d, w);
    assert w in path + [v];
  }

  /**
   * The stretch of the search path from its vertex `path[j]` down to `v`,
   * where `v` is adjacent to `path[j]`, is a cycle when `path[j]` is not the
   * end of the path.
   */
  lemma PathStretchIsCycle(adj: seq<seq<int>>, m: seq<bool>, et: seq<int>, d: seq<nat>, path: seq<int>, v: int, j: int)
    requires Forest(adj, m, et, d) && Chain(adj, m, et, d, path) && 0 <= v < |adj|
    requires |path| > 0 && Hangs(adj, et, d, path, path[|path| - 1], v)
    requires 0 <= j < |path| - 1 && path[j] in adj[v]
    ensures IsSimpleCycle(adj, path[j..] + [v])
  {
    var c := path[j..] + [v];
    forall k | 0 <= k < |c|
      ensures 0 <= c[k] < |adj| && d[c[k]] == j + k
    {
    }
    forall k | 0 <= k < |c| - 1
      ensures c[k + 1] in adj[c[k]]
    {
      assert c[k + 1] == (path + [v])[j + k + 1];
    }
  }

  /** The index of a deepest vertex of `c`. */
  ghost function Deepest(c: seq<int>, d: seq<nat>): (z: nat)
    requires |c| >= 1 && forall k :: 0 <= k < |c| ==> 0 <= c[k] < |d|
    ensures z < |c| && forall k :: 0 <= k < |c| ==> d[c[k]] <= d[c[z]]
  {
    if |c| == 1 then 0
    else
      var z := Deepest(c[..|c| - 1], d);
      assert forall k :: 0 <= k < |c| - 1 ==> c[..|c| - 1][k] == c[k];
      if d[c[|c| - 1]] > d[c[z]] then |c| - 1 else z
  }

  /**
   * In a graph whose every edge joins a vertex to its parent in a forest,
   * a closed walk of three or more vertices repeats a vertex: both walk
   * neighbours of its deepest vertex must be that vertex's one parent.
   */
  lemma ForestWalkRepeats(adj: seq<seq<int>>, m: seq<bool>, et: seq<int>, d: seq<nat>, c: seq<int>)
    requires Symmetric(adj) && Forest(adj, m, et, d)
    requires forall x :: 0 <= x < |adj| ==> Finished(adj, m, et, d, x)
    requires |c| >= 3 && IsPath(adj, c) && c[0] in adj[c[|c| - 1]]
    ensures !Distinct(c)
  {
    var n := |c|;
    var z := Deepest(c, d);
    var x := c[z];
    var next := if z < n - 1 then z + 1 else 0;
    var prev := if z > 0 then z - 1 else n - 1;
    assert c[next] in adj[x];
    assert x in adj[c[prev]];
    assert c[prev] in adj[x];
    var a :| 0 <= a < |adj[x]| && adj[x][a] == c[next];
    var b :| 0 <= b < |adj[x]| && adj[x][b] == c[prev];
    assert Finished(adj, m, et, d, x);
    assert TreeEdge(et, d, x, adj[x][a]) && TreeEdge(et, d, x, adj[x][b]);
    assert d[c[next]] <= d[x] && d[c[prev]] <= d[x];
    assert c[next] == et[x] == c[prev];
    assert next != prev;
  }

  /** A search forest in which every vertex is finished holds no cycle. */
  lemma ForestHasNoCycle(adj: seq<seq<int>>, m: seq<bool>, et: seq<int>, d: seq<nat>)
    requires Symmetric(adj) && Forest(adj, m, et, d)
    requires forall x :: 0 <= x < |adj| ==> Finished(adj, m, et, d, x)
    ensures !HasSimpleCycle(adj)
  {
    forall c | |c| >= 3 && IsPath(adj, c) && c[0] in adj[c[|c| - 1]]
      ensures !Distinct(c)
    {
      ForestWalkRepeats(adj, m, et, d, c);
    }
  }

  /** The parents and depths of the vertices marked in `m0`, and of `v`, are those in `et0` and `d0`. */
  ghost predicate Kept(m0: seq<bool>, et0: seq<int>, d0: seq<nat>, et: seq<int>, d: seq<nat>, v: int)
  {
    |et0| == |m0| && |d0| == |m0| && |et| == |m0| && |d| == |m0| &&
    forall x :: 0 <= x < |m0| && (m0[x] || x == v) ==> et[x] == et0[x] && d[x] == d0[x]
  }

  /** Every vertex marked in `m` but not in `m0`, other than `v`, has a parent not marked in `m0`. */
  ghost predicate HangsNew(m0: seq<bool>, m: seq<bool>, et: seq<int>, v: int)
  {
    |m| == |m0| && |et| == |m0| &&
    forall y :: 0 <= y < |m| && m[y] && !m0[y] && y != v ==> 0 <= et[y] < |m0| && !m0[et[y]]
  }

  /** Meeting the parent `u` of `v` at index `i` of its bag explores one more neighbour by a tree edge. */
  lemma ParentExplored(adj: seq<seq<int>>, m: seq<bool>, et: seq<int>, d: seq<nat>, path: seq<int>, u: int, v: int, i: int)
    requires WellFormed(adj) && Forest(adj, m, et, d) && Chain(adj, m, et, d, path)
    requires 0 <= v < |adj| && Hangs(adj, et, d, path, u, v)
    requires 0 <= i < |adj[v]| && adj[v][i] == u && m[u]
    requires ExploredUpTo(adj, m, et, d, v, i) && ChildrenListed(m, et, d, v, adj[v][..i])
    ensures ExploredUpTo(adj, m, et, d, v, i + 1) && ChildrenListed(m, et, d, v, adj[v][..i + 1])
  {
    assert TreeEdge(et, d, v, u);
    assert adj[v][..i + 1] == adj[v][..i] + [u];
  }

  /**
   * After the search from the unmarked neighbour `w` of `v` returns, with
   * `w` relabelled to hang below `v` in between: marks still only grow, the
   * parents and depths fixed on entry to `dfs(graph, u, v)` stay, new marks
   * hang below new marks, and the search path is unchanged.
   */
  lemma ChildReturned(adj: seq<seq<int>>, mIn: seq<bool>, etIn: seq<int>, dIn: seq<nat>,
                      m1: seq<bool>, et1: seq<int>, d1: seq<nat>, et2: seq<int>, d2: seq<nat>,
                      m3: seq<bool>, et3: seq<int>, d3: seq<nat>, path: seq<int>, u: int, v: int, w: int)
    requires Forest(adj, m1, et1, d1) && Chain(adj, m1, et1, d1, path + [v]) && Forest(adj, m3, et3, d3)
    requires |mIn| == |adj| && 0 <= v < |adj| && 0 <= w < |adj| && !mIn[v] && m1[v] && !m1[w]
    requires Grows(mIn, m1) && Kept(mIn, etIn, dIn, et1, d1, v) && HangsNew(mIn, m1, et1, v)
    requires et2 == et1[w := v] && d2 == d1[w := d1[v] + 1]
    requires Grows(m1, m3) && Kept(m1, et2, d2, et3, d3, w) && HangsNew(m1, m3, et3, w)
    requires Hangs(adj, et1, d1, path, u, v)
    ensures Grows(mIn, m3) && Kept(mIn, etIn, dIn, et3, d3, v) && HangsNew(mIn, m3, et3, v)
    ensures Chain(adj, m3, et3, d3, path + [v]) && Hangs(adj, et3, d3, path, u, v)
  {
    forall y | 0 <= y < |m3| && m3[y] && !mIn[y] && y != v
      ensures 0 <= et3[y] < |mIn| && !mIn[et3[y]]
    {
      if m1[y] {
        assert et3[y] == et1[y];
      } else if y != w {
        assert !m1[et3[y]];
      }
    }
  }

  /**
   * After the search from the unmarked neighbour `w = adj[v][i]` of `v`
   * returns, `w` is a marked tree child of `v`, so one more neighbour of `v`
   * is explored, and every tree child of `v` is still listed.
   */
  lemma ChildExplored(adj: seq<seq<int>>, m1: seq<bool>, et1: seq<int>, d1: seq<nat>, et2: seq<int>, d2: seq<nat>,
                      m3: seq<bool>, et3: seq<int>, d3: seq<nat>, v: int, i: int)
    requires WellFormed(adj) && Forest(adj, m1, et1, d1) && Forest(adj, m3, et3, d3) && 0 <= v < |adj| && m1[v]
    requires 0 <= i < |adj[v]| && !m1[adj[v][i]]
    requires ExploredUpTo(adj, m1, et1, d1, v, i) && ChildrenListed(m1, et1, d1, v, adj[v][..i])
    requires et2 == et1[adj[v][i] := v] && d2 == d1[adj[v][i] := d1[v] + 1]
    requires Grows(m1, m3) && m3[adj[v][i]] && Kept(m1, et2, d2, et3, d3, adj[v][i]) && HangsNew(m1, m3, et3, adj[v][i])
    ensures ExploredUpTo(adj, m3, et3, d3, v, i + 1) && ChildrenListed(m3, et3, d3, v, adj[v][..i + 1])
  {
    var w := adj[v][i];
    assert adj[v][..i + 1] == adj[v][..i] + [w];
    forall k | 0 <= k < i
      ensures TreeEdge(et3, d3, v, adj[v][k])
    {
      assert TreeEdge(et1, d1, v, adj[v][k]);
    }
    assert TreeEdge(et3, d3, v, w);
    forall y | 0 <= y < |m3| && m3[y] && et3[y] == v && d3[y] == d3[v] + 1
      ensures y in adj[v][..i + 1]
    {
      if m1[y] {
        assert et1[y] == v && d1[y] == d1[v] + 1;
      }
    }
  }

  /**
   * The state inside `dfs(graph, u, v)` after `i` turns of its loop, the
   * marks, parents and depths having been `mIn`, `etIn` and `dIn` on entry:
   * `v` is newly marked and on the path; marks only grew; entry parents and
   * depths stay; new marks hang below new marks; and, with no cycle found,
   * everything off the path is finished and the first `i` neighbours of `v`
   * are explored, its tree children among them.
   */
  ghost predicate Scanning(adj: seq<seq<int>>, m: seq<bool>, et: seq<int>, d: seq<nat>, cyc: Option<seq<int>>,
                           u: int, v: int, i: int, path: seq<int>, mIn: seq<bool>, etIn: seq<int>, dIn: seq<nat>)
  {
    Forest(adj, m, et, d) && |mIn| == |adj| && 0 <= v < |adj| && 0 <= i <= |adj[v]| && !mIn[v] && m[v] &&
    Grows(mIn, m) && Kept(mIn, etIn, dIn, et, d, v) && HangsNew(mIn, m, et, v) &&
    Chain(adj, m, et, d, path + [v]) && Hangs(adj, et, d, path, u, v) &&
    (cyc.Some? ==> IsSimpleCycle(adj, cyc.value)) &&
    (cyc.None? ==> Settled(adj, m, et, d, path + [v]) && ExploredUpTo(adj, m, et, d, v, i) && ChildrenListed(m, et, d, v, adj[v][..i]))
  }

  /** Marking the unmarked `v` that hangs below the path starts the loop of `dfs(graph, u, v)`. */
  lemma Enter(adj: seq<seq<int>>, mIn: seq<bool>, etIn: seq<int>, dIn: seq<nat>, cyc: Option<seq<int>>, path: seq<int>, u: int, v: int)
    requires Forest(adj, mIn, etIn, dIn) && Chain(adj, mIn, etIn, dIn, path) && 0 <= v < |adj| && !mIn[v]
    requires Hangs(adj, etIn, dIn, path, u, v)
    requires cyc.Some? ==> IsSimpleCycle(adj, cyc.value)
    requires cyc.None? ==> Settled(adj, mIn, etIn, dIn, path)
    ensures Scanning(adj, mIn[v := true], etIn, dIn, cyc, u, v, 0, path, mIn, etIn, dIn)
  {
    var m := mIn[v := true];
    assert Forest(adj, m, etIn, dIn);
    assert Grows(mIn, m) && Kept(mIn, etIn, dIn, etIn, dIn, v) && HangsNew(mIn, m, etIn, v);
    ChainPush(adj, m, etIn, dIn, path, u, v);
    if cyc.None? {
      SettledMark(adj, mIn, etIn, dIn, path, v);
      // `v` was unmarked, so no marked vertex hangs below it yet.
      assert forall y :: 0 <= y < |mIn| && mIn[y] && dIn[y] > 0 ==> etIn[y] != v;
    }
  }

  /** Reaching the unmarked neighbour `w = adj[v][i]` from `v` sets up the search from `w`. */
  lemma DescendIn(adj: seq<seq<int>>, m1: seq<bool>, et1: seq<int>, d1: seq<nat>, path: seq<int>, u: int, v: int, i: int,
                  mIn: seq<bool>, etIn: seq<int>, dIn: seq<nat>)
    requires WellFormed(adj) && Scanning(adj, m1, et1, d1, None, u, v, i, path, mIn, etIn, dIn)
    requires i < |adj[v]| && !m1[adj[v][i]]
    ensures Forest(adj, m1, et1[adj[v][i] := v], d1[adj[v][i] := d1[v] + 1])
    ensures Chain(adj, m1, et1[adj[v][i] := v], d1[adj[v][i] := d1[v] + 1], path + [v])
    ensures Hangs(adj, et1[adj[v][i] := v], d1[adj[v][i] := d1[v] + 1], path + [v], v, adj[v][i])
    ensures Settled(adj, m1, et1[adj[v][i] := v], d1[adj[v][i] := d1[v] + 1], path + [v])
  {
    var w := adj[v][i];
    SettledRelabel(adj, m1, et1, d1, path + [v], w, v, d1[v] + 1);
    assert d1[v] == |path|;
  }

  /** The search from `w = adj[v][i]` having returned, `v` has one more explored neighbour. */
  lemma DescendOut(adj: seq<seq<int>>, m1: seq<bool>, et1: seq<int>, d1: seq<nat>,
                   m3: seq<bool>, et3: seq<int>, d3: seq<nat>, cyc: Option<seq<int>>, path: seq<int>, u: int, v: int, i: int,
                   mIn: seq<bool>, etIn: seq<int>, dIn: seq<nat>)
    requires WellFormed(adj) && Scanning(adj, m1, et1, d1, None, u, v, i, path, mIn, etIn, dIn)
    requires i < |adj[v]| && !m1[adj[v][i]] && Forest(adj, m3, et3, d3)
    requires Grows(m1, m3) && m3[adj[v][i]] && HangsNew(m1, m3, et3, adj[v][i])
    requires Kept(m1, et1[adj[v][i] := v], d1[adj[v][i] := d1[v] + 1], et3, d3, adj[v][i])
    requires cyc.Some? ==> IsSimpleCycle(adj, cyc.value)
    requires cyc.None? ==> Settled(adj, m3, et3, d3, path + [v])
    ensures Scanning(adj, m3, et3, d3, cyc, u, v, i + 1, path, mIn, etIn, dIn)
  {
    var w := adj[v][i];
    var et2, d2 := et1[w := v], d1[w := d1[v] + 1];
    ChildReturned(adj, mIn, etIn, dIn, m1, et1, d1, et2, d2, m3, et3, d3, path, u, v, w);
    if cyc.None? {
      ChildExplored(adj, m1, et1, d1, et2, d2, m3, et3, d3, v, i);
    }
  }

  class Cycle {
    /** `cycle`: the stack of a cycle's vertices, or None (`nil`) when none was found. */
    var cycle: Option<seq<int>>
    /** `@marked`: which vertices the search has reached. */
    var marked: array<bool>
    /** `@edge_to`: the vertex each searched vertex was reached from. */
    var edgeTo: array<int>
    /** The depth of each searched vertex in the search forest. */
    ghost var depth: seq<nat>
    /** The graph's bags when the search ran. */
    ghost const adj: seq<seq<int>>

    /**
     * The outcome: a graph with a self-loop reports its first one, a graph
     * without self-loops but with parallel edges reports its first pair, and
     * a simple graph reports a cycle exactly when it has one.
     */
    ghost predicate Valid()
      reads this
    {
      WellFormed(adj) && Symmetric(adj) &&
      (cycle.Some? ==> IsPath(adj, cycle.value)) &&
      (!NoSelfLoops(adj) ==> cycle.Some? && SelfLoopCycle(adj, cycle.value)) &&
      (NoSelfLoops(adj) && !NoParallelEdges(adj) ==> cycle.Some? && ParallelCycle(adj, cycle.value)) &&
      (NoSelfLoops(adj) && NoParallelEdges(adj) ==>
        (cycle.Some? <==> HasSimpleCycle(adj)) && (cycle.Some? ==> IsSimpleCycle(adj, cycle.value)))
    }

    /** `new(graph)`: looks for a self-loop, then for parallel edges, then searches. */
    constructor (graph: Graph)
      requires graph.Valid()
      ensures Valid() && adj == graph.adj
    {
      adj := graph.adj;
      cycle := None;
      marked := new bool[0];
      edgeTo := new int[0];
      depth := [];
      new;
      var loop := FindSelfLoop(graph);
      if loop.Some? {
        cycle := Some([loop.value, loop.value]);
        return;
      }
      var parallel := FindParallelEdges(graph);
      if parallel.Some? {
        var (w, u) := parallel.value;
        cycle := Some([w, u, w]);
        ghost var i :| FirstRepeat(adj[w], i) && adj[w][i] == u;
        assert u in adj[w];
        return;
      }
      marked := new bool[graph.v](_ => false);
      edgeTo := new int[graph.v](_ => 0);
      depth := seq(graph.v, _ => 0);
      Search(graph);
    }

    /** `has_cycle?`: true for every graph with a self-loop or parallel edges, and for a simple graph exactly when it has a cycle. */
    function HasCycle(): (b: bool)
      reads this
      requires Valid()
      ensures !NoSelfLoops(adj) || !NoParallelEdges(adj) ==> b
      ensures NoSelfLoops(adj) && NoParallelEdges(adj) ==> (b <==> HasSimpleCycle(adj))
    {
      cycle.Some?
    }

    /**
     * `cycle`: a walk of the graph that either returns to its first vertex
     * or, in a simple graph, is a cycle whose last vertex is adjacent to its
     * first.
     */
    function Cycle(): (c: Option<seq<int>>)
      reads this
      requires Valid()
      ensures c.Some? ==> IsPath(adj, c.value)
      ensures c.Some? ==> c.value[0] == c.value[|c.value| - 1] || IsSimpleCycle(adj, c.value)
      ensures c.None? <==> NoSelfLoops(adj) && NoParallelEdges(adj) && !HasSimpleCycle(adj)
    {
      cycle
    }

    /**
     * The loop of `new(graph)` over the vertices: a search from each vertex
     * not yet marked. A cycle it reports is a cycle of the graph, and when
     * it reports none every edge is a tree edge, so there is none.
     */
    method Search(graph: Graph)
      requires graph.Valid() && graph.adj == adj && NoSelfLoops(adj) && NoParallelEdges(adj)
      requires marked.Length == |adj| && edgeTo.Length == |adj| && |depth| == |adj|
      requires cycle.None? && forall x :: 0 <= x < |adj| ==> !marked[x]
      modifies this`cycle, this`depth, marked, edgeTo
      ensures |depth| == |adj|
      ensures cycle.Some? <==> HasSimpleCycle(adj)
      ensures cycle.Some? ==> IsSimpleCycle(adj, cycle.value)
    {
      var w := 0;
      while w < graph.v
        invariant 0 <= w <= graph.v && |depth| == |adj|
        invariant Forest(adj, marked[..], edgeTo[..], depth)
        invariant cycle.Some? ==> IsSimpleCycle(adj, cycle.value)
        invariant cycle.None? ==> Settled(adj, marked[..], edgeTo[..], depth, [])
        invariant cycle.None? ==> forall x :: 0 <= x < w ==> marked[x]
      {
        Root(graph, w);
        w := w + 1;
      }
      if cycle.None? {
        forall x | 0 <= x < |adj|
          ensures Finished(adj, marked[..], edgeTo[..], depth, x)
        {
          assert marked[x];
        }
        ForestHasNoCycle(adj, marked[..], edgeTo[..], depth);
      }
    }

    /** One turn of the loop in `new(graph)`: a search from `w` when it is not yet marked. */
    method Root(graph: Graph, w: int)
      requires graph.Valid() && graph.adj == adj && NoSelfLoops(adj) && NoParallelEdges(adj)
      requires marked.Length == |adj| && edgeTo.Length == |adj| && |depth| == |adj| && 0 <= w < |adj|
      requires Forest(adj, marked[..], edgeTo[..], depth)
      requires cycle.Some? ==> IsSimpleCycle(adj, cycle.value)
      requires cycle.None? ==> Settled(adj, marked[..], edgeTo[..], depth, [])
      requires cycle.None? ==> forall x :: 0 <= x < w ==> marked[x]
      modifies this`cycle, this`depth, marked, edgeTo
      ensures |depth| == |adj| && Forest(adj, marked[..], edgeTo[..], depth)
      ensures cycle.Some? ==> IsSimpleCycle(adj, cycle.value)
      ensures cycle.None? ==> Settled(adj, marked[..], edgeTo[..], depth, [])
      ensures cycle.None? ==> forall x :: 0 <= x <= w ==> marked[x]
    {
      if !marked[w] {
        SettledRelabel(adj, marked[..], edgeTo[..], depth, [], w, edgeTo[w], 0);
        depth := depth[w := 0];
        Dfs(graph, -1, w, []);
      }
    }

    /**
     * `dfs(graph, u, v)`: marks `v` and, in bag order until a cycle is
     * found, visits every neighbour. Marks are only added; the parents and
     * depths of marked vertices and of `v` stay; every newly marked vertex
     * other than `v` hangs below a newly marked one; a cycle already found
     * stays, and a new one is a cycle of the graph; with none found every
     * marked vertex off the path is finished.
     */
    method Dfs(graph: Graph, u: int, v: int, ghost path: seq<int>)
      requires graph.Valid() && graph.adj == adj && NoSelfLoops(adj) && NoParallelEdges(adj)
      requires marked.Length == |adj| && edgeTo.Length == |adj| && |depth| == |adj|
      requires 0 <= v < |adj| && !marked[v]
      requires Forest(adj, marked[..], edgeTo[..], depth) && Chain(adj, marked[..], edgeTo[..], depth, path)
      requires Hangs(adj, edgeTo[..], depth, path, u, v)
      requires cycle.Some? ==> IsSimpleCycle(adj, cycle.value)
      requires cycle.None? ==> Settled(adj, marked[..], edgeTo[..], depth, path)
      modifies this`cycle, this`depth, marked, edgeTo
      ensures |depth| == |adj| && Grows(old(marked[..]), marked[..]) && marked[v]
      ensures Kept(old(marked[..]), old(edgeTo[..]), old(depth), edgeTo[..], depth, v)
      ensures HangsNew(old(marked[..]), marked[..], edgeTo[..], v)
      ensures Forest(adj, marked[..], edgeTo[..], depth)
      ensures old(cycle).Some? ==> cycle == old(cycle)
      ensures cycle.Some? ==> IsSimpleCycle(adj, cycle.value)
      ensures cycle.None? ==> Settled(adj, marked[..], edgeTo[..], depth, path)
      decreases UnmarkedOf(marked[..]), 1
    {
      ghost var mIn, etIn, dIn := marked[..], edgeTo[..], depth;
      MarkOne(mIn, v);
      marked[v] := true;
      assert marked[..] == mIn[v := true];
      Enter(adj, mIn, etIn, dIn, cycle, path, u, v);
      var neighbours := graph.Adjacent(v).value;
      var i := 0;
      while i < |neighbours| && cycle.None?
        invariant i <= |neighbours| && |depth| == |adj|
        invariant Scanning(adj, marked[..], edgeTo[..], depth, cycle, u, v, i, path, mIn, etIn, dIn)
        invariant old(cycle).Some? ==> cycle == old(cycle)
      {
        GrowsShrinks(old(marked[..]), marked[..], v);
        Visit(graph, u, v, i, path, mIn, etIn, dIn);
        i := i + 1;
      }
      if cycle.None? {
        SettledPop(adj, marked[..], edgeTo[..], depth, path, v);
      }
    }

    /**
     * One turn of the loop in `dfs(graph, u, v)`, for the neighbour
     * `w = adj[v][i]`: a marked `w` other than `u` closes a cycle; an
     * unmarked `w` is reached from `v` and searched from. With no cycle
     * found, one more neighbour of `v` is explored.
     */
    method Visit(graph: Graph, u: int, v: int, i: int, ghost path: seq<int>, ghost mIn: seq<bool>, ghost etIn: seq<int>, ghost dIn: seq<nat>)
      requires graph.Valid() && graph.adj == adj && NoSelfLoops(adj) && NoParallelEdges(adj)
      requires marked.Length == |adj| && edgeTo.Length == |adj| && |depth| == |adj|
      requires Scanning(adj, marked[..], edgeTo[..], depth, cycle, u, v, i, path, mIn, etIn, dIn)
      requires i < |adj[v]| && cycle.None?
      modifies this`cycle, this`depth, marked, edgeTo
      ensures |depth| == |adj|
      ensures Scanning(adj, marked[..], edgeTo[..], depth, cycle, u, v, i + 1, path, mIn, etIn, dIn)
      decreases UnmarkedOf(marked[..]), 3
    {
      var w := graph.Adjacent(v).value[i];
      if marked[w] {
        MeetMarked(graph, u, v, i, path, mIn, etIn, dIn);
      } else {
        Descend(graph, u, v, i, path, mIn, etIn, dIn);
      }
    }

    /**
     * The turn of `dfs(graph, u, v)` for an unmarked neighbour
     * `w = adj[v][i]`: `w` is reached from `v`, one level deeper, and
     * searched from.
     */
    method Descend(graph: Graph, u: int, v: int, i: int, ghost path: seq<int>, ghost mIn: seq<bool>, ghost etIn: seq<int>, ghost dIn: seq<nat>)
      requires graph.Valid() && graph.adj == adj && NoSelfLoops(adj) && NoParallelEdges(adj)
      requires marked.Length == |adj| && edgeTo.Length == |adj| && |depth| == |adj|
      requires Scanning(adj, marked[..], edgeTo[..], depth, cycle, u, v, i, path, mIn, etIn, dIn)
      requires i < |adj[v]| && cycle.None? && !marked[adj[v][i]]
      modifies this`cycle, this`depth, marked, edgeTo
      ensures |depth| == |adj|
      ensures Scanning(adj, marked[..], edgeTo[..], depth, cycle, u, v, i + 1, path, mIn, etIn, dIn)
      decreases UnmarkedOf(marked[..]), 2
    {
      var w := graph.Adjacent(v).value[i];
      ghost var m1, et1, d1 := marked[..], edgeTo[..], depth;
      DescendIn(adj, m1, et1, d1, path, u, v, i, mIn, etIn, dIn);
      edgeTo[w] := v;
      depth := depth[w := d1[v] + 1];
      assert edgeTo[..] == et1[w := v];
      Dfs(graph, v, w, path + [v]);
      DescendOut(adj, m1, et1, d1, marked[..], edgeTo[..], depth, cycle, path, u, v, i, mIn, etIn, dIn);
    }

    /**
     * The turn of `dfs(graph, u, v)` for a marked neighbour `w = adj[v][i]`:
     * unless `w` is `u`, the vertex the search came from, the tree path from
     * `w` down to `v` closes a cycle; `u` is `v`'s parent, one more explored
     * neighbour.
     */
    method MeetMarked(graph: Graph, u: int, v: int, i: int, ghost path: seq<int>, ghost mIn: seq<bool>, ghost etIn: seq<int>, ghost dIn: seq<nat>)
      requires graph.Valid() && graph.adj == adj && NoSelfLoops(adj) && NoParallelEdges(adj)
      requires marked.Length == |adj| && edgeTo.Length == |adj| && |depth| == |adj|
      requires Scanning(adj, marked[..], edgeTo[..], depth, cycle, u, v, i, path, mIn, etIn, dIn)
      requires i < |adj[v]| && cycle.None? && marked[adj[v][i]]
      modifies this`cycle
      ensures Scanning(adj, marked[..], edgeTo[..], depth, cycle, u, v, i + 1, path, mIn, etIn, dIn)
    {
      var w := graph.Adjacent(v).value[i];
      ghost var m1, et1, d1 := marked[..], edgeTo[..], depth;
      ChainPrefix(adj, m1, et1, d1, path, v);
      if w != u {
        MarkedNeighbourOnPath(adj, m1, et1, d1, path, u, v, i);
        ghost var j :| 0 <= j < |path| && path[j] == w;
        var c := CycleTo(v, w, path, j);
        cycle := Some(c);
      } else {
        ParentExplored(adj, m1, et1, d1, path, u, v, i);
      }
    }

    /**
     * The cycle `dfs` builds when `v` meets the marked vertex `path[j]`:
     * pushing `v` and its tree ancestors up to `path[j]`, then `path[j]`,
     * gives the stack listing `path[j]`, ..., `v`, a cycle of the graph.
     */
    method CycleTo(v: int, w: int, ghost path: seq<int>, ghost j: int) returns (c: seq<int>)
      requires marked.Length == |adj| && edgeTo.Length == |adj| && |depth| == |adj| && 0 <= v < |adj|
      requires Forest(adj, marked[..], edgeTo[..], depth) && Chain(adj, marked[..], edgeTo[..], depth, path)
      requires |path| > 0 && Hangs(adj, edgeTo[..], depth, path, path[|path| - 1], v)
      requires 0 <= j < |path| - 1 && path[j] == w && w in adj[v]
      ensures c == path[j..] + [v]
      ensures IsSimpleCycle(adj, c)
    {
      ghost var full := path + [v];
      ghost var k := |path|;
      var x := v;
      c := [];
      while x != w
        invariant j <= k <= |path| && x == full[k] && depth[x] == k && c == full[k + 1..]
        decreases k
      {
        c := [x] + c;
        x := edgeTo[x];
        k := k - 1;
      }
      c := [x] + c;
      PathStretchIsCycle(adj, marked[..], edgeTo[..], depth, path, v, j);
    }
  }

  /** A client: on three vertices, the self-loop 0-0 is a cycle, reported as `[0, 0]`. */
  method SelfLoopGraph() returns (loop: Option<seq<int>>)
    ensures loop == Some([0, 0])
  {
    var g := new Graph.Empty(3);
    assert g.adj == [[], [], []];
    var o := g.AddEdge(0, 0);
    AddedBags([[], [], []], 0, 0);
    assert g.adj[0] == [0, 0] && g.adj[1] == [] && g.adj[2] == [];
    assert 0 in g.adj[0];
    var c := new Cycle(g);
    loop := c.Cycle();
    assert SelfLoopCycle(g.adj, loop.value);
    assert loop.value[0] in g.adj[loop.value[0]];
    assert loop.value[0] == 0;
    assert loop.value == [0, 0];
  }

  /** The bags of the path 0-1-2, built by adding 0-1 and then 1-2. */
  method PathGraph() returns (g: Graph)
    ensures fresh(g) && g.Valid() && g.v == 3 && g.adj == [[1], [2, 0], [1]]
  {
    g := new Graph.Empty(3);
    assert g.adj == [[], [], []];
    var o := g.AddEdge(0, 1);
    AddedBags([[], [], []], 0, 1);
    assert g.adj[0] == [1] && g.adj[1] == [0] && g.adj[2] == [];
    ghost var a1 := g.adj;
    assert a1 == [[1], [0], []];
    o := g.AddEdge(1, 2);
    AddedBags(a1, 1, 2);
    assert g.adj[0] == [1] && g.adj[1] == [2, 0] && g.adj[2] == [1];
  }

  /** A client: the path 0-1-2 has no cycle. */
  method PathHasNoCycle() returns (found: bool)
    ensures !found
  {
    var g := PathGraph();
    PathGraphIsAcyclic(g.adj);
    var c := new Cycle(g);
    found := c.HasCycle();
  }

  /** A client: closing the path 0-1-2 with the edge 2-0 gives a triangle, which has a cycle. */
  method TriangleHasCycle() returns (found: bool)
    ensures found
  {
    var g := PathGraph();
    var o := g.AddEdge(2, 0);
    AddedBags([[1], [2, 0], [1]], 2, 0);
    assert g.adj[0] == [2, 1] && g.adj[1] == [2, 0] && g.adj[2] == [0, 1];
    assert IsPath(g.adj, [0, 1, 2]);
    assert IsSimpleCycle(g.adj, [0, 1, 2]);
    var c := new Cycle(g);
    found := c.HasCycle();
  }

  /** The path 0-1-2 is a search tree rooted at 0, so it holds no cycle. */
  lemma PathGraphIsAcyclic(adj: seq<seq<int>>)
    requires adj == [[1], [2, 0], [1]]
    ensures NoSelfLoops(adj) && NoParallelEdges(adj) && !HasSimpleCycle(adj)
  {
    var m, et, d := [true, true, true], [0, 0, 1], [0, 1, 2];
    assert Forest(adj, m, et, d);
    forall x | 0 <= x < 3
      ensures Finished(adj, m, et, d, x)
    {
      assert TreeEdge(et, d, x, adj[x][0]);
      if x == 1 {
        assert TreeEdge(et, d, 1, adj[1][1]);
      }
    }
    ForestHasNoCycle(adj, m, et, d);
  }
}
