/**
 * Two-colouring an undirected multigraph by depth-first search
 * (graphs/bipartite_dfs.rb): each vertex reached from `v` gets the colour
 * opposite to `v`'s, and the first edge found between two marked vertices
 * of the same colour closes an odd cycle, after which the search stops
 * exploring.
 *
 * The odd cycle is listed in the order the Ruby stack iterates, most
 * recently pushed first: `[w, ..., v]` from the vertex `w` met down the
 * search path to the vertex `v` that met it, the closing edge running from
 * `v` back to `w`. A self-loop gives the one-vertex cycle `[v]`.
 */
module BipartiteDepthFirst {
  import opened Errors
  import opened Graphs
  import Cycles

  // The search, described over snapshots of its arrays: the marks `m`, the
  // tree parents `et` (`@edge_to`), a ghost depth `d` of each vertex in the
  // search forest, and the colours `col` (`@color`).

  /** One mark, one parent, one depth and one colour per vertex. */
  ghost predicate Sized(adj: seq<seq<int>>, m: seq<bool>, et: seq<int>, d: seq<nat>, col: seq<bool>)
  {
    |m| == |adj| && |et| == |adj| && |d| == |adj| && |col| == |adj|
  }

  /** The first `i` neighbours of `x` are marked and coloured unlike `x`. */
  ghost predicate ExploredUpTo(adj: seq<seq<int>>, m: seq<bool>, col: seq<bool>, x: int, i: int)
    requires |m| == |adj| && |col| == |adj| && 0 <= x < |adj|
  {
    forall k :: 0 <= k < i && k < |adj[x]| ==> 0 <= adj[x][k] < |adj| && m[adj[x][k]] && col[adj[x][k]] != col[x]
  }

  /** Every neighbour of `x` is marked and coloured unlike `x`. */
  ghost predicate Finished(adj: seq<seq<int>>, m: seq<bool>, col: seq<bool>, x: int)
    requires |m| == |adj| && |col| == |adj| && 0 <= x < |adj|
  {
    ExploredUpTo(adj, m, col, x, |adj[x]|)
  }

  /** Every marked vertex off the search path is finished. */
  ghost predicate Settled(adj: seq<seq<int>>, m: seq<bool>, col: seq<bool>, path: seq<int>)
    requires |m| == |adj| && |col| == |adj|
  {
    forall x :: 0 <= x < |adj| && m[x] && x !in path ==> Finished(adj, m, col, x)
  }

  /**
   * `path` is the search path from a root: marked vertices at depths
   * 0, 1, ..., each the tree child of the one before, adjacent to it and
   * coloured unlike it.
   */
  ghost predicate Chain(adj: seq<seq<int>>, m: seq<bool>, et: seq<int>, d: seq<nat>, col: seq<bool>, path: seq<int>)
    requires Sized(adj, m, et, d, col)
  {
    forall i :: 0 <= i < |path| ==>
      0 <= path[i] < |adj| && m[path[i]] && d[path[i]] == i &&
      (i > 0 ==> et[path[i]] == path[i - 1] && 0 <= path[i - 1] < |adj| &&
                 path[i] in adj[path[i - 1]] && col[path[i]] != col[path[i - 1]])
  }

  /** `dfs(graph, v)` is called for a new root `v`, or for `v` reached from the end of the path. */
  ghost predicate Hangs(adj: seq<seq<int>>, et: seq<int>, d: seq<nat>, col: seq<bool>, path: seq<int>, v: int)
    requires 0 <= v < |adj| && |et| == |adj| && |d| == |adj| && |col| == |adj|
  {
    if path == [] then d[v] == 0
    else
      var u := path[|path| - 1];
      0 <= u < |adj| && et[v] == u && v in adj[u] && d[v] == |path| && col[v] != col[u]
  }

  /** The parents, depths and colours of the vertices marked in `m0`, and of `v`, are those in `et0`, `d0` and `col0`. */
  ghost predicate Kept(m0: seq<bool>, et0: seq<int>, d0: seq<nat>, col0: seq<bool>, et: seq<int>, d: seq<nat>, col: seq<bool>, v: int)
  {
    |et0| == |m0| && |d0| == |m0| && |col0| == |m0| && |et| == |m0| && |d| == |m0| && |col| == |m0| &&
    forall x :: 0 <= x < |m0| && (m0[x] || x == v) ==> et[x] == et0[x] && d[x] == d0[x] && col[x] == col0[x]
  }

  /**
   * The state inside `dfs(graph, v)` after `i` turns of its loop, the
   * arrays having been `mIn`, `etIn`, `dIn` and `colIn` on entry: `v` is
   * newly marked and ends the path; marks only grew; what was fixed on
   * entry stays; an odd cycle found is one of the graph; and with none
   * found every marked vertex off the path is finished and the first `i`
   * neighbours of `v` are explored.
   */
  ghost predicate Scanning(adj: seq<seq<int>>, m: seq<bool>, et: seq<int>, d: seq<nat>, col: seq<bool>, cyc: Option<seq<int>>,
                           v: int, i: int, path: seq<int>, mIn: seq<bool>, etIn: seq<int>, dIn: seq<nat>, colIn: seq<bool>)
  {
    Sized(adj, m, et, d, col) && |mIn| == |adj| && 0 <= v < |adj| && 0 <= i <= |adj[v]| && !mIn[v] && m[v] &&
    Grows(mIn, m) && Kept(mIn, etIn, dIn, colIn, et, d, col, v) && Chain(adj, m, et, d, col, path + [v]) &&
    (cyc.Some? ==> IsOddCycle(adj, cyc.value)) &&
    (cyc.None? ==> Settled(adj, m, col, path + [v]) && ExploredUpTo(adj, m, col, v, i))
  }

  /** Marking the unmarked `v` that hangs below the path starts the loop of `dfs(graph, v)`. */
  lemma Enter(adj: seq<seq<int>>, mIn: seq<bool>, etIn: seq<int>, dIn: seq<nat>, colIn: seq<bool>, cyc: Option<seq<int>>, path: seq<int>, v: int)
    requires Sized(adj, mIn, etIn, dIn, colIn) && Chain(adj, mIn, etIn, dIn, colIn, path) && 0 <= v < |adj| && !mIn[v]
    requires Hangs(adj, etIn, dIn, colIn, path, v)
    requires cyc.Some? ==> IsOddCycle(adj, cyc.value)
    requires cyc.None? ==> Settled(adj, mIn, colIn, path)
    ensures Scanning(adj, mIn[v := true], etIn, dIn, colIn, cyc, v, 0, path, mIn, etIn, dIn, colIn)
  {
    var m := mIn[v := true];
    forall i | 0 <= i < |path + [v]|
      ensures (path + [v])[i] == if i < |path| then path[i] else v
    {
    }
    if cyc.None? {
      forall x | 0 <= x < |adj| && m[x] && x !in path + [v]
        ensures Finished(adj, m, colIn, x)
      {
        assert Finished(adj, mIn, colIn, x);
      }
    }
  }

  /**
   * Reaching the unmarked neighbour `w = adj[v][i]` from `v`, with `w`'s
   * parent set to `v` and its colour to the opposite of `v`'s, sets up the
   * search from `w`.
   */
  lemma DescendIn(adj: seq<seq<int>>, m1: seq<bool>, et1: seq<int>, d1: seq<nat>, col1: seq<bool>, path: seq<int>, v: int, i: int,
                  mIn: seq<bool>, etIn: seq<int>, dIn: seq<nat>, colIn: seq<bool>)
    requires WellFormed(adj) && Scanning(adj, m1, et1, d1, col1, None, v, i, path, mIn, etIn, dIn, colIn)
    requires i < |adj[v]| && !m1[adj[v][i]]
    ensures Chain(adj, m1, et1[adj[v][i] := v], d1[adj[v][i] := d1[v] + 1], col1[adj[v][i] := !col1[v]], path + [v])
    ensures Hangs(adj, et1[adj[v][i] := v], d1[adj[v][i] := d1[v] + 1], col1[adj[v][i] := !col1[v]], path + [v], adj[v][i])
    ensures Settled(adj, m1, col1[adj[v][i] := !col1[v]], path + [v])
  {
    var w := adj[v][i];
    var col2 := col1[w := !col1[v]];
    assert (path + [v])[|path|] == v;
    forall x | 0 <= x < |adj| && m1[x] && x !in path + [v]
      ensures Finished(adj, m1, col2, x)
    {
      assert Finished(adj, m1, col1, x);
    }
  }

  /** The search from `w = adj[v][i]` having returned, `v` has one more explored neighbour. */
  lemma DescendOut(adj: seq<seq<int>>, m1: seq<bool>, et1: seq<int>, d1: seq<nat>, col1: seq<bool>,
                   m3: seq<bool>, et3: seq<int>, d3: seq<nat>, col3: seq<bool>, cyc: Option<seq<int>>, path: seq<int>, v: int, i: int,
                   mIn: seq<bool>, etIn: seq<int>, dIn: seq<nat>, colIn: seq<bool>)
    requires WellFormed(adj) && Scanning(adj, m1, et1, d1, col1, None, v, i, path, mIn, etIn, dIn, colIn)
    requires i < |adj[v]| && !m1[adj[v][i]] && Sized(adj, m3, et3, d3, col3)
    requires Grows(m1, m3) && m3[adj[v][i]]
    requires Kept(m1, et1[adj[v][i] := v], d1[adj[v][i] := d1[v] + 1], col1[adj[v][i] := !col1[v]], et3, d3, col3, adj[v][i])
    requires cyc.Some? ==> IsOddCycle(adj, cyc.value)
    requires cyc.None? ==> Settled(adj, m3, col3, path + [v])
    ensures Scanning(adj, m3, et3, d3, col3, cyc, v, i + 1, path, mIn, etIn, dIn, colIn)
  {
    var w := adj[v][i];
    assert col3[w] == !col1[v] && col3[v] == col1[v];
    forall k | 0 <= k < i
      ensures col3[adj[v][k]] != col3[v]
    {
      assert m1[adj[v][k]];
    }
  }

  /**
   * A marked neighbour `w = adj[v][i]` coloured like `v` lies on the search
   * path or is `v` itself: a finished `w` would have every neighbour, `v`
   * among them, coloured unlike it.
   */
  lemma SameColourOnPath(adj: seq<seq<int>>, m: seq<bool>, col: seq<bool>, path: seq<int>, v: int, i: int)
    requires WellFormed(adj) && Symmetric(adj) && |m| == |adj| && |col| == |adj|
    requires 0 <= v < |adj| && Settled(adj, m, col, path + [v])
    requires 0 <= i < |adj[v]| && m[adj[v][i]] && col[adj[v][i]] == col[v]
    ensures adj[v][i] in path + [v]
  {
    var w := adj[v][i];
    assert v in adj[w];
    var k :| 0 <= k < |adj[w]| && adj[w][k] == v;
    assert col[adj[w][k]] == col[w];
    assert !Finished(adj, m, col, w);
  }

  /** Along the search path the colours alternate: entries an even distance below `path[j]` share its colour. */
  lemma {:induction false} ChainAlternates(adj: seq<seq<int>>, m: seq<bool>, et: seq<int>, d: seq<nat>, col: seq<bool>, path: seq<int>, j: int, k: int)
    requires Sized(adj, m, et, d, col) && Chain(adj, m, et, d, col, path) && 0 <= j <= k < |path|
    ensures col[path[k]] == (col[path[j]] == ((k - j) % 2 == 0))
    decreases k
  {
    if k > j {
      ChainAlternates(adj, m, et, d, col, path, j, k - 1);
    }
  }

  /**
   * The stretch of the search path from `path[j]` to its last vertex, when
   * the two ends are adjacent and share a colour, is an odd cycle.
   */
  lemma ChainStretchIsOddCycle(adj: seq<seq<int>>, m: seq<bool>, et: seq<int>, d: seq<nat>, col: seq<bool>, path: seq<int>, j: int)
    requires Sized(adj, m, et, d, col) && Chain(adj, m, et, d, col, path) && 0 <= j < |path|
    requires path[j] in adj[path[|path| - 1]] && col[path[j]] == col[path[|path| - 1]]
    ensures IsOddCycle(adj, path[j..])
  {
    var c := path[j..];
    ChainAlternates(adj, m, et, d, col, path, j, |path| - 1);
    forall k | 0 <= k < |c|
      ensures 0 <= c[k] < |adj| && d[c[k]] == j + k
    {
    }
    forall k | 0 <= k < |c| - 1
      ensures c[k + 1] in adj[c[k]]
    {
      assert c[k + 1] == path[j + k + 1];
    }
  }

  /** A finished vertex leaves the end of the path. */
  lemma SettledPop(adj: seq<seq<int>>, m: seq<bool>, col: seq<bool>, path: seq<int>, v: int)
    requires |m| == |adj| && |col| == |adj| && 0 <= v < |adj|
    requires Settled(adj, m, col, path + [v]) && Finished(adj, m, col, v)
    ensures Settled(adj, m, col, path)
  {
  }

  class BipartiteDFS {
    /** `@is_bipartite`: false once an odd cycle is found. */
    var isBipartite: bool
    /** `@color`: the side of the bipartition each vertex is on. */
    var color: array<bool>
    /** `@marked`: which vertices the search has reached. */
    var marked: array<bool>
    /** `@edge_to`: the vertex each searched vertex was reached from. */
    var edgeTo: array<int>
    /** `odd_cycle`: the stack of an odd cycle's vertices, or None (`nil`) when none was found. */
    var oddCycle: Option<seq<int>>
    /** The depth of each searched vertex in the search forest. */
    ghost var depth: seq<nat>
    /** The graph's bags when the search ran. */
    ghost const adj: seq<seq<int>>

    /**
     * The outcome: the graph is reported bipartite exactly when it has a
     * proper two-colouring, the colours are then one, and otherwise an odd
     * cycle of the graph is reported.
     */
    ghost predicate Valid()
      reads this, color
    {
      WellFormed(adj) && Symmetric(adj) && color.Length == |adj| &&
      (isBipartite <==> oddCycle.None?) &&
      (isBipartite <==> TwoColourable(adj)) &&
      (isBipartite ==> ProperColouring(adj, color[..])) &&
      (oddCycle.Some? ==> IsOddCycle(adj, oddCycle.value))
    }

    /** `new(graph)`: every vertex starts unmarked and coloured false, then a search runs from each vertex not yet marked. */
    constructor (graph: Graph)
      requires graph.Valid()
      ensures Valid() && adj == graph.adj
    {
      adj := graph.adj;
      isBipartite := true;
      color := new bool[graph.v](_ => false);
      marked := new bool[graph.v](_ => false);
      edgeTo := new int[graph.v](_ => 0);
      oddCycle := None;
      depth := seq(graph.v, _ => 0);
      new;
      Search(graph);
    }

    /** `bipartite?`: true exactly when the graph has a proper two-colouring. */
    function IsBipartite(): (b: bool)
      reads this, color
      requires Valid()
      ensures b <==> TwoColourable(adj)
    {
      isBipartite
    }

    /**
     * `color(x)`: NotBipartiteError for a graph that is not bipartite, then
     * RangeError unless `x` is a vertex; otherwise the side of `x`, which
     * differs from the side of every neighbour.
     */
    function Color(x: int): (r: Result<bool>)
      reads this, color
      requires Valid()
      ensures !TwoColourable(adj) ==> r == Err(NotBipartiteError)
      ensures TwoColourable(adj) && !(0 <= x < |adj|) ==> r == Err(RangeError)
      ensures TwoColourable(adj) && 0 <= x < |adj| ==> r.Ok?
      ensures r.Ok? ==> 0 <= x < |adj| && forall k :: 0 <= k < |adj[x]| ==> color[adj[x][k]] != r.value
    {
      if !isBipartite then Err(NotBipartiteError)
      else if x < 0 || color.Length <= x then Err(RangeError)
      else Ok(color[x])
    }

    /** `odd_cycle`: an odd cycle of the graph, present exactly when the graph is not bipartite. */
    function OddCycle(): (c: Option<seq<int>>)
      reads this, color
      requires Valid()
      ensures c.Some? ==> IsOddCycle(adj, c.value)
      ensures c.None? <==> TwoColourable(adj)
    {
      oddCycle
    }

    /**
     * The loop of `new(graph)` over the vertices: a search from each vertex
     * not yet marked. An odd cycle it reports is one of the graph, and when
     * it reports none every vertex has every neighbour coloured unlike it.
     */
    method Search(graph: Graph)
      requires graph.Valid() && graph.adj == adj && color != marked
      requires marked.Length == |adj| && edgeTo.Length == |adj| && color.Length == |adj| && |depth| == |adj|
      requires isBipartite && oddCycle.None? && forall x :: 0 <= x < |adj| ==> !marked[x]
      modifies this`isBipartite, this`oddCycle, this`depth, marked, edgeTo, color
      ensures Valid()
    {
      var w := 0;
      while w < graph.v
        invariant 0 <= w <= graph.v && |depth| == |adj|
        invariant isBipartite <==> oddCycle.None?
        invariant oddCycle.Some? ==> IsOddCycle(adj, oddCycle.value)
        invariant oddCycle.None? ==> Settled(adj, marked[..], color[..], [])
        invariant oddCycle.None? ==> forall x :: 0 <= x < w ==> marked[x]
      {
        if !marked[w] {
          depth := depth[w := 0];
          Dfs(graph, w, []);
        }
        w := w + 1;
      }
      if oddCycle.None? {
        forall x, k | 0 <= x < |adj| && 0 <= k < |adj[x]|
          ensures 0 <= adj[x][k] < |adj| && color[adj[x][k]] != color[x]
        {
          assert marked[x] && Finished(adj, marked[..], color[..], x);
        }
        assert ProperColouring(adj, color[..]);
      } else {
        OddCycleNotColourable(adj, oddCycle.value);
      }
    }

    /**
     * `dfs(graph, v)`: marks `v` and, in bag order until an odd cycle is
     * found, visits every neighbour. Marks are only added; the parents,
     * depths and colours of marked vertices and of `v` stay; an odd cycle
     * already found stays, and a new one is an odd cycle of the graph; with
     * none found every marked vertex off the path is finished.
     */
    method Dfs(graph: Graph, v: int, ghost path: seq<int>)
      requires graph.Valid() && graph.adj == adj && color != marked
      requires marked.Length == |adj| && edgeTo.Length == |adj| && color.Length == |adj| && |depth| == |adj|
      requires 0 <= v < |adj| && !marked[v]
      requires Chain(adj, marked[..], edgeTo[..], depth, color[..], path) && Hangs(adj, edgeTo[..], depth, color[..], path, v)
      requires isBipartite <==> oddCycle.None?
      requires oddCycle.Some? ==> IsOddCycle(adj, oddCycle.value)
      requires oddCycle.None? ==> Settled(adj, marked[..], color[..], path)
      modifies this`isBipartite, this`oddCycle, this`depth, marked, edgeTo, color
      ensures |depth| == |adj| && Grows(old(marked[..]), marked[..]) && marked[v]
      ensures Kept(old(marked[..]), old(edgeTo[..]), old(depth), old(color[..]), edgeTo[..], depth, color[..], v)
      ensures isBipartite <==> oddCycle.None?
      ensures old(oddCycle).Some? ==> oddCycle == old(oddCycle)
      ensures oddCycle.Some? ==> IsOddCycle(adj, oddCycle.value)
      ensures oddCycle.None? ==> Settled(adj, marked[..], color[..], path)
      decreases UnmarkedOf(marked[..]), 1
    {
      ghost var mIn, etIn, dIn, colIn := marked[..], edgeTo[..], depth, color[..];
      MarkOne(mIn, v);
      marked[v] := true;
      assert marked[..] == mIn[v := true];
      Enter(adj, mIn, etIn, dIn, colIn, oddCycle, path, v);
      var neighbours := graph.Adjacent(v).value;
      var i := 0;
      while i < |neighbours| && oddCycle.None?
        invariant i <= |neighbours| && |depth| == |adj|
        invariant Scanning(adj, marked[..], edgeTo[..], depth, color[..], oddCycle, v, i, path, mIn, etIn, dIn, colIn)
        invariant isBipartite <==> oddCycle.None?
        invariant old(oddCycle).Some? ==> oddCycle == old(oddCycle)
      {
        GrowsShrinks(old(marked[..]), marked[..], v);
        Visit(graph, v, i, path, mIn, etIn, dIn, colIn);
        i := i + 1;
      }
      if oddCycle.None? {
        SettledPop(adj, marked[..], color[..], path, v);
      }
    }

    /**
     * One turn of the loop in `dfs(graph, v)`, for the neighbour
     * `w = adj[v][i]`: a marked `w` coloured like `v` closes an odd cycle;
     * an unmarked `w` gets the other colour and is searched from.
     */
    method Visit(graph: Graph, v: int, i: int, ghost path: seq<int>,
                 ghost mIn: seq<bool>, ghost etIn: seq<int>, ghost dIn: seq<nat>, ghost colIn: seq<bool>)
      requires graph.Valid() && graph.adj == adj && color != marked
      requires marked.Length == |adj| && edgeTo.Length == |adj| && color.Length == |adj| && |depth| == |adj|
      requires Scanning(adj, marked[..], edgeTo[..], depth, color[..], oddCycle, v, i, path, mIn, etIn, dIn, colIn)
      requires i < |adj[v]| && isBipartite && oddCycle.None?
      modifies this`isBipartite, this`oddCycle, this`depth, marked, edgeTo, color
      ensures |depth| == |adj| && (isBipartite <==> oddCycle.None?)
      ensures Scanning(adj, marked[..], edgeTo[..], depth, color[..], oddCycle, v, i + 1, path, mIn, etIn, dIn, colIn)
      decreases UnmarkedOf(marked[..]), 3
    {
      var w := graph.Adjacent(v).value[i];
      if marked[w] {
        MeetMarked(graph, v, i, path, mIn, etIn, dIn, colIn);
      } else {
        Descend(graph, v, i, path, mIn, etIn, dIn, colIn);
      }
    }

    /**
     * The turn of `dfs(graph, v)` for an unmarked neighbour `w = adj[v][i]`:
     * `w` is reached from `v`, coloured unlike `v`, and searched from.
     */
    method Descend(graph: Graph, v: int, i: int, ghost path: seq<int>,
                   ghost mIn: seq<bool>, ghost etIn: seq<int>, ghost dIn: seq<nat>, ghost colIn: seq<bool>)
      requires graph.Valid() && graph.adj == adj && color != marked
      requires marked.Length == |adj| && edgeTo.Length == |adj| && color.Length == |adj| && |depth| == |adj|
      requires Scanning(adj, marked[..], edgeTo[..], depth, color[..], oddCycle, v, i, path, mIn, etIn, dIn, colIn)
      requires i < |adj[v]| && isBipartite && oddCycle.None? && !marked[adj[v][i]]
      modifies this`isBipartite, this`oddCycle, this`depth, marked, edgeTo, color
      ensures |depth| == |adj| && (isBipartite <==> oddCycle.None?)
      ensures Scanning(adj, marked[..], edgeTo[..], depth, color[..], oddCycle, v, i + 1, path, mIn, etIn, dIn, colIn)
      decreases UnmarkedOf(marked[..]), 2
    {
      var w := graph.Adjacent(v).value[i];
      ghost var m1, et1, d1, col1 := marked[..], edgeTo[..], depth, color[..];
      DescendIn(adj, m1, et1, d1, col1, path, v, i, mIn, etIn, dIn, colIn);
      edgeTo[w] := v;
      color[w] := !color[v];
      depth := depth[w := d1[v] + 1];
      assert edgeTo[..] == et1[w := v] && color[..] == col1[w := !col1[v]] && marked[..] == m1;
      Dfs(graph, w, path + [v]);
      DescendOut(adj, m1, et1, d1, col1, marked[..], edgeTo[..], depth, color[..], oddCycle, path, v, i, mIn, etIn, dIn, colIn);
    }

    /**
     * The turn of `dfs(graph, v)` for a marked neighbour `w = adj[v][i]`: a
     * `w` coloured like `v` lies on the search path, and the stretch from
     * `w` down to `v` is an odd cycle; otherwise one more neighbour is
     * explored.
     */
    method MeetMarked(graph: Graph, v: int, i: int, ghost path: seq<int>,
                      ghost mIn: seq<bool>, ghost etIn: seq<int>, ghost dIn: seq<nat>, ghost colIn: seq<bool>)
      requires graph.Valid() && graph.adj == adj
      requires marked.Length == |adj| && edgeTo.Length == |adj| && color.Length == |adj| && |depth| == |adj|
      requires Scanning(adj, marked[..], edgeTo[..], depth, color[..], oddCycle, v, i, path, mIn, etIn, dIn, colIn)
      requires i < |adj[v]| && isBipartite && oddCycle.None? && marked[adj[v][i]]
      modifies this`isBipartite, this`oddCycle
      ensures isBipartite <==> oddCycle.None?
      ensures Scanning(adj, marked[..], edgeTo[..], depth, color[..], oddCycle, v, i + 1, path, mIn, etIn, dIn, colIn)
    {
      var w := graph.Adjacent(v).value[i];
      if color[w] == color[v] {
        isBipartite := false;
        SameColourOnPath(adj, marked[..], color[..], path, v, i);
        ghost var full := path + [v];
        ghost var j :| 0 <= j < |full| && full[j] == w;
        SetCycle(v, w, full, j);
      }
    }

    /**
     * `set_cycle(v, w)`: pushing `v` and its tree ancestors up to the
     * vertex `w = full[j]` of the search path `full`, then `w`, gives the
     * stack listing `full[j..]`, an odd cycle when `w` is adjacent to `v`
     * and coloured like it.
     */
    method SetCycle(v: int, w: int, ghost full: seq<int>, ghost j: int)
      requires marked.Length == |adj| && edgeTo.Length == |adj| && color.Length == |adj| && |depth| == |adj|
      requires Chain(adj, marked[..], edgeTo[..], depth, color[..], full)
      requires 0 <= j < |full| && full[j] == w && full[|full| - 1] == v
      requires w in adj[v] && color[w] == color[v]
      modifies this`oddCycle
      ensures oddCycle == Some(full[j..])
      ensures IsOddCycle(adj, full[j..])
    {
      ghost var k := |full| - 1;
      var x := v;
      var c := [];
      while x != w
        invariant j <= k < |full| && x == full[k] && depth[x] == k && c == full[k + 1..]
        decreases k
      {
        c := [x] + c;
        x := edgeTo[x];
        k := k - 1;
      }
      assert depth[full[j]] == j;
      assert full[j..] == [full[j]] + full[j + 1..];
      oddCycle := Some([x] + c);
      ChainStretchIsOddCycle(adj, marked[..], edgeTo[..], depth, color[..], full, j);
    }
  }

  /** A client: the path 0-1-2 is bipartite, with 0 and 1 on different sides. */
  method PathIsBipartite() returns (b: bool, c0: Result<bool>, c1: Result<bool>)
    ensures b && c0.Ok? && c1.Ok? && c0.value != c1.value
  {
    var g := Cycles.PathGraph();
    assert ProperColouring(g.adj, [false, true, false]);
    var bp := new BipartiteDFS(g);
    b := bp.IsBipartite();
    c0, c1 := bp.Color(0), bp.Color(1);
    assert g.adj[0][0] == 1;
  }

  /** A client: the triangle 0-1-2 is not bipartite, and asking for a colour is refused. */
  method TriangleIsNotBipartite() returns (b: bool, c0: Result<bool>)
    ensures !b && c0 == Err(NotBipartiteError)
  {
    var g := Cycles.PathGraph();
    var o := g.AddEdge(2, 0);
    AddedBags([[1], [2, 0], [1]], 2, 0);
    assert g.adj[0] == [2, 1] && g.adj[1] == [2, 0] && g.adj[2] == [0, 1];
    assert IsPath(g.adj, [0, 1, 2]);
    OddCycleNotColourable(g.adj, [0, 1, 2]);
    var bp := new BipartiteDFS(g);
    b := bp.IsBipartite();
    c0 := bp.Color(0);
  }
}
