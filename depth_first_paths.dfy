/**
 * Paths from a source vertex to every vertex it reaches, found by a
 * recursive depth-first search that records the edge each vertex was first
 * reached by (graphs/depth_first_paths.rb).
 */
module DepthFirstPathsModel {
  import opened Errors
  import opened Graphs

  /**
   * The search tree so far: every marked vertex other than the source was
   * reached from a marked vertex `p` in whose bag it is, recorded as
   * `edgeTo[u] == Some(p)`, and `p` is nearer the source by the ghost
   * `depth`.
   */
  ghost predicate TreeLinks(adj: seq<seq<int>>, source: int, m: seq<bool>, edgeTo: seq<Option<int>>, depth: seq<nat>)
  {
    |m| == |edgeTo| == |depth| == |adj| && 0 <= source < |adj| &&
    forall u :: 0 <= u < |m| && m[u] && u != source ==> LinkedToTree(adj, m, edgeTo, depth, u)
  }

  /** `u` hangs from a marked vertex that lists it as a neighbour and is nearer the source. */
  ghost predicate LinkedToTree(adj: seq<seq<int>>, m: seq<bool>, edgeTo: seq<Option<int>>, depth: seq<nat>, u: int)
    requires |m| == |edgeTo| == |depth| == |adj| && 0 <= u < |adj|
  {
    edgeTo[u].Some? && 0 <= edgeTo[u].value < |adj| && m[edgeTo[u].value] &&
    u in adj[edgeTo[u].value] && depth[edgeTo[u].value] < depth[u]
  }

  /** Marking a vertex that hangs from the tree keeps the tree. */
  lemma MarkLinked(adj: seq<seq<int>>, source: int, m: seq<bool>, edgeTo: seq<Option<int>>, depth: seq<nat>, v: int)
    requires TreeLinks(adj, source, m, edgeTo, depth) && 0 <= v < |adj|
    requires v != source ==> LinkedToTree(adj, m, edgeTo, depth, v)
    ensures TreeLinks(adj, source, m[v := true], edgeTo, depth)
  {
    var m2 := m[v := true];
    forall u | 0 <= u < |m2| && m2[u] && u != source
      ensures LinkedToTree(adj, m2, edgeTo, depth, u)
    {
      assert LinkedToTree(adj, m, edgeTo, depth, u);
    }
  }

  /** Recording the edge by which an unmarked vertex `w` is reached from a marked `v` keeps the tree and hangs `w` from it. */
  lemma LinkUnmarked(adj: seq<seq<int>>, source: int, m: seq<bool>, edgeTo: seq<Option<int>>, depth: seq<nat>, v: int, w: int)
    requires TreeLinks(adj, source, m, edgeTo, depth) && 0 <= v < |adj| && 0 <= w < |adj|
    requires m[v] && !m[w] && w != source && w in adj[v]
    ensures TreeLinks(adj, source, m, edgeTo[w := Some(v)], depth[w := depth[v] + 1])
    ensures LinkedToTree(adj, m, edgeTo[w := Some(v)], depth[w := depth[v] + 1], w)
  {
    var edgeTo2, depth2 := edgeTo[w := Some(v)], depth[w := depth[v] + 1];
    forall u | 0 <= u < |m| && m[u] && u != source
      ensures LinkedToTree(adj, m, edgeTo2, depth2, u)
    {
      assert LinkedToTree(adj, m, edgeTo, depth, u);
    }
  }

  /** Following the recorded edges back from a marked vertex reaches the source. */
  lemma {:induction false} TreeReaches(adj: seq<seq<int>>, source: int, m: seq<bool>, edgeTo: seq<Option<int>>, depth: seq<nat>, u: int)
    requires WellFormed(adj) && TreeLinks(adj, source, m, edgeTo, depth) && 0 <= u < |adj| && m[u]
    ensures Reachable(adj, source, u)
    decreases depth[u]
  {
    if u == source {
      ReachableSelf(adj, source);
    } else {
      var p := edgeTo[u].value;
      TreeReaches(adj, source, m, edgeTo, depth, p);
      ReachableStep(adj, source, p, u);
    }
  }

  class DepthFirstPaths {
    /** `@source` */
    const source: int
    /** `@marked`: which vertices the search has reached. */
    const marked: array<bool>
    /** `@edge_to`: the vertex each vertex was first reached from; `None` for `nil`. */
    const edgeTo: array<Option<int>>
    /** The graph's bags when the search ran. */
    ghost const adj: seq<seq<int>>
    /** How many recorded edges each marked vertex is from the source. */
    ghost var depth: seq<nat>

    /** The search's result: a tree of recorded edges over the marks, which include the source and are closed under adjacency. */
    ghost predicate Valid()
      reads this, marked, edgeTo
    {
      marked.Length == |adj| && WellFormed(adj) &&
      TreeLinks(adj, source, marked[..], edgeTo[..], depth) && marked[source] &&
      Closed(adj, marked[..])
    }

    /** `new(graph, source)` for a vertex `source`: searches from it. */
    constructor Search(graph: Graph, source: int)
      requires graph.Valid() && 0 <= source < graph.v
      ensures Valid() && adj == graph.adj && this.source == source
    {
      this.source := source;
      adj := graph.adj;
      marked := new bool[graph.v](_ => false);
      edgeTo := new Option<int>[graph.v](_ => None);
      depth := seq(graph.v, _ => 0);
      new;
      ghost var none := marked[..];
      Dfs(graph, source);
      ClosedFromNothing(adj, none, marked[..]);
    }

    /**
     * `new(graph, source)`: a `source` outside the graph fails with the
     * IndexError of `graph.adjacent`; otherwise the search from it.
     */
    static method New(graph: Graph, source: int) returns (r: Result<DepthFirstPaths>)
      requires graph.Valid()
      ensures !(0 <= source < graph.v) <==> r.Err?
      ensures r.Err? ==> r.error == IndexError
      ensures r.Ok? ==> fresh(r.value) && r.value.Valid() && r.value.adj == graph.adj && r.value.source == source
    {
      var check := graph.Adjacent(source);
      if check.Err? {
        return Err(check.error);
      }
      var search := new DepthFirstPaths.Search(graph, source);
      return Ok(search);
    }

    /**
     * `dfs(graph, v)`: marks `v`; for each neighbour not yet marked, records
     * `v` as the edge it is reached by and searches from it. Marks are only
     * added, the tree of recorded edges is kept, and every newly marked
     * vertex has all its neighbours marked.
     */
    method Dfs(graph: Graph, v: int)
      requires graph.Valid() && graph.adj == adj && marked.Length == |adj|
      requires TreeLinks(adj, source, marked[..], edgeTo[..], depth)
      requires 0 <= v < |adj| && !marked[v]
      requires v != source ==> LinkedToTree(adj, marked[..], edgeTo[..], depth, v) && marked[source]
      modifies this, marked, edgeTo
      ensures Grows(old(marked[..]), marked[..]) && marked[v] && marked[source]
      ensures ClosedOutside(adj, old(marked[..]), marked[..])
      ensures TreeLinks(adj, source, marked[..], edgeTo[..], depth)
      decreases UnmarkedOf(marked[..]), 0
    {
      MarkLinked(adj, source, marked[..], edgeTo[..], depth, v);
      marked[v] := true;
      ghost var entered := old(marked[..])[v := true];
      assert marked[..] == entered;
      var neighbours := graph.Adjacent(v).value;
      var i := 0;
      while i < |neighbours|
        invariant 0 <= i <= |neighbours| && marked[v] && marked[source]
        invariant Grows(entered, marked[..])
        invariant MarkedUpTo(marked[..], neighbours, i)
        invariant ClosedOutside(adj, entered, marked[..])
        invariant TreeLinks(adj, source, marked[..], edgeTo[..], depth)
      {
        GrowsShrinks(old(marked[..]), marked[..], v);
        ghost var before := marked[..];
        assert before[v] && before[source];
        Visit(graph, v, neighbours[i]);
        assert marked[..][v] && marked[..][source];
        ClosedOutsideTransitive(adj, entered, before, marked[..]);
        MarkedUpToGrows(before, marked[..], neighbours, i);
        i := i + 1;
      }
      ClosedOutsideFinish(adj, old(marked[..]), v, marked[..]);
    }

    /** One step of the loop in `dfs(graph, v)`: searches from the neighbour `w` of `v` unless `w` is marked. */
    method Visit(graph: Graph, v: int, w: int)
      requires graph.Valid() && graph.adj == adj && marked.Length == |adj|
      requires TreeLinks(adj, source, marked[..], edgeTo[..], depth)
      requires 0 <= v < |adj| && marked[v] && marked[source] && w in adj[v]
      modifies this, marked, edgeTo
      ensures Grows(old(marked[..]), marked[..]) && marked[w]
      ensures ClosedOutside(adj, old(marked[..]), marked[..])
      ensures TreeLinks(adj, source, marked[..], edgeTo[..], depth)
      decreases UnmarkedOf(marked[..]), 1
    {
      if !marked[w] {
        LinkUnmarked(adj, source, marked[..], edgeTo[..], depth, v, w);
        edgeTo[w] := Some(v);
        depth := depth[w := depth[v] + 1];
        Dfs(graph, w);
      }
    }

    /**
     * `marked?(x)` / `has_path_to?(x)`: `nil` for an index past the last
     * vertex, otherwise whether the source reaches `x`.
     */
    function HasPathTo(x: nat): (r: Option<bool>)
      reads this, marked, edgeTo
      requires Valid()
      ensures x >= |adj| <==> r == None
      ensures r.Some? ==> (r.value <==> Reachable(adj, source, x))
    {
      if x < marked.Length then
        MarkedMeansReachable(x);
        Some(marked[x])
      else None
    }

    /** In the finished search, the marked vertices are those the source reaches. */
    lemma MarkedMeansReachable(x: int)
      requires Valid() && 0 <= x < |adj|
      ensures marked[x] <==> Reachable(adj, source, x)
    {
      if marked[x] {
        TreeReaches(adj, source, marked[..], edgeTo[..], depth, x);
      } else if Reachable(adj, source, x) {
        ClosedHoldsReachable(adj, marked[..], source, x);
      }
    }

    /**
     * `path_to(x)`: `nil` unless the source reaches `x`; otherwise the
     * vertices from the source to `x`, found by following the recorded edges
     * back from `x` and pushing each onto a stack, which lists them source
     * first.
     */
    method PathTo(x: nat) returns (r: Option<seq<int>>)
      requires Valid()
      ensures r.None? <==> !(x < |adj| && Reachable(adj, source, x))
      ensures r.Some? ==> IsPath(adj, r.value) && r.value[0] == source && r.value[|r.value| - 1] == x
    {
      var has := HasPathTo(x);
      if has != Some(true) {
        return None;
      }
      var path: seq<int> := [];
      var y := x;
      while y != source
        invariant 0 <= y < |adj| && marked[y]
        invariant IsPath(adj, [y] + path) && ([y] + path)[|path|] == x
        decreases depth[y]
      {
        var previous := edgeTo[y].value;
        ghost var longer := [previous] + ([y] + path);
        assert IsPath(adj, longer) by {
          forall k | 0 <= k < |longer| - 1
            ensures longer[k + 1] in adj[longer[k]]
          {
            if k > 0 {
              assert longer[k] == ([y] + path)[k - 1] && longer[k + 1] == ([y] + path)[k];
            }
          }
        }
        path := [y] + path;
        y := previous;
      }
      path := [y] + path;
      return Some(path);
    }
  }
}
