/**
 * The vertices connected to a source vertex, found by a recursive
 * depth-first search (graphs/depth_first_search.rb).
 */
module DepthFirstSearches {
  import opened Errors
  import opened Graphs

  class DepthFirstSearch {
    /** `@marked`: which vertices the search has reached. */
    const marked: array<bool>
    /** `count`: how many vertices the search has reached. */
    var count: nat
    /** The graph's bags when the search ran. */
    ghost const adj: seq<seq<int>>
    /** The source vertex. */
    ghost const source: int

    /**
     * The search's result: the source is marked, every marked vertex is
     * reachable from it, the marks are closed under adjacency, and `count`
     * is the number of marks.
     */
    ghost predicate Valid()
      reads this, marked
    {
      marked.Length == |adj| && WellFormed(adj) && 0 <= source < |adj| && marked[source] &&
      Closed(adj, marked[..]) && AllReachable(adj, source, marked[..]) &&
      count == |MarkedOf(marked[..])|
    }

    /** `new(graph, source)` once `source` is checked: marks what `source` reaches. */
    constructor Search(graph: Graph, source: int)
      requires graph.Valid() && 0 <= source < graph.v
      ensures Valid() && adj == graph.adj && this.source == source
    {
      adj := graph.adj;
      this.source := source;
      count := 0;
      marked := new bool[graph.v](_ => false);
      new;
      assert MarkedOf(marked[..]) == {};
      ghost var none := marked[..];
      ReachableSelf(adj, source);
      Dfs(graph, source);
      ClosedFromNothing(adj, none, marked[..]);
    }

    /**
     * `new(graph, source)`: IndexError unless `source` is a vertex;
     * otherwise the search from `source`.
     */
    static method New(graph: Graph, source: int) returns (r: Result<DepthFirstSearch>)
      requires graph.Valid()
      ensures !(0 <= source < graph.v) <==> r.Err?
      ensures r.Err? ==> r.error == IndexError
      ensures r.Ok? ==> fresh(r.value) && r.value.Valid() && r.value.adj == graph.adj && r.value.source == source
    {
      if !(0 <= source < graph.v) {
        return Err(IndexError);
      }
      var search := new DepthFirstSearch.Search(graph, source);
      return Ok(search);
    }

    /**
     * `dfs(graph, v)`: marks `v` and, in bag order, searches from every
     * neighbour not yet marked. Marks are only added, the new ones are
     * reachable from the source, and every newly marked vertex has all its
     * neighbours marked.
     */
    method Dfs(graph: Graph, v: int)
      requires graph.Valid() && graph.adj == adj && marked.Length == |adj|
      requires 0 <= v < |adj| && !marked[v] && Reachable(adj, source, v)
      requires AllReachable(adj, source, marked[..]) && count == |MarkedOf(marked[..])|
      modifies this, marked
      ensures Grows(old(marked[..]), marked[..]) && marked[v]
      ensures ClosedOutside(adj, old(marked[..]), marked[..])
      ensures AllReachable(adj, source, marked[..]) && count == |MarkedOf(marked[..])|
      decreases UnmarkedOf(marked[..])
    {
      MarkOne(marked[..], v);
      count := count + 1;
      marked[v] := true;
      ghost var entered := old(marked[..])[v := true];
      assert marked[..] == entered;
      var neighbours := graph.Adjacent(v).value;
      var i := 0;
      while i < |neighbours|
        invariant 0 <= i <= |neighbours|
        invariant Grows(entered, marked[..])
        invariant MarkedUpTo(marked[..], neighbours, i)
        invariant ClosedOutside(adj, entered, marked[..])
        invariant AllReachable(adj, source, marked[..]) && count == |MarkedOf(marked[..])|
      {
        var w := neighbours[i];
        ghost var before := marked[..];
        if !IsMarked(w) {
          GrowsShrinks(old(marked[..]), marked[..], v);
          ReachableStep(adj, source, v, w);
          Dfs(graph, w);
          ClosedOutsideTransitive(adj, entered, before, marked[..]);
        }
        MarkedUpToGrows(before, marked[..], neighbours, i);
        i := i + 1;
      }
      ClosedOutsideFinish(adj, old(marked[..]), v, marked[..]);
    }

    /** `marked?(w)`: false for a `w` outside the graph, otherwise whether `w` is marked. */
    function IsMarked(w: int): (b: bool)
      reads this, marked
      ensures b <==> 0 <= w < marked.Length && marked[w]
    {
      if 0 <= w < marked.Length then marked[w] else false
    }

    /** `marked?(w)` of the finished search: `w` is a vertex reachable from the source. */
    lemma MarkedMeansReachable(w: int)
      requires Valid()
      ensures IsMarked(w) <==> 0 <= w < |adj| && Reachable(adj, source, w)
    {
      MarkedIsReachable(adj, marked[..], source);
    }

    /** `count`: the number of vertices reachable from the source, the source included. */
    function Count(): (c: nat)
      reads this, marked
      requires Valid()
      ensures c == |ReachableFrom(adj, source)| && c >= 1
    {
      MarkedIsReachable(adj, marked[..], source);
      assert source in MarkedOf(marked[..]);
      count
    }
  }

  /** In the graph of three vertices with the one edge 0-1, vertex 0 reaches 1 but not 2. */
  lemma OneEdgeGraph(adj: seq<seq<int>>)
    requires adj == Added(seq(3, _ => []), 0, 1)
    ensures Reachable(adj, 0, 1) && !Reachable(adj, 0, 2)
  {
    AddedBags(seq(3, _ => []), 0, 1);
    assert IsPath(adj, [0, 1]);
    var component := [true, true, false];
    assert Closed(adj, component);
    if Reachable(adj, 0, 2) {
      ClosedHoldsReachable(adj, component, 0, 2);
    }
  }

  /**
   * A client: in a graph of three vertices with the one edge 0-1, the
   * search from 0 reaches 0 and 1 but not 2, nor the non-vertex 5.
   */
  method SearchSmallGraph() returns (m0: bool, m1: bool, m2: bool, m5: bool)
    ensures m0 && m1 && !m2 && !m5
  {
    var g := new Graph.Empty(3);
    var o := g.AddEdge(0, 1);
    OneEdgeGraph(g.adj);
    var search := new DepthFirstSearch.Search(g, 0);
    search.MarkedMeansReachable(1);
    search.MarkedMeansReachable(2);
    m0, m1, m2, m5 := search.IsMarked(0), search.IsMarked(1), search.IsMarked(2), search.IsMarked(5);
  }
}
