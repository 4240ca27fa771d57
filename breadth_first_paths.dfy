/**
 * Shortest paths from a source vertex, or from a set of source vertices, to
 * every vertex they reach, found by a queue-driven breadth-first search
 * (graphs/breadth_first_paths.rb).
 */
module BreadthFirstPathsModel {
  import opened Errors
  import opened Graphs

  /** A walk that starts at one of the sources. */
  ghost predicate SourcePath(adj: seq<seq<int>>, sources: seq<int>, p: seq<int>)
  {
    IsPath(adj, p) && p[0] in sources
  }

  /** Some source reaches `x`. */
  ghost predicate ReachedFrom(adj: seq<seq<int>>, sources: seq<int>, x: int)
  {
    exists p :: SourcePath(adj, sources, p) && p[|p| - 1] == x
  }

  /** `d` edges is the length of a shortest walk from a source to `x`. */
  ghost predicate IsShortest(adj: seq<seq<int>>, sources: seq<int>, x: int, d: int)
  {
    (exists p :: SourcePath(adj, sources, p) && p[|p| - 1] == x && |p| == d + 1) &&
    (forall p :: SourcePath(adj, sources, p) && p[|p| - 1] == x ==> |p| >= d + 1)
  }

  /** `@distance_to[x]` read as a number, with -1 for `nil`. */
  function Level(dist: seq<Option<int>>, x: int): int
    requires 0 <= x < |dist|
  {
    match dist[x]
    case Some(k) => k
    case None => -1
  }

  /** `w` is a marked vertex at most one level beyond `u`. */
  ghost predicate Near(m: seq<bool>, dist: seq<Option<int>>, u: int, w: int)
    requires |m| == |dist| && 0 <= u < |m|
  {
    0 <= w < |m| && m[w] && Level(dist, w) <= Level(dist, u) + 1
  }

  /**
   * What the arrays record: the sources are marked at distance 0, a vertex
   * is marked exactly when it has a distance, only sources are at distance
   * 0, and every other marked vertex was reached from a marked neighbour one
   * level nearer.
   */
  ghost predicate Labels(adj: seq<seq<int>>, sources: seq<int>, m: seq<bool>, dist: seq<Option<int>>, edgeTo: seq<Option<int>>)
  {
    |m| == |dist| == |edgeTo| == |adj| &&
    SourcesAtZero(sources, m, dist) && LevelsMarked(sources, m, dist) && TreeEdges(adj, m, dist, edgeTo)
  }

  /** The sources are marked at distance 0. */
  ghost predicate SourcesAtZero(sources: seq<int>, m: seq<bool>, dist: seq<Option<int>>)
  {
    forall s :: s in sources ==> 0 <= s < |m| && s < |dist| && m[s] && dist[s] == Some(0)
  }

  /** A vertex is marked exactly when it has a distance, and only sources are at distance 0. */
  ghost predicate LevelsMarked(sources: seq<int>, m: seq<bool>, dist: seq<Option<int>>)
    requires |m| == |dist|
  {
    (forall u :: 0 <= u < |m| ==> (m[u] <==> dist[u].Some?)) &&
    (forall u :: 0 <= u < |m| && m[u] ==> Level(dist, u) >= 0 && (Level(dist, u) == 0 ==> u in sources))
  }

  /** Every marked vertex not at distance 0 was reached from a marked neighbour one level nearer. */
  ghost predicate TreeEdges(adj: seq<seq<int>>, m: seq<bool>, dist: seq<Option<int>>, edgeTo: seq<Option<int>>)
    requires |m| == |dist| == |edgeTo| == |adj|
  {
    forall u :: 0 <= u < |m| && m[u] && Level(dist, u) != 0 ==> TreeEdge(adj, m, dist, edgeTo, u)
  }

  /** `u` was reached from the marked neighbour `edgeTo[u]`, one level nearer. */
  ghost predicate TreeEdge(adj: seq<seq<int>>, m: seq<bool>, dist: seq<Option<int>>, edgeTo: seq<Option<int>>, u: int)
    requires |m| == |dist| == |edgeTo| == |adj| && 0 <= u < |m|
  {
    edgeTo[u].Some? && 0 <= edgeTo[u].value < |m| && m[edgeTo[u].value] &&
    u in adj[edgeTo[u].value] && Level(dist, edgeTo[u].value) == Level(dist, u) - 1
  }

  /**
   * The queue holds marked vertices at levels `d` and `d + 1`, in
   * non-decreasing order; nothing marked is beyond `d + 1`, and nothing
   * marked outside the queue is beyond `d`.
   */
  ghost predicate Layered(m: seq<bool>, dist: seq<Option<int>>, queue: seq<int>, d: int)
    requires |m| == |dist|
  {
    (forall k :: 0 <= k < |queue| ==> 0 <= queue[k] < |m| && m[queue[k]] && d <= Level(dist, queue[k]) <= d + 1) &&
    (forall j, k :: 0 <= j < k < |queue| && 0 <= queue[j] < |m| && 0 <= queue[k] < |m| ==> Level(dist, queue[j]) <= Level(dist, queue[k])) &&
    (forall x :: 0 <= x < |m| && m[x] ==> Level(dist, x) <= d + 1) &&
    (forall x :: 0 <= x < |m| && m[x] && x !in queue ==> Level(dist, x) <= d)
  }

  /**
   * Every marked vertex that has left the queue, other than `v`, has all
   * its neighbours marked at most one level beyond it; `v` has its first `i`.
   */
  ghost predicate Explored(adj: seq<seq<int>>, m: seq<bool>, dist: seq<Option<int>>, queue: seq<int>, v: int, i: int)
    requires |m| == |dist| == |adj|
  {
    (forall u, k :: 0 <= u < |m| && m[u] && u !in queue && u != v && 0 <= k < |adj[u]| ==> Near(m, dist, u, adj[u][k])) &&
    (0 <= v < |m| ==> forall k :: 0 <= k < i && k < |adj[v]| ==> Near(m, dist, v, adj[v][k]))
  }

  /** Every neighbour of every marked vertex is marked at most one level beyond it. */
  ghost predicate AllNear(adj: seq<seq<int>>, m: seq<bool>, dist: seq<Option<int>>)
    requires |m| == |dist| == |adj|
  {
    forall u, k :: 0 <= u < |m| && m[u] && 0 <= k < |adj[u]| ==> Near(m, dist, u, adj[u][k])
  }

  /** Taking `v` off the front of the queue makes its level the current one. */
  lemma Dequeue(adj: seq<seq<int>>, m: seq<bool>, dist: seq<Option<int>>, queue: seq<int>, d: int)
    requires |m| == |dist| == |adj| && |queue| > 0
    requires Layered(m, dist, queue, d) && Explored(adj, m, dist, queue, -1, 0)
    ensures Layered(m, dist, queue[1..], Level(dist, queue[0]))
    ensures Explored(adj, m, dist, queue[1..], queue[0], 0)
  {
    var v, rest, d2 := queue[0], queue[1..], Level(dist, queue[0]);
    forall k | 0 <= k < |rest|
      ensures d2 <= Level(dist, rest[k])
    {
      assert rest[k] == queue[k + 1];
    }
    forall x | 0 <= x < |m| && m[x] && x !in rest
      ensures Level(dist, x) <= d2
    {
      if x != v {
        assert x !in queue;
      }
    }
    forall j, k | 0 <= j < k < |rest| && 0 <= rest[j] < |m| && 0 <= rest[k] < |m|
      ensures Level(dist, rest[j]) <= Level(dist, rest[k])
    {
      assert rest[j] == queue[j + 1] && rest[k] == queue[k + 1];
    }
    forall u, k | 0 <= u < |m| && m[u] && u !in rest && u != v && 0 <= k < |adj[u]|
      ensures Near(m, dist, u, adj[u][k])
    {
      assert u !in queue;
    }
  }

  /** A neighbour that is already marked is near `v`. */
  lemma SkipMarked(adj: seq<seq<int>>, m: seq<bool>, dist: seq<Option<int>>, queue: seq<int>, v: int, i: int)
    requires |m| == |dist| == |adj| && 0 <= v < |m| && m[v] && 0 <= i < |adj[v]|
    requires 0 <= adj[v][i] < |m| && m[adj[v][i]]
    requires Layered(m, dist, queue, Level(dist, v)) && Explored(adj, m, dist, queue, v, i)
    ensures Explored(adj, m, dist, queue, v, i + 1)
  {
  }

  /**
   * Marking the unmarked neighbour `w` of `v` one level beyond `v`,
   * recording `v` as its edge and queueing it keeps every invariant.
   */
  lemma VisitUnmarked(adj: seq<seq<int>>, sources: seq<int>, m: seq<bool>, dist: seq<Option<int>>, edgeTo: seq<Option<int>>, queue: seq<int>, v: int, i: int)
    requires Labels(adj, sources, m, dist, edgeTo) && 0 <= v < |m| && m[v] && 0 <= i < |adj[v]|
    requires 0 <= adj[v][i] < |m| && !m[adj[v][i]]
    requires Layered(m, dist, queue, Level(dist, v)) && Explored(adj, m, dist, queue, v, i)
    ensures var w := adj[v][i];
      var m2, dist2, edgeTo2 := m[w := true], dist[w := Some(Level(dist, v) + 1)], edgeTo[w := Some(v)];
      Labels(adj, sources, m2, dist2, edgeTo2) && m2[v] && Level(dist2, v) == Level(dist, v) &&
      Layered(m2, dist2, queue + [w], Level(dist, v)) && Explored(adj, m2, dist2, queue + [w], v, i + 1)
  {
    var w, d := adj[v][i], Level(dist, v);
    VisitLabels(adj, sources, m, dist, edgeTo, v, w, d);
    VisitLayered(m, dist, queue, w, d);
    VisitExplored(adj, m, dist, queue, v, i, w, d);
  }

  /** Marking `w` one level beyond its marked neighbour `v`, with `v` as its edge, keeps the labels. */
  lemma VisitLabels(adj: seq<seq<int>>, sources: seq<int>, m: seq<bool>, dist: seq<Option<int>>, edgeTo: seq<Option<int>>, v: int, w: int, d: int)
    requires Labels(adj, sources, m, dist, edgeTo) && 0 <= v < |m| && m[v] && d == Level(dist, v)
    requires 0 <= w < |m| && !m[w] && w in adj[v]
    ensures Labels(adj, sources, m[w := true], dist[w := Some(d + 1)], edgeTo[w := Some(v)])
    ensures Level(dist[w := Some(d + 1)], v) == d
  {
    assert w !in sources;
    VisitSources(sources, m, dist, w, d);
    VisitLevels(sources, m, dist, w, d);
    VisitTreeEdges(adj, m, dist, edgeTo, v, w, d);
  }

  /** Marking a vertex that is not a source leaves the sources at distance 0. */
  lemma VisitSources(sources: seq<int>, m: seq<bool>, dist: seq<Option<int>>, w: int, d: int)
    requires SourcesAtZero(sources, m, dist) && 0 <= w < |m| == |dist| && w !in sources
    ensures SourcesAtZero(sources, m[w := true], dist[w := Some(d + 1)])
  {
  }

  /** Marking an unmarked vertex that is not a source at a positive level keeps marks and levels in step. */
  lemma VisitLevels(sources: seq<int>, m: seq<bool>, dist: seq<Option<int>>, w: int, d: int)
    requires |m| == |dist| && LevelsMarked(sources, m, dist) && 0 <= w < |m| && w !in sources && d >= 0
    ensures LevelsMarked(sources, m[w := true], dist[w := Some(d + 1)])
  {
    var m2, dist2 := m[w := true], dist[w := Some(d + 1)];
    forall u | 0 <= u < |m2| && m2[u]
      ensures Level(dist2, u) >= 0 && (Level(dist2, u) == 0 ==> u in sources)
    {
      if u != w {
        assert Level(dist2, u) == Level(dist, u);
      }
    }
  }

  /** The edge from `v` to the newly marked `w` is a tree edge, and the older ones stay tree edges. */
  lemma VisitTreeEdges(adj: seq<seq<int>>, m: seq<bool>, dist: seq<Option<int>>, edgeTo: seq<Option<int>>, v: int, w: int, d: int)
    requires |m| == |dist| == |edgeTo| == |adj| && TreeEdges(adj, m, dist, edgeTo)
    requires 0 <= v < |m| && m[v] && d == Level(dist, v) && 0 <= w < |m| && !m[w] && w in adj[v]
    ensures TreeEdges(adj, m[w := true], dist[w := Some(d + 1)], edgeTo[w := Some(v)])
  {
    var m2, dist2, edgeTo2 := m[w := true], dist[w := Some(d + 1)], edgeTo[w := Some(v)];
    forall u | 0 <= u < |m2| && m2[u] && Level(dist2, u) != 0
      ensures TreeEdge(adj, m2, dist2, edgeTo2, u)
    {
      if u != w {
        assert TreeEdge(adj, m, dist, edgeTo, u);
        assert Level(dist2, u) == Level(dist, u) && Level(dist2, edgeTo[u].value) == Level(dist, edgeTo[u].value);
      }
    }
  }

  /** Queueing the newly marked `w` at level `d + 1` keeps the queue layered. */
  lemma VisitLayered(m: seq<bool>, dist: seq<Option<int>>, queue: seq<int>, w: int, d: int)
    requires |m| == |dist| && 0 <= w < |m| && !m[w] && Layered(m, dist, queue, d)
    ensures Layered(m[w := true], dist[w := Some(d + 1)], queue + [w], d)
  {
    var m2, dist2, queue2 := m[w := true], dist[w := Some(d + 1)], queue + [w];
    assert w !in queue;
    assert forall x :: 0 <= x < |m| && x != w ==> Level(dist2, x) == Level(dist, x);
    forall k | 0 <= k < |queue2|
      ensures 0 <= queue2[k] < |m2| && m2[queue2[k]] && d <= Level(dist2, queue2[k]) <= d + 1
    {
      if k < |queue| {
        assert queue2[k] == queue[k];
      }
    }
    forall j, k | 0 <= j < k < |queue2| && 0 <= queue2[j] < |m2| && 0 <= queue2[k] < |m2|
      ensures Level(dist2, queue2[j]) <= Level(dist2, queue2[k])
    {
      assert queue2[j] == queue[j];
      if k < |queue| {
        assert queue2[k] == queue[k];
      }
    }
    forall x | 0 <= x < |m2| && m2[x] && x !in queue2
      ensures Level(dist2, x) <= d
    {
      assert x in queue2 || x !in queue;
    }
  }

  /** Once the neighbour `w == adj[v][i]` is marked one level beyond `v`, the first `i + 1` neighbours of `v` are explored. */
  lemma VisitExplored(adj: seq<seq<int>>, m: seq<bool>, dist: seq<Option<int>>, queue: seq<int>, v: int, i: int, w: int, d: int)
    requires |m| == |dist| == |adj| && 0 <= v < |m| && m[v] && 0 <= i < |adj[v]| && w == adj[v][i] && d == Level(dist, v)
    requires 0 <= w < |m| && !m[w] && Explored(adj, m, dist, queue, v, i)
    ensures Explored(adj, m[w := true], dist[w := Some(d + 1)], queue + [w], v, i + 1)
  {
    var m2, dist2, queue2 := m[w := true], dist[w := Some(d + 1)], queue + [w];
    assert forall x :: 0 <= x < |m| && x != w ==> Level(dist2, x) == Level(dist, x);
    forall u, k | 0 <= u < |m2| && m2[u] && u !in queue2 && u != v && 0 <= k < |adj[u]|
      ensures Near(m2, dist2, u, adj[u][k])
    {
      assert u != w && u !in queue;
      assert Near(m, dist, u, adj[u][k]);
    }
    forall k | 0 <= k < i + 1 && k < |adj[v]|
      ensures Near(m2, dist2, v, adj[v][k])
    {
      if k < i {
        assert Near(m, dist, v, adj[v][k]);
      }
    }
  }

  /** Once every neighbour of `v` is explored, `v` needs no special case. */
  lemma ExploredFinish(adj: seq<seq<int>>, m: seq<bool>, dist: seq<Option<int>>, queue: seq<int>, v: int)
    requires |m| == |dist| == |adj| && 0 <= v < |m| && Explored(adj, m, dist, queue, v, |adj[v]|)
    ensures Explored(adj, m, dist, queue, -1, 0)
  {
  }

  /** With exactly the sources marked, at distance 0, every invariant of the search holds with the sources queued. */
  lemma Seeded(adj: seq<seq<int>>, sources: seq<int>, m: seq<bool>, dist: seq<Option<int>>, edgeTo: seq<Option<int>>)
    requires |m| == |dist| == |edgeTo| == |adj| && forall s :: s in sources ==> 0 <= s < |adj|
    requires forall u :: 0 <= u < |adj| ==> (m[u] <==> u in sources) && (m[u] ==> dist[u] == Some(0)) && (!m[u] ==> dist[u] == None)
    ensures Labels(adj, sources, m, dist, edgeTo)
    ensures Layered(m, dist, sources, 0) && Explored(adj, m, dist, sources, -1, 0)
  {
    forall k | 0 <= k < |sources|
      ensures 0 <= sources[k] < |m| && m[sources[k]] && Level(dist, sources[k]) == 0
    {
      assert sources[k] in sources;
    }
  }

  /** A marked vertex not at distance 0 has its recorded edge from a marked neighbour one level nearer. */
  lemma ParentEdge(adj: seq<seq<int>>, sources: seq<int>, m: seq<bool>, dist: seq<Option<int>>, edgeTo: seq<Option<int>>, y: int)
    requires Labels(adj, sources, m, dist, edgeTo) && 0 <= y < |m| && m[y] && dist[y] != Some(0)
    ensures edgeTo[y].Some? && 0 <= edgeTo[y].value < |m| && m[edgeTo[y].value] && y in adj[edgeTo[y].value]
    ensures 0 <= Level(dist, edgeTo[y].value) == Level(dist, y) - 1
  {
    assert TreeEdge(adj, m, dist, edgeTo, y);
  }

  /** A marked vertex at distance 0 is a source. */
  lemma ZeroIsSource(adj: seq<seq<int>>, sources: seq<int>, m: seq<bool>, dist: seq<Option<int>>, edgeTo: seq<Option<int>>, y: int)
    requires Labels(adj, sources, m, dist, edgeTo) && 0 <= y < |m| && m[y] && dist[y] == Some(0)
    ensures y in sources
  {
    assert Level(dist, y) == 0;
  }

  /** A marked vertex is reached from a source along recorded edges, by a walk of one vertex more than its level. */
  lemma {:induction false} TreeReaches(adj: seq<seq<int>>, sources: seq<int>, m: seq<bool>, dist: seq<Option<int>>, edgeTo: seq<Option<int>>, u: int)
    requires WellFormed(adj) && Labels(adj, sources, m, dist, edgeTo) && 0 <= u < |m| && m[u]
    ensures exists p :: SourcePath(adj, sources, p) && p[|p| - 1] == u && |p| == Level(dist, u) + 1
    decreases Level(dist, u)
  {
    if Level(dist, u) == 0 {
      assert SourcePath(adj, sources, [u]);
    } else {
      var parent := edgeTo[u].value;
      TreeReaches(adj, sources, m, dist, edgeTo, parent);
      var p :| SourcePath(adj, sources, p) && p[|p| - 1] == parent && |p| == Level(dist, parent) + 1;
      assert SourcePath(adj, sources, p + [u]);
    }
  }

  /** When every edge leads at most one level on, a walk from a source ends at a marked vertex no deeper than the walk is long. */
  lemma {:induction false} NoShorterWalk(adj: seq<seq<int>>, sources: seq<int>, m: seq<bool>, dist: seq<Option<int>>, edgeTo: seq<Option<int>>, p: seq<int>)
    requires Labels(adj, sources, m, dist, edgeTo) && AllNear(adj, m, dist) && SourcePath(adj, sources, p)
    ensures m[p[|p| - 1]] && Level(dist, p[|p| - 1]) <= |p| - 1
    decreases |p|
  {
    if |p| > 1 {
      var q := p[..|p| - 1];
      assert SourcePath(adj, sources, q);
      NoShorterWalk(adj, sources, m, dist, edgeTo, q);
      var u := q[|q| - 1];
      var k :| 0 <= k < |adj[u]| && adj[u][k] == p[|p| - 1];
      assert Near(m, dist, u, adj[u][k]);
    }
  }

  class BreadthFirstPaths {
    /** `@marked`: which vertices the search has reached. */
    const marked: array<bool>
    /** `@distance_to`: the level of each reached vertex; `None` for `nil`. */
    const distTo: array<Option<int>>
    /** `@edge_to`: the vertex each vertex was first reached from; `None` for `nil`. */
    const edgeTo: array<Option<int>>
    /** The graph's bags when the search ran. */
    ghost const adj: seq<seq<int>>
    /** The source vertices. */
    const sources: seq<int>

    /** The search's result: the labels, with every edge of a marked vertex leading at most one level on. */
    ghost predicate Valid()
      reads this, marked, distTo, edgeTo
    {
      marked.Length == |adj| && WellFormed(adj) &&
      Labels(adj, sources, marked[..], distTo[..], edgeTo[..]) && AllNear(adj, marked[..], distTo[..])
    }

    /** `new(graph, sources)` for sources that are all vertices: searches from all of them at once. */
    constructor Search(graph: Graph, sources: seq<int>)
      requires graph.Valid() && forall s :: s in sources ==> 0 <= s < graph.v
      ensures Valid() && adj == graph.adj && this.sources == sources
    {
      adj := graph.adj;
      this.sources := sources;
      marked := new bool[graph.v](_ => false);
      distTo := new Option<int>[graph.v](_ => None);
      edgeTo := new Option<int>[graph.v](_ => None);
      new;
      Bfs(graph);
    }

    /**
     * `new(graph, sources)`: a source outside the graph fails with the
     * IndexError of `graph.adjacent`; otherwise the search from all sources.
     */
    static method New(graph: Graph, sources: seq<int>) returns (r: Result<BreadthFirstPaths>)
      requires graph.Valid()
      ensures (exists s :: s in sources && !(0 <= s < graph.v)) <==> r.Err?
      ensures r.Err? ==> r.error == IndexError
      ensures r.Ok? ==> fresh(r.value) && r.value.Valid() && r.value.adj == graph.adj && r.value.sources == sources
    {
      var i := 0;
      while i < |sources|
        invariant 0 <= i <= |sources| && forall j :: 0 <= j < i ==> 0 <= sources[j] < graph.v
      {
        var check := graph.Adjacent(sources[i]);
        if check.Err? {
          assert sources[i] in sources;
          return Err(check.error);
        }
        i := i + 1;
      }
      var search := new BreadthFirstPaths.Search(graph, sources);
      return Ok(search);
    }

    /** `new(graph, source)` with a single (non-Enumerable) source: the search from `[source]`. */
    static method NewSingle(graph: Graph, source: int) returns (r: Result<BreadthFirstPaths>)
      requires graph.Valid()
      ensures !(0 <= source < graph.v) <==> r.Err?
      ensures r.Err? ==> r.error == IndexError
      ensures r.Ok? ==> fresh(r.value) && r.value.Valid() && r.value.adj == graph.adj && r.value.sources == [source]
    {
      assert source in [source];
      r := New(graph, [source]);
    }

    /**
     * `bfs(graph, sources)`: marks every source at distance 0 and queues
     * it; then, until the queue is empty, takes the front vertex `v` and
     * marks each unmarked neighbour one level beyond `v`, records `v` as its
     * edge and queues it.
     */
    method Bfs(graph: Graph)
      requires graph.Valid() && graph.adj == adj && marked.Length == distTo.Length == edgeTo.Length == |adj| && distTo != edgeTo
      requires forall s :: s in sources ==> 0 <= s < |adj|
      requires forall u :: 0 <= u < |adj| ==> !marked[u] && distTo[u] == None
      modifies marked, distTo, edgeTo
      ensures Valid()
    {
      var queue: seq<int> := [];
      var i := 0;
      while i < |sources|
        invariant 0 <= i <= |sources| && queue == sources[..i]
        invariant forall u :: 0 <= u < |adj| ==> (marked[u] <==> u in queue) && (marked[u] ==> distTo[u] == Some(0)) && (!marked[u] ==> distTo[u] == None)
      {
        var s := sources[i];
        assert s in sources;
        distTo[s] := Some(0);
        marked[s] := true;
        queue := queue + [s];
        assert sources[..i + 1] == sources[..i] + [s];
        i := i + 1;
      }
      assert sources[..i] == sources;
      Seeded(adj, sources, marked[..], distTo[..], edgeTo[..]);
      ghost var d := 0;
      while |queue| > 0
        invariant Labels(adj, sources, marked[..], distTo[..], edgeTo[..])
        invariant Layered(marked[..], distTo[..], queue, d) && Explored(adj, marked[..], distTo[..], queue, -1, 0)
        decreases |UnmarkedOf(marked[..])| + |queue|
      {
        ghost var measure := |UnmarkedOf(marked[..])| + |queue|;
        var v := queue[0];
        Dequeue(adj, marked[..], distTo[..], queue, d);
        d := Level(distTo[..], v);
        queue := queue[1..];
        queue := Scan(graph, v, queue, d);
        ExploredFinish(adj, marked[..], distTo[..], queue, v);
      }
    }

    /**
     * The loop over the neighbours of `v` in `bfs`: each unmarked neighbour
     * is marked one level beyond `v`, gets `v` as its edge and is queued.
     */
    method Scan(graph: Graph, v: int, queue0: seq<int>, ghost d: int) returns (queue: seq<int>)
      requires graph.Valid() && graph.adj == adj && marked.Length == distTo.Length == edgeTo.Length == |adj| && distTo != edgeTo
      requires Labels(adj, sources, marked[..], distTo[..], edgeTo[..]) && 0 <= v < |adj| && marked[v] && Level(distTo[..], v) == d
      requires Layered(marked[..], distTo[..], queue0, d) && Explored(adj, marked[..], distTo[..], queue0, v, 0)
      modifies marked, distTo, edgeTo
      ensures Labels(adj, sources, marked[..], distTo[..], edgeTo[..])
      ensures Layered(marked[..], distTo[..], queue, d) && Explored(adj, marked[..], distTo[..], queue, v, |adj[v]|)
      ensures |UnmarkedOf(marked[..])| + |queue| == old(|UnmarkedOf(marked[..])|) + |queue0|
    {
      queue := queue0;
      var neighbours := graph.Adjacent(v).value;
      var j := 0;
      while j < |neighbours|
        invariant 0 <= j <= |neighbours| && marked[v] && Level(distTo[..], v) == d
        invariant Labels(adj, sources, marked[..], distTo[..], edgeTo[..])
        invariant Layered(marked[..], distTo[..], queue, d) && Explored(adj, marked[..], distTo[..], queue, v, j)
        invariant |UnmarkedOf(marked[..])| + |queue| == old(|UnmarkedOf(marked[..])|) + |queue0|
      {
        var w := neighbours[j];
        if marked[w] {
          SkipMarked(adj, marked[..], distTo[..], queue, v, j);
        } else {
          queue := Visit(v, j, w, queue, d);
        }
        j := j + 1;
      }
    }

    /** One unmarked neighbour `w == adj[v][j]` in `bfs`: marked one level beyond `v`, with `v` as its edge, and queued. */
    method Visit(v: int, j: int, w: int, queue0: seq<int>, ghost d: int) returns (queue: seq<int>)
      requires WellFormed(adj) && marked.Length == distTo.Length == edgeTo.Length == |adj| && distTo != edgeTo
      requires Labels(adj, sources, marked[..], distTo[..], edgeTo[..]) && 0 <= v < |adj| && marked[v] && Level(distTo[..], v) == d
      requires 0 <= j < |adj[v]| && w == adj[v][j] && !marked[w]
      requires Layered(marked[..], distTo[..], queue0, d) && Explored(adj, marked[..], distTo[..], queue0, v, j)
      modifies marked, distTo, edgeTo
      ensures marked[v] && Level(distTo[..], v) == d && Labels(adj, sources, marked[..], distTo[..], edgeTo[..])
      ensures Layered(marked[..], distTo[..], queue, d) && Explored(adj, marked[..], distTo[..], queue, v, j + 1)
      ensures |UnmarkedOf(marked[..])| + |queue| == old(|UnmarkedOf(marked[..])|) + |queue0|
    {
      ghost var m, dist, links := marked[..], distTo[..], edgeTo[..];
      VisitUnmarked(adj, sources, m, dist, links, queue0, v, j);
      MarkOne(m, w);
      edgeTo[w] := Some(v);
      distTo[w] := Some(distTo[v].value + 1);
      marked[w] := true;
      queue := queue0 + [w];
      assert marked[..] == m[w := true] && edgeTo[..] == links[w := Some(v)];
      assert distTo[..] == dist[w := Some(Level(dist, v) + 1)];
    }

    /** `marked?(x)` / `has_path_to?(x)`: `nil` past the last vertex, otherwise whether a source reaches `x`. */
    function HasPathTo(x: nat): (r: Option<bool>)
      reads this, marked, distTo, edgeTo
      requires Valid()
      ensures x >= |adj| <==> r == None
      ensures r.Some? ==> (r.value <==> ReachedFrom(adj, sources, x))
    {
      if x < marked.Length then
        DistanceIsShortest(x);
        Some(marked[x])
      else None
    }

    /**
     * `distance_to(x)`: `nil` past the last vertex and for a vertex no
     * source reaches; otherwise the number of edges of a shortest walk to it
     * from any source.
     */
    function DistanceTo(x: nat): (r: Option<int>)
      reads this, marked, distTo, edgeTo
      requires Valid()
      ensures x >= |adj| ==> r == None
      ensures x < |adj| ==> (r.Some? <==> ReachedFrom(adj, sources, x))
      ensures r.Some? ==> IsShortest(adj, sources, x, r.value)
    {
      if x < distTo.Length then
        DistanceIsShortest(x);
        distTo[x]
      else None
    }

    /** In the finished search, marks are reachability and levels are shortest distances. */
    lemma DistanceIsShortest(x: int)
      requires Valid() && 0 <= x < |adj|
      ensures marked[x] <==> ReachedFrom(adj, sources, x)
      ensures marked[x] ==> distTo[x] == Some(Level(distTo[..], x)) && IsShortest(adj, sources, x, Level(distTo[..], x))
    {
      if marked[x] {
        TreeReaches(adj, sources, marked[..], distTo[..], edgeTo[..], x);
        forall p | SourcePath(adj, sources, p) && p[|p| - 1] == x
          ensures |p| >= Level(distTo[..], x) + 1
        {
          NoShorterWalk(adj, sources, marked[..], distTo[..], edgeTo[..], p);
        }
      } else if ReachedFrom(adj, sources, x) {
        var p :| SourcePath(adj, sources, p) && p[|p| - 1] == x;
        NoShorterWalk(adj, sources, marked[..], distTo[..], edgeTo[..], p);
      }
    }

    /**
     * `path_to(x)`: `nil` unless a source reaches `x`; otherwise a shortest
     * walk from a source to `x`, found by following the recorded edges back
     * from `x` to a vertex at distance 0 and pushing each onto a stack.
     */
    method PathTo(x: nat) returns (r: Option<seq<int>>)
      requires Valid()
      ensures r.None? <==> !(x < |adj| && ReachedFrom(adj, sources, x))
      ensures r.Some? ==> SourcePath(adj, sources, r.value) && r.value[|r.value| - 1] == x
      ensures r.Some? ==> IsShortest(adj, sources, x, |r.value| - 1)
    {
      var has := HasPathTo(x);
      if has != Some(true) {
        return None;
      }
      DistanceIsShortest(x);
      var path: seq<int> := [];
      var y := x;
      while distTo[y] != Some(0)
        invariant 0 <= y < |adj| && marked[y]
        invariant IsPath(adj, [y] + path) && ([y] + path)[|path|] == x
        invariant |path| + Level(distTo[..], y) == Level(distTo[..], x)
        decreases Level(distTo[..], y)
      {
        ParentEdge(adj, sources, marked[..], distTo[..], edgeTo[..], y);
        var previous := edgeTo[y].value;
        PrependStep(adj, previous, [y] + path);
        path := [y] + path;
        y := previous;
      }
      ZeroIsSource(adj, sources, marked[..], distTo[..], edgeTo[..], y);
      path := [y] + path;
      return Some(path);
    }
  }
}
