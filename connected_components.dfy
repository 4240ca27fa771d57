/**
 * The connected components of an undirected graph, found by a recursive
 * depth-first search from every vertex not yet reached, scanning the
 * vertices in index order (graphs/connected_components.rb). Components get
 * the ids `0...count` in the order they are discovered.
 */
module ConnectedComponentsModel {
  import opened Errors
  import opened Graphs

  /** The marked vertices labelled `c`. */
  ghost function Members(m: seq<bool>, ids: seq<int>, c: int): set<int>
    requires |m| == |ids|
  {
    set u | 0 <= u < |m| && m[u] && ids[u] == c
  }

  /** The marked vertices labelled in `0...k`. */
  ghost function MembersBelow(m: seq<bool>, ids: seq<int>, k: int): set<int>
    requires |m| == |ids|
  {
    set u | 0 <= u < |m| && m[u] && 0 <= ids[u] < k
  }

  /** Every marked vertex has an id below `count`, and two marked vertices share an id exactly when they are connected. */
  ghost predicate Labelled(adj: seq<seq<int>>, m: seq<bool>, ids: seq<int>, count: int)
  {
    |m| == |ids| == |adj| &&
    (forall u :: 0 <= u < |m| && m[u] ==> 0 <= ids[u] < count) &&
    (forall u, w :: 0 <= u < |m| && m[u] && 0 <= w < |m| && m[w] ==> (ids[u] == ids[w] <==> Reachable(adj, u, w)))
  }

  /**
   * `firsts[c]` is the vertex at which component `c` was discovered: it is
   * labelled `c`, no vertex labelled `c` comes before it, and the firsts
   * increase with the id.
   */
  ghost predicate Discovered(m: seq<bool>, ids: seq<int>, firsts: seq<int>, count: int)
  {
    |m| == |ids| && |firsts| == count &&
    (forall c :: 0 <= c < count ==> 0 <= firsts[c] < |m| && m[firsts[c]] && ids[firsts[c]] == c) &&
    (forall c, d :: 0 <= c < d < count ==> firsts[c] < firsts[d]) &&
    (forall u :: 0 <= u < |m| && m[u] ==> 0 <= ids[u] < count && firsts[ids[u]] <= u)
  }

  /** `sizes[c]` is the number of marked vertices labelled `c`. */
  ghost predicate Counted(m: seq<bool>, ids: seq<int>, sizes: seq<nat>)
  {
    |m| == |ids| == |sizes| && forall c :: 0 <= c < |sizes| ==> sizes[c] == |Members(m, ids, c)|
  }

  /**
   * From `before` to `after` the old marks keep their ids, and every new
   * mark has the id `c` and is reachable from `root`.
   */
  ghost predicate NewlyLabelled(adj: seq<seq<int>>, root: int, before: seq<bool>, after: seq<bool>, ids0: seq<int>, ids: seq<int>, c: int)
  {
    |before| == |after| == |ids0| == |ids| &&
    (forall u :: 0 <= u < |after| && before[u] ==> ids[u] == ids0[u]) &&
    (forall u :: 0 <= u < |after| && after[u] && !before[u] ==> ids[u] == c && Reachable(adj, root, u))
  }

  /** The sum of a sequence of sizes. */
  function Sum(s: seq<nat>): nat
  {
    if s == [] then 0 else Sum(s[..|s| - 1]) + s[|s| - 1]
  }

  /** No smaller vertex is connected to `u`: `u` is the least vertex of its component. */
  ghost predicate IsLeader(adj: seq<seq<int>>, u: int)
  {
    forall x :: 0 <= x < u ==> !Reachable(adj, x, u)
  }

  /** The least vertex of each component. */
  ghost function Leaders(adj: seq<seq<int>>): set<int>
  {
    set u | 0 <= u < |adj| && IsLeader(adj, u)
  }

  /** Marking `v` with the id `c` adds it to the members of `c` and to no other id. */
  lemma MarkMember(m: seq<bool>, ids: seq<int>, sizes: seq<nat>, v: int, c: int)
    requires Counted(m, ids, sizes) && 0 <= v < |m| && !m[v] && 0 <= c < |sizes|
    ensures Counted(m[v := true], ids[v := c], sizes[c := sizes[c] + 1])
  {
    var m2, ids2, sizes2 := m[v := true], ids[v := c], sizes[c := sizes[c] + 1];
    forall d | 0 <= d < |sizes2|
      ensures sizes2[d] == |Members(m2, ids2, d)|
    {
      if d == c {
        assert Members(m2, ids2, d) == Members(m, ids, d) + {v};
      } else {
        assert Members(m2, ids2, d) == Members(m, ids, d);
      }
    }
  }

  /** A set of vertices closed under adjacency stays closed when the vertices added are closed beyond it. */
  lemma ClosedGrows(adj: seq<seq<int>>, before: seq<bool>, after: seq<bool>)
    requires Closed(adj, before) && ClosedOutside(adj, before, after) && Grows(before, after)
    ensures Closed(adj, after)
  {
  }

  /**
   * The vertices a search from the unmarked `w` newly marks form one new
   * component: labelling them `c` keeps "same id iff connected".
   */
  lemma NewComponent(adj: seq<seq<int>>, before: seq<bool>, after: seq<bool>, ids0: seq<int>, ids: seq<int>, w: int, c: int)
    requires WellFormed(adj) && Symmetric(adj) && Closed(adj, before) && Labelled(adj, before, ids0, c) && c >= 0
    requires Grows(before, after) && NewlyLabelled(adj, w, before, after, ids0, ids, c)
    ensures Labelled(adj, after, ids, c + 1)
  {
    forall u | 0 <= u < |after| && after[u]
      ensures 0 <= ids[u] < c + 1
    {
      if before[u] {
        assert ids[u] == ids0[u];
      } else {
        assert ids[u] == c;
      }
    }
    forall u, x | 0 <= u < |after| && after[u] && 0 <= x < |after| && after[x]
      ensures ids[u] == ids[x] <==> Reachable(adj, u, x)
    {
      if !before[u] && !before[x] {
        ReachableSymmetric(adj, w, u);
        ReachableTransitive(adj, u, w, x);
      } else if before[u] && !before[x] {
        if Reachable(adj, u, x) {
          ClosedHoldsReachable(adj, before, u, x);
        }
      } else if !before[u] && before[x] {
        if Reachable(adj, u, x) {
          ReachableSymmetric(adj, u, x);
          ClosedHoldsReachable(adj, before, x, u);
        }
      }
    }
  }

  /** The new component's first vertex is `w`, which comes after every earlier first and before every vertex of the new component. */
  lemma NewFirst(m: seq<bool>, after: seq<bool>, ids0: seq<int>, ids: seq<int>, firsts: seq<int>, adj: seq<seq<int>>, w: int, c: int)
    requires Discovered(m, ids0, firsts, c) && Grows(m, after) && NewlyLabelled(adj, w, m, after, ids0, ids, c)
    requires 0 <= w < |m| && after[w] && !m[w] && forall x :: 0 <= x < w ==> m[x]
    requires forall d :: 0 <= d < c ==> firsts[d] < w
    ensures Discovered(after, ids, firsts + [w], c + 1)
  {
    var f := firsts + [w];
    forall u | 0 <= u < |after| && after[u]
      ensures 0 <= ids[u] < c + 1 && f[ids[u]] <= u
    {
      if !m[u] {
        assert u >= w;
      }
    }
  }

  /** The marked vertices labelled in `0...k` number the sizes of those ids together. */
  lemma {:induction false} MembersSum(m: seq<bool>, ids: seq<int>, sizes: seq<nat>, k: nat)
    requires Counted(m, ids, sizes) && k <= |sizes|
    ensures |MembersBelow(m, ids, k)| == Sum(sizes[..k])
  {
    if k > 0 {
      MembersSum(m, ids, sizes, k - 1);
      var below, at := MembersBelow(m, ids, k - 1), Members(m, ids, k - 1);
      assert MembersBelow(m, ids, k) == below + at;
      assert below !! at;
      assert sizes[..k][..k - 1] == sizes[..k - 1];
    } else {
      assert MembersBelow(m, ids, 0) == {};
    }
  }

  /** The sizes of the components, summed over the ids in use, count every vertex. */
  lemma SizesCountVertices(adj: seq<seq<int>>, m: seq<bool>, ids: seq<int>, sizes: seq<nat>, count: nat)
    requires Labelled(adj, m, ids, count) && Counted(m, ids, sizes) && count <= |sizes|
    requires forall u :: 0 <= u < |m| ==> m[u]
    ensures Sum(sizes[..count]) == |m|
  {
    MembersSum(m, ids, sizes, count);
    assert MembersBelow(m, ids, count) == MarkedOf(m);
    AllMarkedCard(m);
  }

  /** With every vertex marked, the marked set has one element per vertex. */
  lemma {:induction false} AllMarkedCard(m: seq<bool>)
    requires forall u :: 0 <= u < |m| ==> m[u]
    ensures |MarkedOf(m)| == |m|
  {
    if |m| > 0 {
      var t := m[..|m| - 1];
      AllMarkedCard(t);
      assert MarkedOf(m) == MarkedOf(t) + {|m| - 1};
    }
  }

  /** A strictly increasing sequence has as many distinct entries as it is long. */
  lemma {:induction false} IncreasingCard(s: seq<int>)
    requires forall i, j :: 0 <= i < j < |s| ==> s[i] < s[j]
    ensures |set i | 0 <= i < |s| :: s[i]| == |s|
  {
    if |s| > 0 {
      var t := s[..|s| - 1];
      IncreasingCard(t);
      assert (set i | 0 <= i < |s| :: s[i]) == (set i | 0 <= i < |t| :: t[i]) + {s[|s| - 1]};
      assert s[|s| - 1] !in (set i | 0 <= i < |t| :: t[i]);
    }
  }

  /** A strictly increasing sequence over `0...n` that takes every value in `0...n` is the identity. */
  lemma {:induction false} IncreasingOntoIsIdentity(s: seq<int>, n: nat, k: nat)
    requires forall i, j :: 0 <= i < j < |s| ==> s[i] < s[j]
    requires forall i :: 0 <= i < |s| ==> 0 <= s[i] < n
    requires forall x :: 0 <= x < n ==> x in s
    requires k < |s|
    ensures s[k] == k
  {
    if k > 0 {
      IncreasingOntoIsIdentity(s, n, k - 1);
    }
    assert s[k] >= k;
    if s[k] > k {
      assert k < n && k in s;
      var i :| 0 <= i < |s| && s[i] == k;
      if i < k {
        IncreasingOntoIsIdentity(s, n, i);
      }
    }
  }

  /** Without edges a vertex reaches only itself. */
  lemma EdgelessReachesOnlyItself(adj: seq<seq<int>>, u: int, w: int)
    requires (forall x :: 0 <= x < |adj| ==> adj[x] == []) && 0 <= u < |adj| && Reachable(adj, u, w)
    ensures u == w
  {
    var alone := seq(|adj|, x => x == u);
    assert Closed(adj, alone);
    ClosedHoldsReachable(adj, alone, u, w);
  }

  /**
   * The scan of all vertices has reached `w`: the vertices before `w` are
   * marked, the marks are closed under adjacency and split into the
   * components `0...count`, discovered at increasing vertices before `w`.
   */
  ghost predicate Scanned(adj: seq<seq<int>>, m: seq<bool>, ids: seq<int>, sizes: seq<nat>, firsts: seq<int>, count: int, w: int)
  {
    |m| == |ids| == |sizes| == |adj| && WellFormed(adj) && Symmetric(adj) &&
    0 <= w <= |adj| && 0 <= count <= w &&
    (forall x :: 0 <= x < w ==> m[x]) && Closed(adj, m) &&
    Labelled(adj, m, ids, count) && Discovered(m, ids, firsts, count) &&
    (forall d :: 0 <= d < count ==> firsts[d] < w) &&
    Counted(m, ids, sizes)
  }

  /**
   * A search from the first unmarked vertex `w` that marks a closed set of
   * new vertices, all reachable from `w` and all labelled `count`, adds one
   * component discovered at `w`, and the scan moves past `w`.
   */
  lemma ScanStep(adj: seq<seq<int>>, before: seq<bool>, after: seq<bool>, ids0: seq<int>, ids: seq<int>, sizes0: seq<nat>, sizes: seq<nat>, firsts: seq<int>, count: int, w: int)
    requires Scanned(adj, before, ids0, sizes0, firsts, count, w) && w < |adj| && !before[w]
    requires Grows(before, after) && after[w] && ClosedOutside(adj, before, after)
    requires NewlyLabelled(adj, w, before, after, ids0, ids, count) && Counted(after, ids, sizes)
    ensures Scanned(adj, after, ids, sizes, firsts + [w], count + 1, w + 1)
  {
    ClosedGrows(adj, before, after);
    NewComponent(adj, before, after, ids0, ids, w, count);
    NewFirst(before, after, ids0, ids, firsts, adj, w, count);
  }

  class ConnectedComponents {
    /** `count`: the number of components. */
    var count: nat
    /** `@marked`: which vertices the searches have reached. */
    const marked: array<bool>
    /** `@id`: the component id of each vertex. */
    const id: array<int>
    /** `@size`: the number of vertices of each component id. */
    const size: array<nat>
    /** The graph's bags when the components were computed. */
    ghost const adj: seq<seq<int>>
    /** The vertex at which each component was discovered. */
    ghost var firsts: seq<int>

    /**
     * The result: every vertex is marked; same id iff connected; ids are
     * `0...count` in discovery order; each size counts its component.
     */
    ghost predicate Valid()
      reads this, marked, id, size
    {
      marked.Length == |adj| && WellFormed(adj) && Symmetric(adj) && count <= |adj| &&
      (forall u :: 0 <= u < |adj| ==> marked[u]) &&
      Labelled(adj, marked[..], id[..], count) && Discovered(marked[..], id[..], firsts, count) &&
      Counted(marked[..], id[..], size[..])
    }

    /**
     * The state of the scan in `new(graph)` before vertex `w`: the vertices
     * before `w` are marked, the marks are closed under adjacency and split
     * into the components `0...count`, discovered at increasing vertices.
     */
    ghost predicate ScannedUpTo(w: int)
      reads this, marked, id, size
    {
      Scanned(adj, marked[..], id[..], size[..], firsts, count, w)
    }

    /**
     * `new(graph)`: for each vertex `w` in index order that is not yet
     * marked, searches from `w` with the id `count`, then increments `count`.
     */
    constructor (graph: Graph)
      requires graph.Valid()
      ensures Valid() && adj == graph.adj
    {
      adj := graph.adj;
      count := 0;
      marked := new bool[graph.v](_ => false);
      id := new int[graph.v](_ => 0);
      size := new nat[graph.v](_ => 0);
      firsts := [];
      new;
      forall c | 0 <= c < size.Length
        ensures Members(marked[..], id[..], c) == {}
      {
      }
      var w := 0;
      while w < graph.v
        invariant ScannedUpTo(w)
      {
        if !marked[w] {
          Discover(graph, w);
        }
        w := w + 1;
      }
    }

    /** One step of the scan in `new(graph)`: the search from the unmarked `w` marks a new component, and `count` goes up by 1. */
    method Discover(graph: Graph, w: int)
      requires graph.Valid() && graph.adj == adj && ScannedUpTo(w) && w < |adj| && !marked[w]
      modifies this, marked, id, size
      ensures ScannedUpTo(w + 1) && count == old(count) + 1
    {
      ghost var before, ids0, sizes0 := marked[..], id[..], size[..];
      ReachableSelf(adj, w);
      Dfs(graph, w, w);
      ScanStep(adj, before, marked[..], ids0, id[..], sizes0, size[..], firsts, count, w);
      firsts := firsts + [w];
      count := count + 1;
    }

    /**
     * `dfs(graph, v)`: marks `v`, gives it the id `count`, adds 1 to the
     * size of `count`, and searches from every neighbour not yet marked.
     * Every newly marked vertex gets the id `count`, is reachable from
     * `root`, and has all its neighbours marked; old marks keep their ids.
     */
    method Dfs(graph: Graph, v: int, ghost root: int)
      requires graph.Valid() && graph.adj == adj && marked.Length == id.Length == size.Length == |adj|
      requires 0 <= v < |adj| && !marked[v] && Reachable(adj, root, v) && count < |adj|
      requires Counted(marked[..], id[..], size[..])
      modifies marked, id, size
      ensures Grows(old(marked[..]), marked[..]) && marked[v]
      ensures ClosedOutside(adj, old(marked[..]), marked[..])
      ensures NewlyLabelled(adj, root, old(marked[..]), marked[..], old(id[..]), id[..], count)
      ensures Counted(marked[..], id[..], size[..])
      decreases UnmarkedOf(marked[..])
    {
      MarkOne(marked[..], v);
      MarkMember(marked[..], id[..], size[..], v, count);
      marked[v] := true;
      id[v] := count;
      size[count] := size[count] + 1;
      ghost var entered, idsEntered := marked[..], id[..];
      assert entered == old(marked[..])[v := true];
      var neighbours := graph.Adjacent(v).value;
      var i := 0;
      while i < |neighbours|
        invariant 0 <= i <= |neighbours|
        invariant Grows(entered, marked[..])
        invariant MarkedUpTo(marked[..], neighbours, i)
        invariant ClosedOutside(adj, entered, marked[..])
        invariant NewlyLabelled(adj, root, entered, marked[..], idsEntered, id[..], count)
        invariant Counted(marked[..], id[..], size[..])
      {
        var w := neighbours[i];
        ghost var before, ids0 := marked[..], id[..];
        if !marked[w] {
          GrowsShrinks(old(marked[..]), marked[..], v);
          ReachableStep(adj, root, v, w);
          Dfs(graph, w, root);
          ClosedOutsideTransitive(adj, entered, before, marked[..]);
        }
        MarkedUpToGrows(before, marked[..], neighbours, i);
        i := i + 1;
      }
      ClosedOutsideFinish(adj, old(marked[..]), v, marked[..]);
    }

    /** `id(x)`: `nil` for a non-vertex; otherwise an id below `count` that `x` shares exactly with the vertices it is connected to. */
    function Id(x: int): (r: Option<int>)
      reads this, marked, id, size
      requires Valid()
      ensures r.None? <==> !(0 <= x < |adj|)
      ensures r.Some? ==> 0 <= r.value < count && r.value == id[x]
      ensures r.Some? ==> forall y :: 0 <= y < |adj| ==> (id[y] == r.value <==> Reachable(adj, x, y))
    {
      if x < 0 || id.Length <= x then None else Some(id[x])
    }

    /** `size(x)`: `nil` for a non-vertex; otherwise the number of vertices connected to `x`, `x` included. */
    function Size(x: int): (r: Option<nat>)
      reads this, marked, id, size
      requires Valid()
      ensures r.None? <==> !(0 <= x < |adj|)
      ensures r.Some? ==> r.value == |ReachableFrom(adj, x)| && r.value >= 1
    {
      if x < 0 || size.Length <= x then None
      else
        assert Members(marked[..], id[..], id[x]) == ReachableFrom(adj, x);
        assert x in ReachableFrom(adj, x);
        Some(size[id[x]])
    }

    /** `connected?(x, y)`: false when either is not a vertex, even if `x == y`; otherwise whether they are connected. */
    function Connected(x: int, y: int): (b: bool)
      reads this, marked, id, size
      requires Valid()
      ensures b <==> 0 <= x < |adj| && 0 <= y < |adj| && Reachable(adj, x, y)
    {
      if x < 0 || id.Length <= x then false
      else if y < 0 || id.Length <= y then false
      else id[x] == id[y]
    }

    /** The sizes of the ids `0...count` add up to the number of vertices. */
    lemma SizesSum()
      requires Valid()
      ensures Sum(size[..count]) == |adj|
    {
      SizesCountVertices(adj, marked[..], id[..], size[..], count);
    }

    /** The component ids are the discovery order: the first vertex of id `c` is `firsts[c]`, and those firsts are exactly the leaders, so `count` is the number of components. */
    lemma CountIsComponents()
      requires Valid()
      ensures (set c | 0 <= c < count :: firsts[c]) == Leaders(adj)
      ensures count == |Leaders(adj)|
      ensures forall u :: 0 <= u < |adj| ==> firsts[id[u]] <= u
    {
      forall c | 0 <= c < count
        ensures firsts[c] in Leaders(adj)
      {
        forall x | 0 <= x < firsts[c]
          ensures !Reachable(adj, x, firsts[c])
        {
        }
      }
      forall u | u in Leaders(adj)
        ensures exists c :: 0 <= c < count && firsts[c] == u
      {
        var f := firsts[id[u]];
        assert id[f] == id[u] && Reachable(adj, f, u);
      }
      IncreasingCard(firsts);
    }

    /** With no edges every vertex is its own component, so the ids are the vertices themselves and `count` is the number of vertices. */
    lemma EdgelessIds()
      requires Valid() && forall u :: 0 <= u < |adj| ==> adj[u] == []
      ensures count == |adj|
      ensures forall u :: 0 <= u < |adj| ==> id[u] == u
    {
      forall x | 0 <= x < |adj|
        ensures x in firsts && firsts[id[x]] == x
      {
        var f := firsts[id[x]];
        assert Reachable(adj, f, x);
        EdgelessReachesOnlyItself(adj, f, x);
      }
      forall c | 0 <= c < count
        ensures firsts[c] == c
      {
        IncreasingOntoIsIdentity(firsts, |adj|, c);
      }
      assert |adj| > 0 ==> |adj| - 1 in firsts;
    }

    /** When some vertex reaches every vertex, there is a single component, with id 0. */
    lemma ConnectedGraphOneComponent(s: int)
      requires Valid() && 0 <= s < |adj| && forall u :: 0 <= u < |adj| ==> Reachable(adj, s, u)
      ensures count == 1
      ensures forall u :: 0 <= u < |adj| ==> id[u] == 0
    {
      forall u | 0 <= u < |adj|
        ensures id[u] == id[s]
      {
      }
      assert 0 <= id[s] < count;
      assert id[firsts[0]] == 0 && id[firsts[count - 1]] == count - 1;
    }
  }
}
