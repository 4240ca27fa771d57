/**
 * Two-colouring an undirected multigraph by breadth-first search
 * (graphs/bipartite_bfs.rb): each vertex reached from `v` gets the colour
 * opposite to `v`'s, and the first edge found between two marked vertices
 * of the same colour ends the search. The two vertices are then at the
 * same distance from the root, and walking their tree edges upwards in
 * lockstep meets at a common ancestor, giving an odd cycle.
 *
 * The queue `odd_cycle` lists the `w` side of the cycle from `w` up, then
 * the ancestor, then the `v` side down to `v`, and then one more entry.
 * The Ruby code enqueues, as that last entry, the variable `w` after the
 * walk has moved it to the ancestor; returning to the first vertex, which
 * closes the walk as the algorithm it is based on does, is what is
 * evidently intended. `SetCycleAsWritten` models the former, which the
 * class uses as the code does, `SetCycle` the latter.
 */
module BipartiteBreadthFirst {
  import opened Errors
  import opened Graphs
  import DepthFirst = BipartiteDepthFirst
  import Cycles

  /** `c` lists an odd cycle and then returns to its first vertex. */
  ghost predicate ClosedOddWalk(adj: seq<seq<int>>, c: seq<int>)
  {
    |c| >= 2 && IsOddCycle(adj, c[..|c| - 1]) && c[|c| - 1] == c[0]
  }

  /**
   * `c` lists an odd cycle and then repeats its middle vertex: the shape of
   * the queue `set_cycle` builds, whose last entry is the common ancestor.
   */
  ghost predicate OddCycleThenAncestor(adj: seq<seq<int>>, c: seq<int>)
  {
    |c| >= 2 && IsOddCycle(adj, c[..|c| - 1]) && c[|c| - 1] == c[(|c| - 2) / 2]
  }

  /**
   * The queue as written closes on its first vertex only for a self-loop:
   * for any longer odd cycle the repeated middle vertex is another vertex.
   */
  lemma {:induction false} AncestorClosesOnlySelfLoop(adj: seq<seq<int>>, c: seq<int>)
    requires OddCycleThenAncestor(adj, c)
    ensures c[|c| - 1] == c[0] <==> |c| == 2
  {
    var p := c[..|c| - 1];
    if |c| > 2 {
      var mid := (|c| - 2) / 2;
      assert 0 < mid < |p| && p[mid] == c[mid] && p[0] == c[0];
    }
  }

  // The search from the root `s`, described over snapshots of its arrays:
  // the marks `mIn` before it started and `m` now, the tree parents `et`
  // (`@edge_to`), a ghost distance `d` from the root, and the colours `col`
  // (`@color`). A vertex is new when it is marked in `m` but not in `mIn`.

  /**
   * The new vertices form a tree at `s`: `s` is the only one at distance 0,
   * and every other one was reached from a new neighbour one step nearer.
   */
  ghost predicate Tree(adj: seq<seq<int>>, mIn: seq<bool>, m: seq<bool>, et: seq<int>, d: seq<nat>, s: int)
  {
    |mIn| == |adj| && |m| == |adj| && |et| == |adj| && |d| == |adj| && 0 <= s < |adj| &&
    forall x :: 0 <= x < |adj| && m[x] && !mIn[x] ==>
      (d[x] == 0 ==> x == s) &&
      (d[x] > 0 ==> 0 <= et[x] < |adj| && m[et[x]] && !mIn[et[x]] && d[et[x]] == d[x] - 1 && x in adj[et[x]])
  }

  /** A new vertex has the root's colour exactly when its distance is even. */
  ghost predicate Parity(adj: seq<seq<int>>, mIn: seq<bool>, m: seq<bool>, d: seq<nat>, col: seq<bool>, s: int)
  {
    |mIn| == |adj| && |m| == |adj| && |d| == |adj| && |col| == |adj| && 0 <= s < |adj| &&
    forall x :: 0 <= x < |adj| && m[x] && !mIn[x] ==> col[x] == (col[s] == (d[x] % 2 == 0))
  }

  /** The queue holds new vertices at distance `dc` or `dc + 1`, nearer ones first. */
  ghost predicate Layered(adj: seq<seq<int>>, mIn: seq<bool>, m: seq<bool>, d: seq<nat>, queue: seq<int>, dc: int)
    requires |mIn| == |adj| && |m| == |adj| && |d| == |adj|
  {
    (forall k :: 0 <= k < |queue| ==> 0 <= queue[k] < |adj| && m[queue[k]] && !mIn[queue[k]] && dc <= d[queue[k]] <= dc + 1) &&
    (forall j, k :: 0 <= j < k < |queue| && 0 <= queue[j] < |adj| && 0 <= queue[k] < |adj| ==> d[queue[j]] <= d[queue[k]])
  }

  /** Every marked vertex other than `v` and those queued has every neighbour marked and coloured unlike it. */
  ghost predicate SettledOff(adj: seq<seq<int>>, m: seq<bool>, col: seq<bool>, queue: seq<int>, v: int)
    requires |m| == |adj| && |col| == |adj|
  {
    forall x :: 0 <= x < |adj| && m[x] && x !in queue && x != v ==> DepthFirst.Finished(adj, m, col, x)
  }

  /** The root is new, marked and at distance 0; marks only grew. */
  ghost predicate Rooted(adj: seq<seq<int>>, mIn: seq<bool>, m: seq<bool>, et: seq<int>, d: seq<nat>, col: seq<bool>, s: int)
  {
    Tree(adj, mIn, m, et, d, s) && Parity(adj, mIn, m, d, col, s) && Grows(mIn, m) && m[s] && !mIn[s] && d[s] == 0
  }

  /** The state of `bfs(graph, s)` between two vertices taken off the queue, the last at distance `dc`. */
  ghost predicate Queued(adj: seq<seq<int>>, mIn: seq<bool>, m: seq<bool>, et: seq<int>, d: seq<nat>, col: seq<bool>, s: int, queue: seq<int>, dc: int)
  {
    Rooted(adj, mIn, m, et, d, col, s) &&
    Layered(adj, mIn, m, d, queue, dc) && SettledOff(adj, m, col, queue, -1)
  }

  /** The state of `bfs(graph, s)` after the first `i` neighbours of `v`, taken off the queue at distance `dc`. */
  ghost predicate Scanning(adj: seq<seq<int>>, mIn: seq<bool>, m: seq<bool>, et: seq<int>, d: seq<nat>, col: seq<bool>, s: int, queue: seq<int>, dc: int, v: int, i: int)
  {
    Rooted(adj, mIn, m, et, d, col, s) &&
    Layered(adj, mIn, m, d, queue, dc) && SettledOff(adj, m, col, queue, v) &&
    0 <= v < |adj| && m[v] && !mIn[v] && d[v] == dc && 0 <= i <= |adj[v]| && DepthFirst.ExploredUpTo(adj, m, col, v, i)
  }

  /** Marking the unmarked root `s` at distance 0 and queueing it starts `bfs(graph, s)`. */
  lemma Start(adj: seq<seq<int>>, mIn: seq<bool>, et: seq<int>, d: seq<nat>, col: seq<bool>, s: int)
    requires |mIn| == |adj| && |et| == |adj| && |d| == |adj| && |col| == |adj| && 0 <= s < |adj| && !mIn[s]
    requires SettledOff(adj, mIn, col, [], -1)
    ensures Queued(adj, mIn, mIn[s := true], et, d[s := 0], col, s, [s], 0)
  {
    var m := mIn[s := true];
    forall x | 0 <= x < |adj| && m[x] && x !in [s]
      ensures DepthFirst.Finished(adj, m, col, x)
    {
      assert DepthFirst.Finished(adj, mIn, col, x);
    }
  }

  /** Taking `v` off the front of the queue makes its distance the current one. */
  lemma Dequeue(adj: seq<seq<int>>, mIn: seq<bool>, m: seq<bool>, et: seq<int>, d: seq<nat>, col: seq<bool>, s: int, queue: seq<int>, dc: int)
    requires Queued(adj, mIn, m, et, d, col, s, queue, dc) && |queue| > 0
    ensures Scanning(adj, mIn, m, et, d, col, s, queue[1..], d[queue[0]], queue[0], 0)
  {
    var v, rest := queue[0], queue[1..];
    forall k | 0 <= k < |rest|
      ensures d[v] <= d[rest[k]]
    {
      assert rest[k] == queue[k + 1];
    }
    forall j, k | 0 <= j < k < |rest| && 0 <= rest[j] < |adj| && 0 <= rest[k] < |adj|
      ensures d[rest[j]] <= d[rest[k]]
    {
      assert rest[j] == queue[j + 1] && rest[k] == queue[k + 1];
    }
    forall x | 0 <= x < |adj| && m[x] && x !in rest && x != v
      ensures DepthFirst.Finished(adj, m, col, x)
    {
      assert x !in queue;
    }
  }

  /**
   * Marking the unmarked neighbour `w = adj[v][i]` of `v` one step further
   * from the root, with `v` as its parent and the colour opposite to
   * `v`'s, and queueing it, explores one more neighbour of `v`.
   */
  lemma VisitNew(adj: seq<seq<int>>, mIn: seq<bool>, m: seq<bool>, et: seq<int>, d: seq<nat>, col: seq<bool>, s: int, queue: seq<int>, dc: int, v: int, i: int,
                 m2: seq<bool>, et2: seq<int>, d2: seq<nat>, col2: seq<bool>, queue2: seq<int>)
    requires WellFormed(adj) && Scanning(adj, mIn, m, et, d, col, s, queue, dc, v, i) && i < |adj[v]| && !m[adj[v][i]]
    requires m2 == m[adj[v][i] := true] && et2 == et[adj[v][i] := v] && d2 == d[adj[v][i] := d[v] + 1]
    requires col2 == col[adj[v][i] := !col[v]] && queue2 == queue + [adj[v][i]]
    ensures Scanning(adj, mIn, m2, et2, d2, col2, s, queue2, dc, v, i + 1)
  {
    var w := adj[v][i];
    forall x | 0 <= x < |adj| && m2[x] && !mIn[x]
      ensures (d2[x] == 0 ==> x == s) &&
              (d2[x] > 0 ==> 0 <= et2[x] < |adj| && m2[et2[x]] && !mIn[et2[x]] && d2[et2[x]] == d2[x] - 1 && x in adj[et2[x]])
      ensures col2[x] == (col2[s] == (d2[x] % 2 == 0))
    {
      if x != w {
        assert m[x];
      }
    }
    forall k | 0 <= k < |queue2|
      ensures 0 <= queue2[k] < |adj| && m2[queue2[k]] && !mIn[queue2[k]] && dc <= d2[queue2[k]] <= dc + 1
    {
      if k < |queue| {
        assert queue2[k] == queue[k];
      }
    }
    forall j, k | 0 <= j < k < |queue2| && 0 <= queue2[j] < |adj| && 0 <= queue2[k] < |adj|
      ensures d2[queue2[j]] <= d2[queue2[k]]
    {
      assert queue2[j] == queue[j];
      if k < |queue| {
        assert queue2[k] == queue[k];
      }
    }
    forall x | 0 <= x < |adj| && m2[x] && x !in queue2 && x != v
      ensures DepthFirst.Finished(adj, m2, col2, x)
    {
      assert x != w && x !in queue;
      assert DepthFirst.Finished(adj, m, col, x);
    }
    forall k | 0 <= k < i
      ensures col2[adj[v][k]] != col2[v]
    {
      assert m[adj[v][k]];
    }
  }

  /** A marked neighbour `w = adj[v][i]` coloured unlike `v` explores one more neighbour of `v`. */
  lemma VisitMarked(adj: seq<seq<int>>, mIn: seq<bool>, m: seq<bool>, et: seq<int>, d: seq<nat>, col: seq<bool>, s: int, queue: seq<int>, dc: int, v: int, i: int)
    requires WellFormed(adj) && Scanning(adj, mIn, m, et, d, col, s, queue, dc, v, i) && i < |adj[v]|
    requires m[adj[v][i]] && col[adj[v][i]] != col[v]
    ensures Scanning(adj, mIn, m, et, d, col, s, queue, dc, v, i + 1)
  {
  }

  /** Once every neighbour of `v` is explored, `v` is finished. */
  lemma ScanDone(adj: seq<seq<int>>, mIn: seq<bool>, m: seq<bool>, et: seq<int>, d: seq<nat>, col: seq<bool>, s: int, queue: seq<int>, dc: int, v: int)
    requires 0 <= v < |adj| && Scanning(adj, mIn, m, et, d, col, s, queue, dc, v, |adj[v]|)
    ensures Queued(adj, mIn, m, et, d, col, s, queue, dc)
  {
  }

  /**
   * A marked neighbour `w = adj[v][i]` coloured like `v` is `v` itself or
   * still queued (a finished `w` has `v` coloured unlike it), so it is new
   * and, by the parity of the colours, at the same distance as `v`.
   */
  lemma ConflictAtSameDistance(adj: seq<seq<int>>, mIn: seq<bool>, m: seq<bool>, et: seq<int>, d: seq<nat>, col: seq<bool>, s: int, queue: seq<int>, dc: int, v: int, i: int)
    requires WellFormed(adj) && Symmetric(adj) && Scanning(adj, mIn, m, et, d, col, s, queue, dc, v, i) && i < |adj[v]|
    requires m[adj[v][i]] && col[adj[v][i]] == col[v]
    ensures !mIn[adj[v][i]] && d[adj[v][i]] == d[v]
  {
    var w := adj[v][i];
    assert v in adj[w];
    var k :| 0 <= k < |adj[w]| && adj[w][k] == v;
    assert col[adj[w][k]] == col[w];
    assert !DepthFirst.Finished(adj, m, col, w);
    if w != v {
      assert w in queue;
      var j :| 0 <= j < |queue| && queue[j] == w;
      assert dc <= d[w] <= dc + 1;
    }
  }

  /**
   * The state of the lockstep walk of `set_cycle(v0, w0)` after `k` steps,
   * at the vertices `v` and `w`, both `dv - k` from the root: `q` holds the
   * `w` side from `w0` upwards, each entry adjacent to the next and the
   * last adjacent to `w`; `st` holds the `v` side from just below `v` down
   * to `v0`, `v` adjacent to its first entry; and the two entries at each
   * distance differ.
   */
  ghost predicate Walked(adj: seq<seq<int>>, d: seq<nat>, q: seq<int>, st: seq<int>, v: int, w: int, k: int, dv: int, v0: int, w0: int)
  {
    |d| == |adj| && 0 <= v < |adj| && 0 <= w < |adj| && 0 <= k <= dv && d[v] == dv - k && d[w] == dv - k &&
    |q| == k && |st| == k &&
    (forall i :: 0 <= i < k ==> 0 <= q[i] < |adj| && 0 <= st[i] < |adj|) &&
    (k == 0 ==> v == v0 && w == w0) &&
    (k > 0 ==> q[0] == w0 && st[k - 1] == v0 && w in adj[q[k - 1]] && st[0] in adj[v]) &&
    (forall i :: 0 <= i < k ==> d[q[i]] == dv - i && d[st[i]] == dv - k + 1 + i) &&
    (forall i :: 0 <= i < k - 1 ==> q[i + 1] in adj[q[i]] && st[i + 1] in adj[st[i]]) &&
    (forall i :: 0 <= i < k ==> q[i] != st[k - 1 - i])
  }

  /**
   * One step of the walk: two different new vertices at the same distance
   * are not the root, so both have new parents one step nearer, each
   * adjacent to its child.
   */
  lemma WalkParents(adj: seq<seq<int>>, mIn: seq<bool>, m: seq<bool>, et: seq<int>, d: seq<nat>, s: int,
                    q: seq<int>, st: seq<int>, v: int, w: int, k: int, dv: int, v0: int, w0: int)
    requires Symmetric(adj) && Tree(adj, mIn, m, et, d, s) && Walked(adj, d, q, st, v, w, k, dv, v0, w0)
    requires m[v] && !mIn[v] && m[w] && !mIn[w] && v != w
    ensures 0 <= et[v] < |adj| && m[et[v]] && !mIn[et[v]] && d[et[v]] == dv - k - 1 && v in adj[et[v]]
    ensures 0 <= et[w] < |adj| && m[et[w]] && !mIn[et[w]] && d[et[w]] == dv - k - 1 && et[w] in adj[w]
  {
    assert d[v] > 0;
    assert w in adj[et[w]];
  }

  /** Enqueueing `w` and pushing `v` before moving both up to parents one step nearer keeps the walk's state. */
  lemma WalkStep(adj: seq<seq<int>>, d: seq<nat>, q: seq<int>, st: seq<int>, v: int, w: int, k: int, dv: int, v0: int, w0: int, pv: int, pw: int)
    requires Walked(adj, d, q, st, v, w, k, dv, v0, w0) && v != w
    requires 0 <= pv < |adj| && d[pv] == dv - k - 1 && v in adj[pv]
    requires 0 <= pw < |adj| && d[pw] == dv - k - 1 && pw in adj[w]
    ensures Walked(adj, d, q + [w], [v] + st, pv, pw, k + 1, dv, v0, w0)
  {
    var q2, st2 := q + [w], [v] + st;
    assert |q2| == k + 1 && |st2| == k + 1;
    forall i | 0 <= i < k + 1
      ensures 0 <= q2[i] < |adj| && 0 <= st2[i] < |adj|
      ensures d[q2[i]] == dv - i && d[st2[i]] == dv - k + i
      ensures q2[i] != st2[k - i]
    {
      if i < k {
        assert q2[i] == q[i];
        assert st2[k - i] == st[k - 1 - i];
      }
      if i > 0 {
        assert st2[i] == st[i - 1];
      }
    }
    forall i | 0 <= i < k
      ensures q2[i + 1] in adj[q2[i]] && st2[i + 1] in adj[st2[i]]
    {
      assert q2[i] == q[i] && st2[i + 1] == st[i];
      if i < k - 1 {
        assert q2[i + 1] == q[i + 1];
      }
      if i > 0 {
        assert st2[i] == st[i - 1];
      }
    }
    assert q2[0] == w0 && st2[k] == v0;
  }

  /** Where the entries of `q + [a] + st` come from, and how far from the root each is. */
  lemma WalkEntries(adj: seq<seq<int>>, d: seq<nat>, q: seq<int>, a: int, st: seq<int>, k: int, dv: int, v0: int, w0: int)
    requires Walked(adj, d, q, st, a, a, k, dv, v0, w0)
    ensures forall p :: 0 <= p < 2 * k + 1 ==> (q + [a] + st)[p] == if p < k then q[p] else if p == k then a else st[p - k - 1]
    ensures forall p :: 0 <= p < 2 * k + 1 ==> 0 <= (q + [a] + st)[p] < |adj|
    ensures forall p :: 0 <= p < 2 * k + 1 ==> d[(q + [a] + st)[p]] == if p <= k then dv - p else dv - 2 * k + p
    ensures |q + [a] + st| == 2 * k + 1 && (q + [a] + st)[k] == a
    ensures (q + [a] + st)[0] == w0 && (q + [a] + st)[2 * k] == v0 && (k == 0 <==> v0 == w0)
  {
    if k > 0 {
      assert q[0] != st[k - 1 - 0];
    }
  }

  /** The entries of the finished walk form a walk of the graph, closed by the edge from `v0` back to `w0`. */
  lemma WalkIsPath(adj: seq<seq<int>>, d: seq<nat>, q: seq<int>, a: int, st: seq<int>, k: int, dv: int, v0: int, w0: int)
    requires Walked(adj, d, q, st, a, a, k, dv, v0, w0) && w0 in adj[v0]
    ensures IsPath(adj, q + [a] + st) && (q + [a] + st)[0] in adj[(q + [a] + st)[2 * k]]
  {
    var c := q + [a] + st;
    WalkEntries(adj, d, q, a, st, k, dv, v0, w0);
    forall p | 0 <= p < |c| - 1
      ensures c[p + 1] in adj[c[p]]
    {
      if p < k - 1 {
        assert q[p + 1] in adj[q[p]];
      } else if p == k - 1 {
        assert a in adj[q[k - 1]];
      } else if p == k {
        assert st[0] in adj[a];
      } else {
        assert st[p - k] in adj[st[p - k - 1]];
      }
    }
  }

  /**
   * No vertex occurs twice in the finished walk: entries at different
   * distances differ, and the two entries at each distance are the two
   * sides the walk kept apart.
   */
  lemma WalkIsDistinct(adj: seq<seq<int>>, d: seq<nat>, q: seq<int>, a: int, st: seq<int>, k: int, dv: int, v0: int, w0: int)
    requires Walked(adj, d, q, st, a, a, k, dv, v0, w0)
    ensures Distinct(q + [a] + st)
  {
    var c := q + [a] + st;
    WalkEntries(adj, d, q, a, st, k, dv, v0, w0);
    forall p, r | 0 <= p < r < |c|
      ensures c[p] != c[r]
    {
      if p < k && r == 2 * k - p {
        assert c[r] == st[k - 1 - p];
      }
    }
  }

  /** The finished walk lists an odd cycle. */
  lemma WalkIsOddCycle(adj: seq<seq<int>>, d: seq<nat>, q: seq<int>, a: int, st: seq<int>, k: int, dv: int, v0: int, w0: int)
    requires Walked(adj, d, q, st, a, a, k, dv, v0, w0) && w0 in adj[v0]
    ensures IsOddCycle(adj, q + [a] + st)
  {
    WalkIsPath(adj, d, q, a, st, k, dv, v0, w0);
    WalkIsDistinct(adj, d, q, a, st, k, dv, v0, w0);
  }

  /**
   * The first loop of `set_cycle(v0, w0)`, for two new vertices at the
   * same distance from the root: both are moved up one parent at a time,
   * `v` pushed on a stack and `w` enqueued, until they meet at a common
   * ancestor `a`.
   */
  method Climb(ghost adj: seq<seq<int>>, ghost mIn: seq<bool>, ghost m: seq<bool>, et: seq<int>, ghost d: seq<nat>, ghost s: int,
               v0: int, w0: int) returns (queue: seq<int>, stack: seq<int>, a: int, ghost k: int)
    requires Symmetric(adj) && Tree(adj, mIn, m, et, d, s)
    requires 0 <= v0 < |adj| && 0 <= w0 < |adj| && m[v0] && !mIn[v0] && m[w0] && !mIn[w0] && d[v0] == d[w0]
    ensures Walked(adj, d, queue, stack, a, a, k, d[v0], v0, w0)
  {
    var v, w := v0, w0;
    queue, stack := [], [];
    k := 0;
    ghost var dv := d[v0];
    while v != w
      invariant Walked(adj, d, queue, stack, v, w, k, dv, v0, w0)
      invariant m[v] && !mIn[v] && m[w] && !mIn[w]
      decreases dv - k
    {
      WalkParents(adj, mIn, m, et, d, s, queue, stack, v, w, k, dv, v0, w0);
      WalkStep(adj, d, queue, stack, v, w, k, dv, v0, w0, et[v], et[w]);
      stack := [v] + stack;
      queue := queue + [w];
      v := et[v];
      w := et[w];
      k := k + 1;
    }
    a := v;
  }

  /**
   * The lockstep walk of `set_cycle(v0, w0)` on the parents `et`, for two
   * new vertices at the same distance from the root with `w0` adjacent to
   * `v0`: after the climb to the common ancestor `a`, `a` is pushed and the
   * stack is emptied into the queue. The queue is then an odd cycle from
   * `w0` to `v0` with `a` in the middle, a single vertex exactly for a
   * self-loop.
   */
  method LockstepWalk(ghost adj: seq<seq<int>>, ghost mIn: seq<bool>, ghost m: seq<bool>, et: seq<int>, ghost d: seq<nat>, ghost s: int,
                      v0: int, w0: int) returns (cyc: seq<int>, a: int)
    requires Symmetric(adj) && Tree(adj, mIn, m, et, d, s)
    requires 0 <= v0 < |adj| && 0 <= w0 < |adj| && m[v0] && !mIn[v0] && m[w0] && !mIn[w0]
    requires d[v0] == d[w0] && w0 in adj[v0]
    ensures IsOddCycle(adj, cyc) && cyc[0] == w0 && cyc[|cyc| - 1] == v0
    ensures (|cyc| == 1 <==> v0 == w0) && cyc[(|cyc| - 1) / 2] == a
  {
    var queue, stack;
    ghost var k;
    queue, stack, a, k := Climb(adj, mIn, m, et, d, s, v0, w0);
    ghost var q0, st0 := queue, stack;
    stack := [a] + stack;
    while stack != []
      invariant queue + stack == q0 + [a] + st0
      decreases |stack|
    {
      queue := queue + [stack[0]];
      stack := stack[1..];
    }
    assert queue == q0 + [a] + st0;
    WalkIsOddCycle(adj, d, q0, a, st0, k, d[v0], v0, w0);
    WalkEntries(adj, d, q0, a, st0, k, d[v0], v0, w0);
    cyc := queue;
  }

  /**
   * `set_cycle(v, w)` as written: after the walk, the variable `w` has
   * become the common ancestor, and that is what is enqueued last. The
   * entries before it are an odd cycle, but for any two distinct vertices
   * the queue ends on the ancestor, in its middle, not on its first vertex.
   */
  method SetCycleAsWritten(ghost adj: seq<seq<int>>, ghost mIn: seq<bool>, ghost m: seq<bool>, et: seq<int>, ghost d: seq<nat>, ghost s: int,
                           v0: int, w0: int) returns (c: seq<int>)
    requires Symmetric(adj) && Tree(adj, mIn, m, et, d, s)
    requires 0 <= v0 < |adj| && 0 <= w0 < |adj| && m[v0] && !mIn[v0] && m[w0] && !mIn[w0]
    requires d[v0] == d[w0] && w0 in adj[v0]
    ensures |c| >= 2 && IsOddCycle(adj, c[..|c| - 1]) && c[0] == w0
    ensures c[|c| - 1] == c[(|c| - 2) / 2]
    ensures v0 != w0 ==> c[|c| - 1] != c[0]
  {
    var cyc, a := LockstepWalk(adj, mIn, m, et, d, s, v0, w0);
    c := cyc + [a];
    assert c[..|c| - 1] == cyc;
  }

  /**
   * `set_cycle(v, w)` as the algorithm intends it: the walk, then `w0`
   * again, so the queue lists an odd cycle and returns to its first vertex.
   */
  method SetCycle(ghost adj: seq<seq<int>>, ghost mIn: seq<bool>, ghost m: seq<bool>, et: seq<int>, ghost d: seq<nat>, ghost s: int,
                  v0: int, w0: int) returns (c: seq<int>)
    requires Symmetric(adj) && Tree(adj, mIn, m, et, d, s)
    requires 0 <= v0 < |adj| && 0 <= w0 < |adj| && m[v0] && !mIn[v0] && m[w0] && !mIn[w0]
    requires d[v0] == d[w0] && w0 in adj[v0]
    ensures ClosedOddWalk(adj, c) && c[0] == w0
  {
    var cyc, a := LockstepWalk(adj, mIn, m, et, d, s, v0, w0);
    c := cyc + [w0];
    assert c[..|c| - 1] == cyc;
  }

  class BipartiteBFS {
    /** `@is_bipartite`: false once an odd cycle is found. */
    var isBipartite: bool
    /** `@color`: the side of the bipartition each vertex is on. */
    var color: array<bool>
    /** `@marked`: which vertices the search has reached. */
    var marked: array<bool>
    /** `@edge_to`: the vertex each searched vertex was reached from. */
    var edgeTo: array<int>
    /** `odd_cycle`: the queue listing an odd cycle, or None (`nil`) when none was found. */
    var oddCycle: Option<seq<int>>
    /** The distance of each searched vertex from the root of its search. */
    ghost var depth: seq<nat>
    /** The graph's bags when the search ran. */
    ghost const adj: seq<seq<int>>

    /**
     * The outcome: the graph is reported bipartite exactly when it has a
     * proper two-colouring, the colours are then one, and otherwise an odd
     * cycle of the graph is reported, followed by its middle vertex.
     */
    ghost predicate Valid()
      reads this, color
    {
      WellFormed(adj) && Symmetric(adj) && color.Length == |adj| &&
      (isBipartite <==> oddCycle.None?) &&
      (isBipartite <==> TwoColourable(adj)) &&
      (isBipartite ==> ProperColouring(adj, color[..])) &&
      (oddCycle.Some? ==> OddCycleThenAncestor(adj, oddCycle.value))
    }

    /**
     * `new(graph)`: every vertex starts unmarked and coloured false; then,
     * while no odd cycle is found, a search runs from each vertex not yet
     * marked.
     */
    constructor (graph: Graph)
      requires graph.Valid()
      ensures Valid() && adj == graph.adj
    {
      adj := graph.adj;
      isBipartite := true;
      color := new bool[graph.v](_ => false);
      marked := new bool[graph.v](_ => false);
      edgeTo := new int[graph.v](_ => 0);
      oddCycle := None;
      depth := seq(graph.v, _ => 0);
      new;
      Search(graph);
    }

    /** `bipartite?`: true exactly when the graph has a proper two-colouring. */
    function IsBipartite(): (b: bool)
      reads this, color
      requires Valid()
      ensures b <==> TwoColourable(adj)
    {
      isBipartite
    }

    /**
     * `color(x)`: NotBipartiteError for a graph that is not bipartite, then
     * RangeError unless `x` is a vertex; otherwise the side of `x`, which
     * differs from the side of every neighbour.
     */
    function Color(x: int): (r: Result<bool>)
      reads this, color
      requires Valid()
      ensures !TwoColourable(adj) ==> r == Err(NotBipartiteError)
      ensures TwoColourable(adj) && !(0 <= x < |adj|) ==> r == Err(RangeError)
      ensures TwoColourable(adj) && 0 <= x < |adj| ==> r.Ok?
      ensures r.Ok? ==> 0 <= x < |adj| && forall k :: 0 <= k < |adj[x]| ==> color[adj[x][k]] != r.value
    {
      if !isBipartite then Err(NotBipartiteError)
      else if x < 0 || color.Length <= x then Err(RangeError)
      else Ok(color[x])
    }

    /** `odd_cycle`: an odd cycle of the graph followed by its middle vertex, present exactly when the graph is not bipartite. */
    function OddCycle(): (c: Option<seq<int>>)
      reads this, color
      requires Valid()
      ensures c.Some? ==> OddCycleThenAncestor(adj, c.value)
      ensures c.None? <==> TwoColourable(adj)
    {
      oddCycle
    }

    /**
     * The loop of `new(graph)` over the vertices, which stops as soon as
     * the graph is known not to be bipartite: a search from each vertex not
     * yet marked. With no odd cycle found every vertex has every neighbour
     * coloured unlike it.
     */
    method Search(graph: Graph)
      requires graph.Valid() && graph.adj == adj && color != marked
      requires marked.Length == |adj| && edgeTo.Length == |adj| && color.Length == |adj| && |depth| == |adj|
      requires isBipartite && oddCycle.None? && forall x :: 0 <= x < |adj| ==> !marked[x]
      modifies this`isBipartite, this`oddCycle, this`depth, marked, edgeTo, color
      ensures Valid()
    {
      var w := 0;
      while w < graph.v && isBipartite
        invariant 0 <= w <= graph.v && |depth| == |adj|
        invariant isBipartite <==> oddCycle.None?
        invariant oddCycle.Some? ==> OddCycleThenAncestor(adj, oddCycle.value)
        invariant isBipartite ==> SettledOff(adj, marked[..], color[..], [], -1)
        invariant isBipartite ==> forall x :: 0 <= x < w ==> marked[x]
      {
        if !marked[w] {
          Bfs(graph, w);
        }
        w := w + 1;
      }
      if isBipartite {
        forall x, k | 0 <= x < |adj| && 0 <= k < |adj[x]|
          ensures 0 <= adj[x][k] < |adj| && color[adj[x][k]] != color[x]
        {
          assert marked[x] && DepthFirst.Finished(adj, marked[..], color[..], x);
        }
        assert ProperColouring(adj, color[..]);
      } else {
        var c := oddCycle.value;
        OddCycleNotColourable(adj, c[..|c| - 1]);
      }
    }

    /**
     * `bfs(graph, s)`: marks `s` and queues it; then, until the queue is
     * empty, takes the front vertex and scans its neighbours, returning as
     * soon as an odd cycle is found. Without one, marks only grew, `s` is
     * marked and every marked vertex is finished.
     */
    method Bfs(graph: Graph, s: int)
      requires graph.Valid() && graph.adj == adj && color != marked
      requires marked.Length == |adj| && edgeTo.Length == |adj| && color.Length == |adj| && |depth| == |adj|
      requires 0 <= s < |adj| && !marked[s]
      requires isBipartite && oddCycle.None? && SettledOff(adj, marked[..], color[..], [], -1)
      modifies this`isBipartite, this`oddCycle, this`depth, marked, edgeTo, color
      ensures |depth| == |adj| && (isBipartite <==> oddCycle.None?)
      ensures oddCycle.Some? ==> OddCycleThenAncestor(adj, oddCycle.value)
      ensures isBipartite ==> Grows(old(marked[..]), marked[..]) && marked[s] && SettledOff(adj, marked[..], color[..], [], -1)
    {
      ghost var mIn := marked[..];
      Start(adj, mIn, edgeTo[..], depth, color[..], s);
      MarkOne(mIn, s);
      marked[s] := true;
      depth := depth[s := 0];
      assert marked[..] == mIn[s := true];
      var queue := [s];
      ghost var dc := 0;
      while |queue| > 0
        invariant |depth| == |adj| && isBipartite && oddCycle.None?
        invariant Queued(adj, mIn, marked[..], edgeTo[..], depth, color[..], s, queue, dc)
        decreases |UnmarkedOf(marked[..])| + |queue|
      {
        var v := queue[0];
        Dequeue(adj, mIn, marked[..], edgeTo[..], depth, color[..], s, queue, dc);
        dc := depth[v];
        queue := queue[1..];
        queue := Scan(graph, v, queue, mIn, s, dc);
        if !isBipartite {
          return;
        }
        ScanDone(adj, mIn, marked[..], edgeTo[..], depth, color[..], s, queue, dc, v);
      }
    }

    /**
     * The loop of `bfs` over the neighbours of `v`: an unmarked neighbour is
     * marked, gets `v` as its parent and the colour opposite to `v`'s, and
     * is queued; a marked one coloured like `v` ends the search with an odd
     * cycle.
     */
    method Scan(graph: Graph, v: int, queue0: seq<int>, ghost mIn: seq<bool>, ghost s: int, ghost dc: int) returns (queue: seq<int>)
      requires graph.Valid() && graph.adj == adj && color != marked
      requires marked.Length == |adj| && edgeTo.Length == |adj| && color.Length == |adj| && |depth| == |adj|
      requires isBipartite && oddCycle.None?
      requires Scanning(adj, mIn, marked[..], edgeTo[..], depth, color[..], s, queue0, dc, v, 0)
      modifies this`isBipartite, this`oddCycle, this`depth, marked, edgeTo, color
      ensures |depth| == |adj| && (isBipartite <==> oddCycle.None?)
      ensures oddCycle.Some? ==> OddCycleThenAncestor(adj, oddCycle.value)
      ensures isBipartite ==> Scanning(adj, mIn, marked[..], edgeTo[..], depth, color[..], s, queue, dc, v, |adj[v]|)
      ensures isBipartite ==> |UnmarkedOf(marked[..])| + |queue| == old(|UnmarkedOf(marked[..])|) + |queue0|
    {
      queue := queue0;
      var neighbours := graph.Adjacent(v).value;
      var i := 0;
      while i < |neighbours|
        invariant 0 <= i <= |neighbours| && |depth| == |adj| && isBipartite && oddCycle.None?
        invariant Scanning(adj, mIn, marked[..], edgeTo[..], depth, color[..], s, queue, dc, v, i)
        invariant |UnmarkedOf(marked[..])| + |queue| == old(|UnmarkedOf(marked[..])|) + |queue0|
      {
        var w := neighbours[i];
        if marked[w] {
          if color[w] == color[v] {
            Conflict(graph, v, i, queue, mIn, s, dc);
            return;
          }
          VisitMarked(adj, mIn, marked[..], edgeTo[..], depth, color[..], s, queue, dc, v, i);
        } else {
          queue := Reach(graph, v, i, queue, mIn, s, dc);
        }
        i := i + 1;
      }
    }
    /**
     * An unmarked neighbour `w = adj[v][i]` is marked, gets `v` as its
     * parent and the colour opposite to `v`'s, and is queued.
     */
    method Reach(graph: Graph, v: int, i: int, queue0: seq<int>, ghost mIn: seq<bool>, ghost s: int, ghost dc: int) returns (queue: seq<int>)
      requires graph.Valid() && graph.adj == adj && color != marked
      requires marked.Length == |adj| && edgeTo.Length == |adj| && color.Length == |adj| && |depth| == |adj|
      requires Scanning(adj, mIn, marked[..], edgeTo[..], depth, color[..], s, queue0, dc, v, i)
      requires i < |adj[v]| && !marked[adj[v][i]]
      modifies this`depth, marked, edgeTo, color
      ensures |depth| == |adj| && Scanning(adj, mIn, marked[..], edgeTo[..], depth, color[..], s, queue, dc, v, i + 1)
      ensures |UnmarkedOf(marked[..])| + |queue| == old(|UnmarkedOf(marked[..])|) + |queue0|
    {
      var w := graph.adj[v][i];
      ghost var m, et, d, col := marked[..], edgeTo[..], depth, color[..];
      MarkOne(m, w);
      marked[w] := true;
      edgeTo[w] := v;
      color[w] := !color[v];
      depth := depth[w := depth[v] + 1];
      queue := queue0 + [w];
      assert marked[..] == m[w := true] && edgeTo[..] == et[w := v] && color[..] == col[w := !col[v]];
      VisitNew(adj, mIn, m, et, d, col, s, queue0, dc, v, i, marked[..], edgeTo[..], depth, color[..], queue);
    }

    /**
     * A marked neighbour `w = adj[v][i]` coloured like `v` ends the search:
     * the graph is not bipartite, and the lockstep walk from `v` and `w`
     * gives the odd cycle.
     */
    method Conflict(graph: Graph, v: int, i: int, ghost queue: seq<int>, ghost mIn: seq<bool>, ghost s: int, ghost dc: int)
      requires graph.Valid() && graph.adj == adj
      requires marked.Length == |adj| && edgeTo.Length == |adj| && color.Length == |adj| && |depth| == |adj|
      requires Scanning(adj, mIn, marked[..], edgeTo[..], depth, color[..], s, queue, dc, v, i)
      requires i < |adj[v]| && marked[adj[v][i]] && color[adj[v][i]] == color[v]
      modifies this`isBipartite, this`oddCycle
      ensures !isBipartite && oddCycle.Some? && OddCycleThenAncestor(adj, oddCycle.value)
    {
      var w := graph.adj[v][i];
      isBipartite := false;
      ConflictAtSameDistance(adj, mIn, marked[..], edgeTo[..], depth, color[..], s, queue, dc, v, i);
      var c := SetCycleAsWritten(adj, mIn, marked[..], edgeTo[..], depth, s, v, w);
      oddCycle := Some(c);
    }
  }

  /** A client: the path 0-1-2 is bipartite, with its two ends on one side and the middle on the other. */
  method PathIsBipartite() returns (b: bool, c0: Result<bool>, c1: Result<bool>, c2: Result<bool>)
    ensures b && c0.Ok? && c1.Ok? && c2.Ok? && c0.value != c1.value && c1.value != c2.value
  {
    var g := Cycles.PathGraph();
    assert ProperColouring(g.adj, [false, true, false]);
    var bp := new BipartiteBFS(g);
    b := bp.IsBipartite();
    c0, c1, c2 := bp.Color(0), bp.Color(1), bp.Color(2);
    assert g.adj[0][0] == 1 && g.adj[2][0] == 1;
  }

  /** A sequence of distinct entries has as many entries as values. */
  lemma {:induction false} DistinctCard(p: seq<int>)
    requires Distinct(p)
    ensures |set x | x in p| == |p|
  {
    if |p| > 0 {
      DistinctCard(p[1..]);
      assert (set x | x in p) == {p[0]} + (set x | x in p[1..]);
    }
  }

  /** On the triangle, the only odd cycle has all three vertices, so the queue has four entries. */
  lemma TriangleQueue(adj: seq<seq<int>>, c: seq<int>)
    requires adj == [[2, 1], [2, 0], [0, 1]] && OddCycleThenAncestor(adj, c)
    ensures |c| == 4 && c[3] == c[1] && c[3] != c[0]
  {
    var p := c[..|c| - 1];
    assert 0 <= p[0] < 3 && p[0] !in adj[p[0]];
    var vs := set x | x in p;
    DistinctCard(p);
    assert vs <= {0, 1, 2};
    assert {0, 1, 2} == vs + ({0, 1, 2} - vs);
    AncestorClosesOnlySelfLoop(adj, c);
  }

  /**
   * A client: the triangle 0-1-2 is not bipartite, and the reported queue
   * lists its three vertices and then the middle one again, so it does not
   * return to where it starts.
   */
  method TriangleIsNotBipartite() returns (b: bool, c: Option<seq<int>>, c0: Result<bool>)
    ensures !b && c0 == Err(NotBipartiteError)
    ensures c.Some? && |c.value| == 4 && c.value[3] == c.value[1] && c.value[3] != c.value[0]
  {
    var g := Cycles.PathGraph();
    var o := g.AddEdge(2, 0);
    AddedBags([[1], [2, 0], [1]], 2, 0);
    assert g.adj[0] == [2, 1] && g.adj[1] == [2, 0] && g.adj[2] == [0, 1];
    assert IsPath(g.adj, [0, 1, 2]);
    OddCycleNotColourable(g.adj, [0, 1, 2]);
    var bp := new BipartiteBFS(g);
    b := bp.IsBipartite();
    c := bp.OddCycle();
    c0 := bp.Color(0);
    assert g.adj == [[2, 1], [2, 0], [0, 1]];
    TriangleQueue(g.adj, c.value);
  }
}
