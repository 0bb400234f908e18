/**
 * The graph: an insertion-ordered sequence of vertices, each owning its
 * adjacency list, the mutation API that builds it and the algorithms that
 * read it.
 */
module Graphs {
  import opened Common
  import opened GraphModel
  import opened Reachability
  import opened Paths
  import opened EulerSpec
  import opened HamiltonSpec

  /** The hit radius of a vertex, squared (the source compares the distance with 15). */
  const HitRadiusSquared: int := 15 * 15

  /** The point `(px, py)` lies strictly inside the hit radius of `v`. */
  predicate Hit(v: Vertex, px: int, py: int) {
    (v.x - px) * (v.x - px) + (v.y - py) * (v.y - py) < HitRadiusSquared
  }

  class Graph {
    /** The registered vertices, in insertion order; a vertex is its index here. */
    var vertices: seq<Vertex>
    const directed: bool
    /** Only affects drawing; no algorithm reads it. */
    const weighted: bool

    /** Records target registered vertices; undirected graphs hold their records in pairs. */
    ghost predicate Valid()
      reads this
    {
      WellFormed(vertices) && (!directed ==> Paired(Lists(vertices)))
    }

    constructor (directed: bool, weighted: bool)
      ensures Valid()
      ensures vertices == [] && this.directed == directed && this.weighted == weighted
    {
      vertices := [];
      this.directed := directed;
      this.weighted := weighted;
    }

    /** `addVertex`: registers a freshly created vertex at the end of the sequence. */
    method AddVertex(v: Vertex)
      requires Valid() && v.edges == []
      modifies this
      ensures Valid()
      ensures vertices == old(vertices) + [v]
    {
      ghost var n := |vertices|;
      forall u | 0 <= u < n {
        NoRecordsToNewVertex(vertices, u);
      }
      vertices := vertices + [v];
      assert forall u :: 0 <= u < n ==> Lists(vertices)[u] == Lists(old(vertices))[u];
    }

    /**
     * `addEdge(v1, v2, weight)`: appends the record `v1 -> v2` to `v1`'s list
     * and, in an undirected graph, the record `v2 -> v1` to `v2`'s list.
     */
    method AddEdge(v1: nat, v2: nat, weight: nat)
      requires Valid() && v1 < |vertices| && v2 < |vertices|
      modifies this
      ensures Valid()
      ensures |vertices| == |old(vertices)|
      ensures vertices[v1].edges ==
        old(vertices[v1].edges) + [Edge(v2, weight)] + (if !directed && v1 == v2 then [Edge(v1, weight)] else [])
      ensures !directed && v1 != v2 ==> vertices[v2].edges == old(vertices[v2].edges) + [Edge(v1, weight)]
      ensures forall u :: 0 <= u < |vertices| && u != v1 && (directed || u != v2) ==> vertices[u] == old(vertices[u])
      ensures forall u :: 0 <= u < |vertices| ==>
        vertices[u].x == old(vertices[u].x) && vertices[u].y == old(vertices[u].y) && vertices[u].name == old(vertices[u].name)
    {
      var a := vertices[v1];
      AppendKeepsWellFormed(vertices, v1, Edge(v2, weight), vertices[v1 := a.(edges := a.edges + [Edge(v2, weight)])]);
      vertices := vertices[v1 := a.(edges := a.edges + [Edge(v2, weight)])];
      if !directed {
        var b := vertices[v2];
        AppendKeepsWellFormed(vertices, v2, Edge(v1, weight), vertices[v2 := b.(edges := b.edges + [Edge(v1, weight)])]);
        vertices := vertices[v2 := b.(edges := b.edges + [Edge(v1, weight)])];
        AddPairKeepsPaired(Lists(old(vertices)), Lists(vertices), v1, v2, weight);
      }
    }

    /** `getVertexAt(pos)`: the first vertex, in insertion order, whose hit circle contains the point. */
    method GetVertexAt(px: int, py: int) returns (r: Option<nat>)
      ensures r.Some? ==> r.value < |vertices| && Hit(vertices[r.value], px, py)
      ensures r.Some? ==> forall k :: 0 <= k < r.value ==> !Hit(vertices[k], px, py)
      ensures r.None? ==> forall k :: 0 <= k < |vertices| ==> !Hit(vertices[k], px, py)
    {
      var i := 0;
      while i < |vertices|
        invariant 0 <= i <= |vertices|
        invariant forall k :: 0 <= k < i ==> !Hit(vertices[k], px, py)
      {
        var v := vertices[i];
        var dx := v.x - px;
        var dy := v.y - py;
        if dx * dx + dy * dy < HitRadiusSquared {
          return Some(i);
        }
        i := i + 1;
      }
      return None;
    }
  
    /**
     * `bfs(start, visit)`: the visit order. The start comes first, every
     * vertex reachable from it is visited exactly once and nothing else is,
     * and vertices come in order of hop distance: whenever a vertex lies
     * within `k` hops of the start, so does every vertex visited before it.
     */
    method Bfs(start: nat) returns (order: seq<nat>)
      requires WellFormed(vertices) && start < |vertices|
      ensures |order| > 0 && order[0] == start
      ensures Distinct(order)
      ensures forall v :: v in order <==> Reachable(vertices, start, v)
      ensures forall i, j, k :: 0 <= i < j < |order| && Within(vertices, start, k, order[j]) ==> Within(vertices, start, k, order[i])
    {
      var vs := vertices;
      var visited: set<nat> := {start};
      var queue: seq<nat> := [start];
      order := [];
      // `seen` lists every vertex ever enqueued; `lv` holds their hop distances.
      ghost var seen: seq<nat> := [start];
      ghost var lv: seq<nat> := [0];
      BfsInit(vs, start);
      while |queue| > 0
        invariant seen == order + queue
        invariant BfsInv(vs, start, seen, lv, |order|, visited)
        decreases |vs| - |order|
      {
        var u := queue[0];
        ghost var head := |order|;
        assert seen[head] == u;
        ghost var visited0 := visited;
        var added;
        visited, added := EnqueueUnvisited(vs[u].edges, visited);
        BfsStep(vs, start, seen, lv, head, visited0, visited, added);
        DequeueConcat(order, queue, added);
        lv := NextLevel(lv, |added|, lv[head] + 1);
        seen := seen + added;
        BfsSeenBound(vs, start, seen, lv, head + 1, visited);
        order := order + [u];
        queue := queue[1..] + added;
      }
      assert order == seen;
      BfsDone(vs, start, order, lv, visited);
    }

    /**
     * `dfs(startVertex, visitCallback)`: the visit order. The start comes
     * first, every vertex reachable from it is visited exactly once and nothing
     * else is, and every vertex after the first is a target of one visited
     * before it. The order is depth first: the vertices that each vertex
     * reaches without passing through an earlier one follow it as one run.
     */
    method Dfs(start: nat) returns (order: seq<nat>)
      requires WellFormed(vertices) && start < |vertices|
      ensures |order| > 0 && order[0] == start
      ensures Distinct(order)
      ensures forall v :: v in order <==> Reachable(vertices, start, v)
      ensures HasTreeParents(vertices, order)
      ensures SubtreeAfter(vertices, {}, order, 0) && SubtreeContiguous(vertices, {}, order, 0)
    {
      var visited;
      visited, order := DfsVisit(start, {});
      forall v | v in order ensures Reachable(vertices, start, v) {
        var k: nat :| WithinAvoiding(vertices, start, k, v, {});
        AvoidingNothing(vertices, start, k, v);
      }
      forall v | Reachable(vertices, start, v) ensures v in order {
        var k: nat :| Within(vertices, start, k, v);
        AvoidingNothing(vertices, start, k, v);
        assert ReachableAvoiding(vertices, start, v, {});
      }
    }

    /**
     * The recursive helper `dfsRecursive(vertex)`: marks and visits `u`, then
     * descends into each target of `u` not yet marked, in record order.
     * Returns the new marked set and the block of vertices visited by this
     * call. The block starts with `u` and holds exactly the vertices reachable
     * from `u` along paths that avoid the vertices marked before the call.
     * It is laid out depth first: what each of its vertices reaches while
     * avoiding the vertices marked before it comes right after it, as one run.
     */
    method DfsVisit(u: nat, visited: set<nat>) returns (visited': set<nat>, block: seq<nat>)
      requires WellFormed(vertices) && u < |vertices| && u !in visited
      requires visited <= Below(|vertices|)
      ensures |block| > 0 && block[0] == u && Distinct(block)
      ensures forall p :: 0 <= p < |block| ==> block[p] !in visited && block[p] < |vertices|
      ensures forall x :: x in visited' <==> x in visited || x in block
      ensures Expanded(vertices, block, 0, visited')
      ensures HasTreeParents(vertices, block)
      ensures forall x :: x in block <==> ReachableAvoiding(vertices, u, x, visited)
      ensures SubtreeAfter(vertices, visited, block, 0) && SubtreeContiguous(vertices, visited, block, 0)
      decreases Below(|vertices|) - visited
    {
      var vs := vertices;
      var es := vs[u].edges;
      visited' := visited + {u};
      block := [u];
      DfsStart(vs, u, visited);
      var i := 0;
      while i < |es|
        invariant DfsLoopInv(vs, u, visited, i, visited', block)
        invariant SubtreeAfter(vs, visited, block, 1) && SubtreeContiguous(vs, visited, block, 1)
      {
        var w := es[i].target;
        if w !in visited' {
          assert Below(|vs|) - visited' < Below(|vs|) - visited by {
            assert u in Below(|vs|) - visited;
          }
          var v2, child := DfsVisit(w, visited');
          DfsDescend(vs, u, visited, i, visited', block, v2, child);
          SubtreesAppend(vs, visited, block, visited', child);
          block := block + child;
          visited' := v2;
        } else {
          DfsSkip(vs, u, visited, i, visited', block);
        }
        i := i + 1;
      }
      DfsFinish(vs, u, visited, visited', block);
      SubtreesFromStart(vs, visited, block);
    }
    /**
     * `dijkstra(startVertex)`: the distance and predecessor tables, indexed
     * by vertex. Every walk from the start to `t` weighs at least `dist[t]`,
     * and every finite `dist[v]` is the weight of such a walk, so `dist[v]` is
     * the least walk weight (and `Inf` exactly when no walk exists). A vertex
     * has a predecessor exactly when it is not the start and is reachable, and
     * its distance then runs through a record of that predecessor.
     */
    method Dijkstra(start: nat) returns (dist: seq<Dist>, prev: seq<Option<nat>>)
      requires WellFormed(vertices) && start < |vertices|
      ensures |dist| == |vertices| && |prev| == |vertices|
      ensures dist[start] == Fin(0)
      ensures forall t: nat, es :: IsWalk(vertices, start, es, t) ==> t < |vertices| && dist[t].Fin? && dist[t].d <= Weight(es)
      ensures forall v :: 0 <= v < |vertices| && dist[v].Fin? ==> HasWalk(vertices, start, v, dist[v].d)
      ensures forall v :: 0 <= v < |vertices| ==> (prev[v].None? <==> v == start || dist[v].Inf?)
      ensures forall v :: 0 <= v < |vertices| && prev[v].Some? ==>
                prev[v].value < |vertices| && Tight(vertices, prev[v].value, v, dist[prev[v].value], dist[v])
    {
      var vs := vertices;
      var n := |vs|;
      dist := seq(n, _ => Inf);
      prev := seq(n, _ => None);
      dist := dist[start := Fin(0)];
      // The vertices not yet extracted, in insertion order.
      var rem: seq<nat> := seq(n, i => i);
      DijkstraInit(vs, start);
      while |rem| > 0
        invariant DijkstraInv(vs, start, dist, prev, rem)
        decreases |rem|
      {
        var idx := ExtractMin(dist, rem);
        var m := rem[idx];
        var dist', prev' := RelaxEdges(m, dist, prev);
        DijkstraStep(vs, start, dist, prev, rem, idx, dist', prev');
        rem := rem[..idx] + rem[idx + 1..];
        dist, prev := dist', prev';
      }
      DijkstraDone(vs, start, dist, prev);
    }

    /**
     * `findEulerianPath()`: Hierholzer's construction on a copy of the
     * adjacency lists. `None` exactly when the number of vertices with an
     * odd-length list is neither 0 nor 2; otherwise the path starts at the
     * first odd vertex (or the first vertex), and never uses more steps than
     * there are records (undirected: than record pairs). For an undirected
     * graph consecutive vertices are adjacent, the path ends at the second
     * odd vertex (or back at the start), and it walks no edge twice: between
     * any two vertices it steps (either way) at most as often as there are
     * records joining them. The graph is only read.
     */
    method FindEulerianPath() returns (r: Option<seq<nat>>)
      requires Valid() && |vertices| > 0
      ensures r.None? <==> |OddVertices(vertices)| != 0 && |OddVertices(vertices)| != 2
      ensures r.Some? ==> |r.value| > 0 && r.value[0] == EulerStart(vertices) && AllBelow(r.value, |vertices|)
      ensures r.Some? && directed ==> |r.value| - 1 <= SumLengths(Lists(vertices))
      ensures r.Some? && !directed ==> 2 * (|r.value| - 1) <= SumLengths(Lists(vertices))
      ensures r.Some? && !directed ==> r.value[|r.value| - 1] == EulerEnd(vertices)
      ensures r.Some? && !directed ==> forall i :: 0 <= i < |r.value| - 1 ==> Adj(vertices, r.value[i], r.value[i + 1])
      ensures r.Some? && !directed ==> forall u, v :: 0 <= u < |vertices| && 0 <= v < |vertices| ==>
                Traversals(r.value, u, v) + Traversals(r.value, v, u) <= CountTo(vertices[u].edges, v)
    {
      var vs := vertices;
      var odd := OddVertices(vs);
      if |odd| != 0 && |odd| != 2 {
        return None;
      }
      var start := if |odd| == 2 then odd[0] else 0;
      var p := Hierholzer(vs, directed, start);
      return Some(p);
    }

    /**
     * `findHamiltonianCycle()`: tries each vertex in turn as the start of a
     * backtracking search. A result is a Hamiltonian cycle (the `n` vertices
     * in visiting order, then the first again); none means the graph has no
     * Hamiltonian cycle at all, which includes the empty graph.
     */
    method FindHamiltonianCycle() returns (r: Option<seq<nat>>)
      requires WellFormed(vertices)
      ensures r.Some? ==> IsHamCycle(vertices, r.value)
      ensures r.None? ==> forall c :: !IsHamCycle(vertices, c)
    {
      var i := 0;
      while i < |vertices|
        invariant 0 <= i <= |vertices|
        invariant forall v :: 0 <= v < i ==> NoCycleExtends(vertices, [v])
      {
        var found, path, _ := HamDfs(i, [], {});
        if found {
          return Some(path);
        }
        i := i + 1;
      }
      NoStartSucceeds(vertices);
      return None;
    }

    /**
     * The recursive `dfs(vertex)` of `findHamiltonianCycle`, with the shared
     * `path` and `visited` passed in and handed back. It extends the simple
     * path `path + [v]` through unvisited neighbours in adjacency order; a
     * path through all vertices succeeds when its last vertex has a record
     * back to the first, which is then appended. A failed search hands back
     * `path` and `visited` as they were and has shown that no Hamiltonian
     * cycle starts with `path + [v]`.
     */
    method HamDfs(v: nat, path: seq<nat>, visited: set<nat>) returns (found: bool, path': seq<nat>, visited': set<nat>)
      requires WellFormed(vertices) && SimplePath(vertices, path + [v])
      requires forall x :: x in visited <==> x in path
      ensures !found ==> path' == path && visited' == visited && NoCycleExtends(vertices, path + [v])
      ensures found ==> IsHamCycle(vertices, path') && path + [v] <= path'
      decreases |vertices| - |path|
    {
      SimplePathBound(vertices, path + [v]);
      assert (path + [v])[|path|] == v;
      path' := path + [v];
      visited' := visited + {v};
      if |path'| == |vertices| {
        if HasEdgeTo(vertices[v].edges, path'[0]) {
          ClosingCycle(vertices, path');
          return true, path' + [path'[0]], visited';
        } else {
          DeadEnd(vertices, path');
          return false, path, visited;
        }
      }
      var es := vertices[v].edges;
      var k := 0;
      while k < |es|
        invariant 0 <= k <= |es|
        invariant path' == path + [v] && visited' == visited + {v}
        invariant forall j :: 0 <= j < k ==> NoCycleExtends(vertices, path' + [es[j].target])
      {
        var w := es[k].target;
        if w !in visited' {
          SimplePathExtend(vertices, path', w);
          var ok, p2, v2 := HamDfs(w, path', visited');
          if ok {
            return true, p2, v2;
          }
        } else {
          RepeatExtendsNothing(vertices, path', w);
        }
        k := k + 1;
      }
      AllNeighboursFail(vertices, path');
      visited' := visited' - {v};
      path' := path'[..|path'| - 1];
      return false, path', visited';
    }

    /**
     * The inner loop of `dijkstra` over the records of `m`: each record
     * `m -> t` of weight `w` lowers `dist[t]` to `dist[m] + w` and sets
     * `prev[t]` to `m` when that is strictly smaller.
     */
    method RelaxEdges(m: nat, dist0: seq<Dist>, prev0: seq<Option<nat>>) returns (dist: seq<Dist>, prev: seq<Option<nat>>)
      requires WellFormed(vertices) && m < |vertices| && |dist0| == |vertices| && |prev0| == |vertices|
      ensures RelaxedFrom(vertices, m, dist0, prev0, dist, prev)
    {
      var es := vertices[m].edges;
      dist, prev := dist0, prev0;
      var k := 0;
      while k < |es|
        invariant 0 <= k <= |es|
        invariant |dist| == |vertices| && |prev| == |vertices|
        invariant dist[m] == dist0[m]
        invariant forall j :: 0 <= j < k ==> AtMost(dist[es[j].target], Plus(dist0[m], es[j].weight))
        invariant forall v :: 0 <= v < |vertices| ==> AtMost(dist[v], dist0[v])
        invariant forall v :: 0 <= v < |vertices| ==>
                    (dist[v] == dist0[v] && prev[v] == prev0[v]) ||
                    (prev[v] == Some(m) && Less(dist[v], dist0[v]) && Tight(vertices, m, v, dist0[m], dist[v]))
      {
        var e := es[k];
        var alt := Plus(dist[m], e.weight);
        if Less(alt, dist[e.target]) {
          assert Tight(vertices, m, e.target, dist0[m], alt) by {
            assert es[k].target == e.target;
          }
          dist := dist[e.target := alt];
          prev := prev[e.target := Some(m)];
        }
        k := k + 1;
      }
    }
  }

  /**
   * The loop of `findEulerianPath` from `start` and the final reversal of
   * the collected path.
   */
  method Hierholzer(vs: seq<Vertex>, directed: bool, start: nat) returns (r: seq<nat>)
    requires |vs| > 0 && WellFormed(vs) && (|OddVertices(vs)| == 0 || |OddVertices(vs)| == 2)
    requires !directed ==> Paired(Lists(vs))
    requires start == EulerStart(vs)
    ensures |r| > 0 && r[0] == start && AllBelow(r, |vs|)
    ensures directed ==> |r| - 1 <= SumLengths(Lists(vs))
    ensures !directed ==> 2 * (|r| - 1) <= SumLengths(Lists(vs))
    ensures !directed ==> r[|r| - 1] == EulerEnd(vs) && forall i :: 0 <= i < |r| - 1 ==> Adj(vs, r[i], r[i + 1])
    ensures !directed ==> forall u, v :: 0 <= u < |vs| && 0 <= v < |vs| ==>
              Traversals(r, u, v) + Traversals(r, v, u) <= CountTo(vs[u].edges, v)
  {
    var copy := Lists(vs);
    var stack: seq<nat> := [start];
    var path: seq<nat> := [];
    ghost var a: nat := 0;
    ghost var popped: nat := 0;
    EulerInit(vs, directed, start, copy, stack, path);
    while |stack| > 0
      invariant EulerInv(vs, directed, start, copy, stack, path, a, popped)
      decreases 2 * SumLengths(copy) + |stack|
    {
      copy, stack, path, a, popped := EulerStep(vs, directed, start, copy, stack, path, a, popped);
    }
    EulerDone(vs, directed, start, copy, stack, path, a, popped);
    r := Reverse(path);
  }

  /**
   * One round of the loop of `findEulerianPath`: when the top vertex still
   * has records in the copy, take one and push its target; otherwise move
   * the top to the path.
   */
  method EulerStep(vs: seq<Vertex>, directed: bool, start: nat, copy: seq<seq<Edge>>, stack: seq<nat>, path: seq<nat>,
                   ghost a: nat, ghost popped: nat)
    returns (copy': seq<seq<Edge>>, stack': seq<nat>, path': seq<nat>, ghost a': nat, ghost popped': nat)
    requires EulerInv(vs, directed, start, copy, stack, path, a, popped) && |stack| > 0
    ensures EulerInv(vs, directed, start, copy', stack', path', a', popped')
    ensures 2 * SumLengths(copy') + |stack'| < 2 * SumLengths(copy) + |stack|
  {
    var top := stack[|stack| - 1];
    var es := copy[top];
    if |es| > 0 {
      SubListTarget(vs, copy, top, |es| - 1);
      var x;
      copy', x := TakeRecord(directed, copy, top);
      stack', path', a', popped' := stack + [x], path, a, popped + 1;
    } else {
      copy', stack', path' := copy, stack[..|stack| - 1], path + [top];
      a', popped' := if |stack| > 1 then |stack| - 2 else 0, popped;
    }
    StepKeeps(vs, directed, start, copy, stack, path, a, popped, copy', stack', path', a', popped');
  }

  /**
   * The push step of `findEulerianPath`: pop the last record `top -> x` of
   * the top vertex's working copy and, for an undirected graph, splice out
   * of `x`'s copy the first record back to `top` when there is one. Returns
   * the new copy and the vertex `x` to push; which record is taken decides
   * which Eulerian path comes out.
   */
  method TakeRecord(directed: bool, copy: seq<seq<Edge>>, top: nat) returns (copy': seq<seq<Edge>>, x: nat)
    requires top < |copy| && |copy[top]| > 0 && copy[top][|copy[top]| - 1].target < |copy|
    ensures x == copy[top][|copy[top]| - 1].target
    ensures copy' == Take(directed, copy, top)
  {
    var es := copy[top];
    x := es[|es| - 1].target;
    copy' := copy[top := es[..|es| - 1]];
    if !directed {
      var nb := copy'[x];
      var idx := FirstIndexTo(nb, top);
      if idx.Some? {
        copy' := copy'[x := nb[..idx.value] + nb[idx.value + 1..]];
      }
    }
  }

  /**
   * The scan of `dijkstra` for the vertex to extract: the first remaining
   * vertex whose distance is strictly smaller than that of every remaining
   * vertex before it and no larger than any after it.
   */
  method ExtractMin(dist: seq<Dist>, rem: seq<nat>) returns (idx: nat)
    requires |rem| > 0 && forall i :: 0 <= i < |rem| ==> rem[i] < |dist|
    ensures idx < |rem|
    ensures forall j :: 0 <= j < |rem| ==> AtMost(dist[rem[idx]], dist[rem[j]])
    ensures forall j :: 0 <= j < idx ==> Less(dist[rem[idx]], dist[rem[j]])
  {
    idx := 0;
    var i := 1;
    while i < |rem|
      invariant 1 <= i <= |rem| && idx < i
      invariant forall j :: 0 <= j < i ==> AtMost(dist[rem[idx]], dist[rem[j]])
      invariant forall j :: 0 <= j < idx ==> Less(dist[rem[idx]], dist[rem[j]])
    {
      if Less(dist[rem[i]], dist[rem[idx]]) {
        idx := i;
      }
      i := i + 1;
    }
  }

  /**
   * The inner loop of `bfs`: walks one adjacency list in order and marks and
   * enqueues each target not seen before. Returns the new visited set and the
   * vertices enqueued, in the order their first records appear in the list.
   */
  method EnqueueUnvisited(es: seq<Edge>, visited: set<nat>) returns (visited': set<nat>, added: seq<nat>)
    ensures Distinct(added)
    ensures forall x :: x in added ==> x !in visited && HasEdgeTo(es, x)
    ensures forall x :: x in visited' <==> x in visited || x in added
    ensures forall k :: 0 <= k < |es| ==> es[k].target in visited'
    ensures forall p, q :: 0 <= p < q < |added| ==> FirstSeenBefore(es, added[p], added[q])
  {
    visited' := visited;
    added := [];
    var i := 0;
    while i < |es|
      invariant 0 <= i <= |es|
      invariant Distinct(added)
      invariant forall x :: x in added ==> x !in visited && HasEdgeTo(es, x)
      invariant forall x :: x in visited' <==> x in visited || x in added
      invariant forall k :: 0 <= k < i ==> es[k].target in visited'
      invariant forall p :: 0 <= p < |added| ==> FirstIndexTo(es, added[p]).Some? && FirstIndexTo(es, added[p]).value < i
      invariant forall p, q :: 0 <= p < q < |added| ==> FirstSeenBefore(es, added[p], added[q])
    {
      var w := es[i].target;
      if w !in visited' {
        assert FirstIndexTo(es, w) == Some(i) by {
          assert HasEdgeTo(es, w);
          assert forall k :: 0 <= k < i ==> es[k].target != w;
        }
        visited' := visited' + {w};
        added := added + [w];
      }
      i := i + 1;
    }
  }
}
