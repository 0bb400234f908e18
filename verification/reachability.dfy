/**
 * Reachability by hop count, the specification of the two traversals.
 */
module Reachability {
  import opened Common
  import opened GraphModel

  /** `v` can be reached from `s` by following at most `k` adjacency records. */
  ghost predicate Within(vs: seq<Vertex>, s: nat, k: nat, v: nat)
    decreases k
  {
    if k == 0 then v == s
    else Within(vs, s, k - 1, v) || exists u: nat :: Within(vs, s, k - 1, u) && Adj(vs, u, v)
  }

  /** `v` can be reached from `s` by following adjacency records. */
  ghost predicate Reachable(vs: seq<Vertex>, s: nat, v: nat) {
    exists k: nat :: Within(vs, s, k, v)
  }

  /** `v` is exactly `d` hops away from `s`: reachable within `d` hops, not within `d - 1`. */
  ghost predicate AtDistance(vs: seq<Vertex>, s: nat, v: nat, d: nat) {
    Within(vs, s, d, v) && (d == 0 || !Within(vs, s, d - 1, v))
  }

  /** Every record leaving a vertex of `seen` (a vertex-indexed membership set) targets a vertex of `seen`. */
  ghost predicate Closed(vs: seq<Vertex>, seen: set<nat>) {
    forall u, k :: u in seen && u < |vs| && 0 <= k < |vs[u].edges| ==> vs[u].edges[k].target in seen
  }

  lemma {:induction false} WithinMono(vs: seq<Vertex>, s: nat, k1: nat, k2: nat, v: nat)
    requires k1 <= k2 && Within(vs, s, k1, v)
    ensures Within(vs, s, k2, v)
    decreases k2
  {
    if k1 < k2 {
      WithinMono(vs, s, k1, k2 - 1, v);
    }
  }

  lemma WithinStep(vs: seq<Vertex>, s: nat, k: nat, u: nat, v: nat)
    requires Within(vs, s, k, u) && Adj(vs, u, v)
    ensures Within(vs, s, k + 1, v)
  {
  }

  /** A set containing `s` and closed under the records holds every vertex reachable from `s`. */
  lemma {:induction false} ClosedHoldsWithin(vs: seq<Vertex>, s: nat, seen: set<nat>, k: nat, v: nat)
    requires s in seen && Closed(vs, seen) && Within(vs, s, k, v)
    ensures v in seen
    decreases k
  {
    if k > 0 {
      if Within(vs, s, k - 1, v) {
        ClosedHoldsWithin(vs, s, seen, k - 1, v);
      } else {
        var u: nat :| Within(vs, s, k - 1, u) && Adj(vs, u, v);
        ClosedHoldsWithin(vs, s, seen, k - 1, u);
        var i :| 0 <= i < |vs[u].edges| && vs[u].edges[i].target == v;
      }
    }
  }

  lemma ClosedHoldsReachable(vs: seq<Vertex>, s: nat, seen: set<nat>, v: nat)
    requires s in seen && Closed(vs, seen) && Reachable(vs, s, v)
    ensures v in seen
  {
    var k: nat :| Within(vs, s, k, v);
    ClosedHoldsWithin(vs, s, seen, k, v);
  }

  /** The hop distance is unique: a vertex at distance `d` is within `k` hops exactly when `d <= k`. */
  lemma DistanceBound(vs: seq<Vertex>, s: nat, v: nat, d: nat, k: nat)
    requires AtDistance(vs, s, v, d)
    ensures Within(vs, s, k, v) <==> d <= k
  {
    if d <= k {
      WithinMono(vs, s, d, k, v);
    } else if Within(vs, s, k, v) {
      WithinMono(vs, s, k, d - 1, v);
    }
  }

  /**
   * The step of breadth-first search that moves to the next level: when every
   * vertex within `d` hops has been seen, every seen vertex of level at most `d`
   * has been expanded, and the levels of the seen vertices are exact, then every
   * vertex within `d + 1` hops has been seen.
   */
  lemma NextLevelSeen(vs: seq<Vertex>, s: nat, seen: seq<nat>, lv: seq<nat>, done: nat, d: nat)
    requires |lv| == |seen| && done <= |seen|
    requires forall p :: 0 <= p < |seen| ==> AtDistance(vs, s, seen[p], lv[p])
    requires forall p :: done <= p < |seen| ==> lv[p] > d
    requires forall v :: Within(vs, s, d, v) ==> v in seen
    requires forall p, k :: 0 <= p < done && seen[p] < |vs| && 0 <= k < |vs[seen[p]].edges| ==> vs[seen[p]].edges[k].target in seen
    ensures forall v :: Within(vs, s, d + 1, v) ==> v in seen
  {
    forall v | Within(vs, s, d + 1, v) ensures v in seen {
      if !Within(vs, s, d, v) {
        var u: nat :| Within(vs, s, d, u) && Adj(vs, u, v);
        var p :| 0 <= p < |seen| && seen[p] == u;
        DistanceBound(vs, s, u, lv[p], d);
        var i :| 0 <= i < |vs[u].edges| && vs[u].edges[i].target == v;
      }
    }
  }

  /** The hop distances `lv` followed by `m` entries at distance `d`: the newly enqueued vertices. */
  function NextLevel(lv: seq<nat>, m: nat, d: nat): seq<nat>
  {
    lv + seq(m, _ => d)
  }

  /**
   * The state of breadth-first search: `seen` lists every vertex ever
   * enqueued (the first `head` of them already dequeued and expanded), `lv`
   * their exact hop distances, non-decreasing and spanning at most one level
   * over the queue, and everything within the front's level has been seen.
   */
  ghost predicate BfsInv(vs: seq<Vertex>, s: nat, seen: seq<nat>, lv: seq<nat>, head: nat, visited: set<nat>) {
    && head <= |seen| && |seen| > 0 && seen[0] == s
    && (forall x :: x in visited <==> x in seen)
    && Distinct(seen)
    && (forall p :: 0 <= p < |seen| ==> seen[p] < |vs|)
    && |lv| == |seen|
    && (forall p :: 0 <= p < |seen| ==> AtDistance(vs, s, seen[p], lv[p]))
    && (forall p, q :: 0 <= p <= q < |lv| ==> lv[p] <= lv[q])
    && (head < |seen| ==> lv[|lv| - 1] <= lv[head] + 1)
    && (head < |seen| ==> forall v :: Within(vs, s, lv[head], v) ==> v in visited)
    && (forall p, k :: 0 <= p < head && 0 <= k < |vs[seen[p]].edges| ==> vs[seen[p]].edges[k].target in visited)
  }

  /** Before the first dequeue only the start is enqueued, at distance zero. */
  lemma BfsInit(vs: seq<Vertex>, s: nat)
    requires s < |vs|
    ensures BfsInv(vs, s, [s], [0], 0, {s})
  {
    assert AtDistance(vs, s, s, 0);
    forall v | Within(vs, s, 0, v) ensures v in {s} {
    }
  }

  /** No vertex is enqueued twice, so at most every vertex is. */
  lemma BfsSeenBound(vs: seq<Vertex>, s: nat, seen: seq<nat>, lv: seq<nat>, head: nat, visited: set<nat>)
    requires BfsInv(vs, s, seen, lv, head, visited)
    ensures |seen| <= |vs|
  {
    DistinctBound(seen, |vs|);
  }

  /** Dequeuing the front vertex and enqueuing its unseen targets keeps the invariant. */
  lemma BfsStep(vs: seq<Vertex>, s: nat, seen: seq<nat>, lv: seq<nat>, head: nat, visited: set<nat>,
                visited': set<nat>, added: seq<nat>)
    requires WellFormed(vs) && BfsInv(vs, s, seen, lv, head, visited) && head < |seen|
    requires Distinct(added)
    requires forall x :: x in added ==> x !in visited && HasEdgeTo(vs[seen[head]].edges, x)
    requires forall x :: x in visited' <==> x in visited || x in added
    requires forall k :: 0 <= k < |vs[seen[head]].edges| ==> vs[seen[head]].edges[k].target in visited'
    ensures BfsInv(vs, s, seen + added, NextLevel(lv, |added|, lv[head] + 1), head + 1, visited')
  {
    var d := lv[head];
    var seen' := seen + added;
    var lv' := NextLevel(lv, |added|, d + 1);
    StepDistances(vs, s, seen, lv, head, visited, added);
    DistinctAppend(seen, added);
    StepLevels(lv, head, |added|);
    assert forall x :: x in visited' <==> x in seen';
    if head + 1 < |seen'| && lv'[head + 1] != d {
      NextLevelSeen(vs, s, seen', lv', head + 1, d);
    }
    StepProcessed(vs, seen, head, visited, visited', added);
  }

  /** After the step the targets of every dequeued vertex, the new one included, are visited. */
  lemma StepProcessed(vs: seq<Vertex>, seen: seq<nat>, head: nat, visited: set<nat>, visited': set<nat>, added: seq<nat>)
    requires head < |seen| && visited <= visited'
    requires forall p :: 0 <= p < |seen| ==> seen[p] < |vs|
    requires forall p, k :: 0 <= p < head && 0 <= k < |vs[seen[p]].edges| ==> vs[seen[p]].edges[k].target in visited
    requires forall k :: 0 <= k < |vs[seen[head]].edges| ==> vs[seen[head]].edges[k].target in visited'
    ensures forall p, k :: 0 <= p < head + 1 && 0 <= k < |vs[(seen + added)[p]].edges| ==> vs[(seen + added)[p]].edges[k].target in visited'
  {
    forall p, k | 0 <= p < head + 1 && 0 <= k < |vs[(seen + added)[p]].edges| ensures vs[(seen + added)[p]].edges[k].target in visited' {
      assert (seen + added)[p] == seen[p];
    }
  }

  lemma StepDistances(vs: seq<Vertex>, s: nat, seen: seq<nat>, lv: seq<nat>, head: nat, visited: set<nat>, added: seq<nat>)
    requires WellFormed(vs) && BfsInv(vs, s, seen, lv, head, visited) && head < |seen|
    requires forall x :: x in added ==> x !in visited && HasEdgeTo(vs[seen[head]].edges, x)
    ensures var seen', lv' := seen + added, NextLevel(lv, |added|, lv[head] + 1);
      && |lv'| == |seen'|
      && (forall p :: 0 <= p < |seen'| ==> AtDistance(vs, s, seen'[p], lv'[p]) && seen'[p] < |vs|)
  {
    var u := seen[head];
    var d := lv[head];
    var seen' := seen + added;
    var lv' := NextLevel(lv, |added|, d + 1);
    forall w | w in added ensures AtDistance(vs, s, w, d + 1) && w < |vs| {
      assert Adj(vs, u, w);
      WithinStep(vs, s, d, u, w);
      var k :| 0 <= k < |vs[u].edges| && vs[u].edges[k].target == w;
    }
    forall p | 0 <= p < |seen'| ensures AtDistance(vs, s, seen'[p], lv'[p]) && seen'[p] < |vs| {
      if p < |seen| {
        assert seen'[p] == seen[p] && lv'[p] == lv[p];
      } else {
        var w := added[p - |seen|];
        assert seen'[p] == w && w in added && lv'[p] == d + 1;
      }
    }
  }

  /** Appending the next level's entries keeps the levels sorted and within one of the new front. */
  lemma StepLevels(lv: seq<nat>, head: nat, m: nat)
    requires head < |lv|
    requires forall p, q :: 0 <= p <= q < |lv| ==> lv[p] <= lv[q]
    requires lv[|lv| - 1] <= lv[head] + 1
    ensures var lv' := NextLevel(lv, m, lv[head] + 1);
      && (forall p, q :: 0 <= p <= q < |lv'| ==> lv'[p] <= lv'[q])
      && (head + 1 < |lv'| ==> lv'[|lv'| - 1] <= lv'[head + 1] + 1 && lv[head] <= lv'[head + 1] <= lv[head] + 1)
  {
    var lv' := NextLevel(lv, m, lv[head] + 1);
    assert forall p :: 0 <= p < |lv| ==> lv'[p] == lv[p] <= lv[head] + 1;
    assert forall p :: |lv| <= p < |lv'| ==> lv'[p] == lv[head] + 1;
  }

  /**
   * When the queue is empty the seen vertices are exactly the reachable ones,
   * listed in non-decreasing hop distance.
   */
  lemma BfsDone(vs: seq<Vertex>, s: nat, seen: seq<nat>, lv: seq<nat>, visited: set<nat>)
    requires BfsInv(vs, s, seen, lv, |seen|, visited)
    ensures |seen| > 0 && seen[0] == s && Distinct(seen)
    ensures forall v :: v in seen <==> Reachable(vs, s, v)
    ensures forall i, j, k :: 0 <= i < j < |seen| && Within(vs, s, k, seen[j]) ==> Within(vs, s, k, seen[i])
  {
    assert Closed(vs, visited) by {
      forall u, k | u in visited && u < |vs| && 0 <= k < |vs[u].edges| ensures vs[u].edges[k].target in visited {
        var p :| 0 <= p < |seen| && seen[p] == u;
      }
    }
    forall v | Reachable(vs, s, v) ensures v in seen {
      ClosedHoldsReachable(vs, s, visited, v);
    }
    forall v | v in seen ensures Reachable(vs, s, v) {
      var p :| 0 <= p < |seen| && seen[p] == v;
      assert Within(vs, s, lv[p], v);
    }
    forall i, j, k | 0 <= i < j < |seen| && Within(vs, s, k, seen[j]) ensures Within(vs, s, k, seen[i]) {
      DistanceBound(vs, s, seen[j], lv[j], k);
      DistanceBound(vs, s, seen[i], lv[i], k);
    }
  }

  // ---- Depth-first search ----

  /**
   * `v` can be reached from `s` within `k` hops along a path none of whose
   * vertices, `s` and `v` included, lies in `avoid`.
   */
  ghost predicate WithinAvoiding(vs: seq<Vertex>, s: nat, k: nat, v: nat, avoid: set<nat>)
    decreases k
  {
    if k == 0 then v == s && s !in avoid
    else WithinAvoiding(vs, s, k - 1, v, avoid)
         || (v !in avoid && exists u: nat :: WithinAvoiding(vs, s, k - 1, u, avoid) && Adj(vs, u, v))
  }

  /** `v` can be reached from `s` along a path that avoids `avoid`. */
  ghost predicate ReachableAvoiding(vs: seq<Vertex>, s: nat, v: nat, avoid: set<nat>) {
    exists k: nat :: WithinAvoiding(vs, s, k, v, avoid)
  }

  /** Some element of `pre` has a record targeting `v`. */
  ghost predicate HasParentIn(vs: seq<Vertex>, pre: seq<nat>, v: nat) {
    exists q :: 0 <= q < |pre| && Adj(vs, pre[q], v)
  }

  /** Every element of `s` after the first is a target of some element before it. */
  ghost predicate HasTreeParents(vs: seq<Vertex>, s: seq<nat>) {
    forall p :: 0 < p < |s| ==> HasParentIn(vs, s[..p], s[p])
  }

  /** Every record leaving an element of `s` from position `from` on targets a vertex of `marked`. */
  ghost predicate Expanded(vs: seq<Vertex>, s: seq<nat>, from: nat, marked: set<nat>) {
    forall p, j :: from <= p < |s| && s[p] < |vs| && 0 <= j < |vs[s[p]].edges| ==> vs[s[p]].edges[j].target in marked
  }

  /** The elements of `s` before position `p`. */
  ghost function Before(s: seq<nat>, p: nat): set<nat>
    requires p <= |s|
  {
    set q | 0 <= q < p :: s[q]
  }

  /**
   * From position `from` on, each element of `block` reaches, along paths
   * avoiding `visited` and the elements before it, only elements after it.
   */
  ghost predicate SubtreeAfter(vs: seq<Vertex>, visited: set<nat>, block: seq<nat>, from: nat) {
    forall p, x :: from <= p < |block| && ReachableAvoiding(vs, block[p], x, visited + Before(block, p)) ==> x in block[p..]
  }

  /**
   * From position `from` on, what each element of `block` reaches along paths
   * avoiding `visited` and the elements before it occupies consecutive
   * positions: reaching a later element means reaching all in between.
   */
  ghost predicate SubtreeContiguous(vs: seq<Vertex>, visited: set<nat>, block: seq<nat>, from: nat) {
    forall p, q, r :: from <= p <= r <= q < |block| && ReachableAvoiding(vs, block[p], block[q], visited + Before(block, p))
      ==> ReachableAvoiding(vs, block[p], block[r], visited + Before(block, p))
  }

  /** Positions inside `a` see the same earlier elements in `a + b`. */
  lemma BeforeLeft(a: seq<nat>, b: seq<nat>, p: nat)
    requires p <= |a|
    ensures Before(a + b, p) == Before(a, p)
  {
    assert forall q :: 0 <= q < p ==> (a + b)[q] == a[q];
  }

  /** Positions inside `b` see all of `a` and the earlier elements of `b`. */
  lemma BeforeRight(visited: set<nat>, a: seq<nat>, marked: set<nat>, b: seq<nat>, p: nat)
    requires forall x :: x in marked <==> x in visited || x in a
    requires |a| <= p <= |a| + |b|
    ensures visited + Before(a + b, p) == marked + Before(b, p - |a|)
  {
    var s := a + b;
    var p' := p - |a|;
    forall y | y in visited + Before(s, p) ensures y in marked + Before(b, p') {
      if y !in visited {
        var q :| 0 <= q < p && s[q] == y;
        if q >= |a| {
          assert b[q - |a|] == y;
        } else {
          assert a[q] == y;
        }
      }
    }
    forall y | y in marked + Before(b, p') ensures y in visited + Before(s, p) {
      if y in Before(b, p') {
        var q :| 0 <= q < p' && b[q] == y;
        assert s[q + |a|] == y;
      } else if y !in visited {
        assert y in a;
        var q :| 0 <= q < |a| && a[q] == y;
        assert s[q] == y;
      }
    }
  }

  /**
   * Gluing the block of a finished descent onto the block of `dfsRecursive(u)`
   * keeps the subtree of every element after `u` confined and contiguous.
   */
  lemma SubtreesAppend(vs: seq<Vertex>, visited: set<nat>, block: seq<nat>, marked: set<nat>, child: seq<nat>)
    requires |block| > 0
    requires forall x :: x in marked <==> x in visited || x in block
    requires forall p :: 0 <= p < |child| ==> child[p] !in marked
    requires SubtreeAfter(vs, visited, block, 1) && SubtreeContiguous(vs, visited, block, 1)
    requires SubtreeAfter(vs, marked, child, 0) && SubtreeContiguous(vs, marked, child, 0)
    ensures SubtreeAfter(vs, visited, block + child, 1) && SubtreeContiguous(vs, visited, block + child, 1)
  {
    AfterAppend(vs, visited, block, marked, child);
    ContiguousAppend(vs, visited, block, marked, child);
  }

  lemma AfterAppend(vs: seq<Vertex>, visited: set<nat>, block: seq<nat>, marked: set<nat>, child: seq<nat>)
    requires forall x :: x in marked <==> x in visited || x in block
    requires SubtreeAfter(vs, visited, block, 1) && SubtreeAfter(vs, marked, child, 0)
    ensures SubtreeAfter(vs, visited, block + child, 1)
  {
    var s := block + child;
    forall p, x | 1 <= p < |s| && ReachableAvoiding(vs, s[p], x, visited + Before(s, p)) ensures x in s[p..] {
      if p < |block| {
        BeforeLeft(block, child, p);
        assert s[p] == block[p];
        assert x in block[p..];
        assert s[p..] == block[p..] + child;
      } else {
        var p' := p - |block|;
        BeforeRight(visited, block, marked, child, p);
        assert s[p] == child[p'];
        assert x in child[p'..];
        assert s[p..] == child[p'..];
      }
    }
  }

  lemma ContiguousAppend(vs: seq<Vertex>, visited: set<nat>, block: seq<nat>, marked: set<nat>, child: seq<nat>)
    requires forall x :: x in marked <==> x in visited || x in block
    requires forall p :: 0 <= p < |child| ==> child[p] !in marked
    requires SubtreeAfter(vs, visited, block, 1) && SubtreeContiguous(vs, visited, block, 1)
    requires SubtreeContiguous(vs, marked, child, 0)
    ensures SubtreeContiguous(vs, visited, block + child, 1)
  {
    var s := block + child;
    forall p, q, r | 1 <= p <= r <= q < |s|
      ensures ReachableAvoiding(vs, s[p], s[q], visited + Before(s, p)) ==> ReachableAvoiding(vs, s[p], s[r], visited + Before(s, p))
    {
      if p >= |block| {
        BeforeRight(visited, block, marked, child, p);
        assert s[p] == child[p - |block|] && s[q] == child[q - |block|] && s[r] == child[r - |block|];
      } else if q >= |block| {
        BeforeLeft(block, child, p);
        assert s[p] == block[p] && s[q] == child[q - |block|];
        assert s[q] !in block[p..];
      } else {
        BeforeLeft(block, child, p);
        assert s[p] == block[p] && s[q] == block[q] && s[r] == block[r];
      }
    }
  }

  /**
   * When `u` reaches, while avoiding `visited`, exactly the vertices of its
   * block, the subtree properties extend from the elements after `u` to `u`.
   */
  lemma SubtreesFromStart(vs: seq<Vertex>, visited: set<nat>, block: seq<nat>)
    requires |block| > 0 && forall x :: x in block <==> ReachableAvoiding(vs, block[0], x, visited)
    requires SubtreeAfter(vs, visited, block, 1) && SubtreeContiguous(vs, visited, block, 1)
    ensures SubtreeAfter(vs, visited, block, 0) && SubtreeContiguous(vs, visited, block, 0)
  {
    assert visited + Before(block, 0) == visited;
    assert block[0..] == block;
  }

  /** Avoiding nothing is plain hop reachability. */
  lemma {:induction false} AvoidingNothing(vs: seq<Vertex>, s: nat, k: nat, v: nat)
    ensures WithinAvoiding(vs, s, k, v, {}) <==> Within(vs, s, k, v)
    decreases k
  {
    if k > 0 {
      var j := k - 1;
      AvoidingNothing(vs, s, j, v);
      forall u: nat ensures WithinAvoiding(vs, s, j, u, {}) <==> Within(vs, s, j, u) {
        AvoidingNothing(vs, s, j, u);
      }
    }
  }

  /**
   * The block that depth-first search visits from `s` holds every vertex
   * reachable from `s` while avoiding the vertices visited before: the block
   * contains `s`, and every record leaving it lands in the block or in `visited`.
   */
  lemma {:induction false} ClosedHoldsAvoiding(vs: seq<Vertex>, s: nat, block: seq<nat>, visited: set<nat>,
                                               marked: set<nat>, k: nat, v: nat)
    requires s in block && Expanded(vs, block, 0, marked)
    requires forall x :: x in marked ==> x in visited || x in block
    requires WithinAvoiding(vs, s, k, v, visited)
    ensures v in block
    decreases k
  {
    if k > 0 {
      if WithinAvoiding(vs, s, k - 1, v, visited) {
        ClosedHoldsAvoiding(vs, s, block, visited, marked, k - 1, v);
      } else {
        var u: nat :| WithinAvoiding(vs, s, k - 1, u, visited) && Adj(vs, u, v);
        ClosedHoldsAvoiding(vs, s, block, visited, marked, k - 1, u);
        var p :| 0 <= p < |block| && block[p] == u;
        var j :| 0 <= j < |vs[u].edges| && vs[u].edges[j].target == v;
        assert vs[block[p]].edges[j].target in marked;
      }
    }
  }

  /** Following tree parents back to the first element gives a path that avoids `visited`. */
  lemma {:induction false} TreeReaches(vs: seq<Vertex>, block: seq<nat>, visited: set<nat>, i: nat)
    requires HasTreeParents(vs, block) && i < |block|
    requires forall p :: 0 <= p < |block| ==> block[p] !in visited
    ensures ReachableAvoiding(vs, block[0], block[i], visited)
    decreases i
  {
    if i == 0 {
      assert WithinAvoiding(vs, block[0], 0, block[0], visited);
    } else {
      assert HasParentIn(vs, block[..i], block[i]);
      var q :| 0 <= q < i && Adj(vs, block[..i][q], block[i]);
      assert block[..i][q] == block[q];
      TreeReaches(vs, block, visited, q);
      var k: nat :| WithinAvoiding(vs, block[0], k, block[q], visited);
      assert WithinAvoiding(vs, block[0], k + 1, block[i], visited);
    }
  }

  /** Appending a block whose first element is a target of the first element keeps tree parents. */
  lemma TreeAppend(vs: seq<Vertex>, block: seq<nat>, child: seq<nat>)
    requires HasTreeParents(vs, block) && HasTreeParents(vs, child)
    requires |block| > 0 && |child| > 0 && Adj(vs, block[0], child[0])
    ensures HasTreeParents(vs, block + child)
  {
    var s := block + child;
    forall p | 0 < p < |s| ensures HasParentIn(vs, s[..p], s[p]) {
      if p < |block| {
        assert HasParentIn(vs, block[..p], block[p]);
        var q :| 0 <= q < p && Adj(vs, block[..p][q], block[p]);
        assert s[..p][q] == block[..p][q] && s[p] == block[p];
      } else if p == |block| {
        assert s[..p][0] == block[0] && s[p] == child[0];
      } else {
        var p' := p - |block|;
        assert HasParentIn(vs, child[..p'], child[p']);
        var q :| 0 <= q < p' && Adj(vs, child[..p'][q], child[p']);
        assert s[..p][q + |block|] == child[..p'][q] && s[p] == child[p'];
      }
    }
  }

  /** Gluing a child block onto a block keeps every record of both expanded into the larger marked set. */
  lemma ExpandedAppend(vs: seq<Vertex>, block: seq<nat>, child: seq<nat>, marked: set<nat>, marked': set<nat>)
    requires |block| > 0 && Expanded(vs, block, 1, marked) && marked <= marked'
    requires Expanded(vs, child, 0, marked')
    ensures Expanded(vs, block + child, 1, marked')
  {
    var s := block + child;
    forall p, j | 1 <= p < |s| && s[p] < |vs| && 0 <= j < |vs[s[p]].edges| ensures vs[s[p]].edges[j].target in marked' {
      if p < |block| {
        assert s[p] == block[p];
      } else {
        assert s[p] == child[p - |block|];
      }
    }
  }

  /**
   * The state of `dfsRecursive(u)` after its loop has handled the first `i`
   * records of `u`: `block` is what the call has visited so far, `marked` the
   * marked set, and every record handled so far and every record of a vertex
   * visited by a finished descent lands in `marked`.
   */
  ghost predicate DfsLoopInv(vs: seq<Vertex>, u: nat, visited: set<nat>, i: nat, marked: set<nat>, block: seq<nat>) {
    && u < |vs| && i <= |vs[u].edges|
    && |block| > 0 && block[0] == u && Distinct(block)
    && (forall p :: 0 <= p < |block| ==> block[p] !in visited && block[p] < |vs|)
    && (forall x :: x in marked <==> x in visited || x in block)
    && (forall k :: 0 <= k < i ==> vs[u].edges[k].target in marked)
    && Expanded(vs, block, 1, marked)
    && HasTreeParents(vs, block)
  }

  /** A descent into the unmarked target of record `i` keeps the loop state of `dfsRecursive(u)`. */
  lemma DfsDescend(vs: seq<Vertex>, u: nat, visited: set<nat>, i: nat, marked: set<nat>, block: seq<nat>,
                   marked': set<nat>, child: seq<nat>)
    requires DfsLoopInv(vs, u, visited, i, marked, block) && i < |vs[u].edges|
    requires |child| > 0 && child[0] == vs[u].edges[i].target && Distinct(child)
    requires forall p :: 0 <= p < |child| ==> child[p] !in marked && child[p] < |vs|
    requires forall x :: x in marked' <==> x in marked || x in child
    requires Expanded(vs, child, 0, marked') && HasTreeParents(vs, child)
    ensures DfsLoopInv(vs, u, visited, i + 1, marked', block + child)
  {
    assert Adj(vs, block[0], child[0]);
    TreeAppend(vs, block, child);
    DistinctAppend(block, child);
    ExpandedAppend(vs, block, child, marked, marked');
    var s := block + child;
    forall p | 0 <= p < |s| ensures s[p] !in visited && s[p] < |vs| {
      if p >= |block| {
        assert s[p] == child[p - |block|];
      }
    }
  }

  /** A record whose target is already marked is skipped. */
  lemma DfsSkip(vs: seq<Vertex>, u: nat, visited: set<nat>, i: nat, marked: set<nat>, block: seq<nat>)
    requires DfsLoopInv(vs, u, visited, i, marked, block) && i < |vs[u].edges|
    requires vs[u].edges[i].target in marked
    ensures DfsLoopInv(vs, u, visited, i + 1, marked, block)
  {
  }

  /** Marking and visiting `u` starts the loop state of `dfsRecursive(u)`. */
  lemma DfsStart(vs: seq<Vertex>, u: nat, visited: set<nat>)
    requires u < |vs| && u !in visited
    ensures DfsLoopInv(vs, u, visited, 0, visited + {u}, [u])
  {
  }

  /** Once every record of `u` is handled, the block is exactly what `u` reaches while avoiding `visited`. */
  lemma DfsFinish(vs: seq<Vertex>, u: nat, visited: set<nat>, marked: set<nat>, block: seq<nat>)
    requires u < |vs| && DfsLoopInv(vs, u, visited, |vs[u].edges|, marked, block)
    ensures Expanded(vs, block, 0, marked)
    ensures forall x :: x in block <==> ReachableAvoiding(vs, u, x, visited)
  {
    forall x | ReachableAvoiding(vs, u, x, visited) ensures x in block {
      var k: nat :| WithinAvoiding(vs, u, k, x, visited);
      ClosedHoldsAvoiding(vs, u, block, visited, marked, k, x);
    }
    forall p | 0 <= p < |block| ensures ReachableAvoiding(vs, u, block[p], visited) {
      TreeReaches(vs, block, visited, p);
    }
  }
}
