/**
 * Weighted walks and tentative distances, the specification of Dijkstra's
 * shortest-path computation.
 */
module Paths {
  import opened Common
  import opened GraphModel

  /** A tentative distance: a finite total weight or `Infinity`. */
  datatype Dist = Fin(d: nat) | Inf

  /** JavaScript's `<` on a number-or-Infinity: `Infinity < x` is always false. */
  predicate Less(a: Dist, b: Dist) {
    a.Fin? && (b.Inf? || a.d < b.d)
  }

  /** `a <= b`, that is, not `b < a`. */
  predicate AtMost(a: Dist, b: Dist) {
    !Less(b, a)
  }

  /** `a + w`, where `Infinity + w` stays `Infinity`. */
  function Plus(a: Dist, w: nat): (r: Dist)
    ensures r.Fin? <==> a.Fin?
    ensures r.Fin? ==> r.d == a.d + w
  {
    if a.Fin? then Fin(a.d + w) else Inf
  }

  /** `es` is a walk from `s` to `t`: each record belongs to the adjacency list of the vertex reached so far. */
  ghost predicate IsWalk(vs: seq<Vertex>, s: nat, es: seq<Edge>, t: nat)
    decreases |es|
  {
    if es == [] then s == t
    else s < |vs| && es[0] in vs[s].edges && IsWalk(vs, es[0].target, es[1..], t)
  }

  /** The total weight of a walk. */
  function Weight(es: seq<Edge>): nat
  {
    if es == [] then 0 else es[0].weight + Weight(es[1..])
  }

  /** Extending a walk to `m` by a record of `m` gives a walk to that record's target, one weight heavier. */
  lemma {:induction false} WalkAppend(vs: seq<Vertex>, s: nat, es: seq<Edge>, m: nat, e: Edge)
    requires IsWalk(vs, s, es, m) && m < |vs| && e in vs[m].edges
    ensures IsWalk(vs, s, es + [e], e.target)
    ensures Weight(es + [e]) == Weight(es) + e.weight
    decreases |es|
  {
    if es == [] {
      assert es + [e] == [e];
      assert [e][1..] == [];
    } else {
      assert (es + [e])[1..] == es[1..] + [e];
      WalkAppend(vs, es[0].target, es[1..], m, e);
    }
  }

  /**
   * Distances that no record can improve (`dist[v] <= dist[u] + w` for every
   * record `u -> v` of weight `w`) are lower bounds on the weight of every walk:
   * a walk from `u` to `t` gives `dist[t] <= dist[u] + weight`.
   */
  lemma {:induction false} RelaxedIsLowerBound(vs: seq<Vertex>, dist: seq<Dist>, u: nat, es: seq<Edge>, t: nat)
    requires |dist| == |vs| && WellFormed(vs)
    requires forall x, k :: 0 <= x < |vs| && 0 <= k < |vs[x].edges| ==>
               AtMost(dist[vs[x].edges[k].target], Plus(dist[x], vs[x].edges[k].weight))
    requires u < |vs| && dist[u].Fin? && IsWalk(vs, u, es, t)
    ensures t < |vs| && AtMost(dist[t], Fin(dist[u].d + Weight(es)))
    decreases |es|
  {
    if es != [] {
      var e := es[0];
      var k :| 0 <= k < |vs[u].edges| && vs[u].edges[k] == e;
      assert AtMost(dist[e.target], Plus(dist[u], e.weight));
      RelaxedIsLowerBound(vs, dist, e.target, es[1..], t);
    }
  }

  // ---- Dijkstra's algorithm ----

  /** A record of `p` targets `v` and `dv` is `dp` plus its weight: `v`'s distance runs through `p`. */
  predicate Tight(vs: seq<Vertex>, p: nat, v: nat, dp: Dist, dv: Dist) {
    p < |vs| && exists k :: 0 <= k < |vs[p].edges| && vs[p].edges[k].target == v && dv == Plus(dp, vs[p].edges[k].weight)
  }

  /** Some walk from `s` to `v` weighs exactly `w`. */
  ghost predicate HasWalk(vs: seq<Vertex>, s: nat, v: nat, w: nat) {
    exists es :: IsWalk(vs, s, es, v) && Weight(es) == w
  }

  /** Every finite tentative distance is the weight of some walk from `s`. */
  ghost predicate Witnessed(vs: seq<Vertex>, s: nat, dist: seq<Dist>) {
    forall v :: 0 <= v < |dist| && dist[v].Fin? ==> HasWalk(vs, s, v, dist[v].d)
  }

  /** No record leaving `x` can lower a tentative distance. */
  predicate RelaxedAt(vs: seq<Vertex>, dist: seq<Dist>, x: nat) {
    x < |vs| && x < |dist| &&
    forall k :: 0 <= k < |vs[x].edges| ==>
      vs[x].edges[k].target < |dist| && AtMost(dist[vs[x].edges[k].target], Plus(dist[x], vs[x].edges[k].weight))
  }

  /** `rem` lists distinct vertices in increasing order, as a `Set` built from the vertex list and then shrunk. */
  predicate Increasing(rem: seq<nat>, n: nat) {
    && (forall i, j :: 0 <= i < j < |rem| ==> rem[i] < rem[j])
    && (forall i :: 0 <= i < |rem| ==> rem[i] < n)
  }

  /**
   * The state of Dijkstra's main loop: `rem` holds the vertices not yet
   * extracted. Finite distances are walk weights; the records of extracted
   * vertices are relaxed; extracted vertices are no farther than remaining
   * ones; a vertex has a predecessor exactly when it is not the start and has
   * a finite distance, and the predecessor is extracted and tight.
   */
  ghost predicate DijkstraInv(vs: seq<Vertex>, s: nat, dist: seq<Dist>, prev: seq<Option<nat>>, rem: seq<nat>) {
    && WellFormed(vs) && s < |vs| && |dist| == |vs| && |prev| == |vs|
    && Increasing(rem, |vs|)
    && dist[s] == Fin(0)
    && Witnessed(vs, s, dist)
    && (forall x :: 0 <= x < |vs| && x !in rem ==> RelaxedAt(vs, dist, x))
    && (forall x, j :: 0 <= x < |vs| && x !in rem && 0 <= j < |rem| ==> AtMost(dist[x], dist[rem[j]]))
    && (forall v :: 0 <= v < |vs| ==> (prev[v].None? <==> v == s || dist[v].Inf?))
    && (forall v :: 0 <= v < |vs| && prev[v].Some? ==>
          prev[v].value < |vs| && prev[v].value !in rem && Tight(vs, prev[v].value, v, dist[prev[v].value], dist[v]))
  }

  /**
   * What relaxing the records of `m` does to the tables: `m`'s own distance
   * stays, every record of `m` is relaxed, and every entry either stays or
   * drops strictly to a value tight through `m`, with `m` as predecessor.
   */
  ghost predicate RelaxedFrom(vs: seq<Vertex>, m: nat, dist0: seq<Dist>, prev0: seq<Option<nat>>, dist: seq<Dist>, prev: seq<Option<nat>>) {
    && m < |vs| && |dist0| == |vs| && |prev0| == |vs| && |dist| == |vs| && |prev| == |vs|
    && dist[m] == dist0[m]
    && (forall k :: 0 <= k < |vs[m].edges| && vs[m].edges[k].target < |vs| ==>
          AtMost(dist[vs[m].edges[k].target], Plus(dist0[m], vs[m].edges[k].weight)))
    && (forall v :: 0 <= v < |vs| ==>
          (dist[v] == dist0[v] && prev[v] == prev0[v]) ||
          (prev[v] == Some(m) && Less(dist[v], dist0[v]) && Tight(vs, m, v, dist0[m], dist[v])))
  }

  /** Every vertex is still to be extracted; only the start has a finite distance. */
  lemma DijkstraInit(vs: seq<Vertex>, s: nat)
    requires WellFormed(vs) && s < |vs|
    ensures DijkstraInv(vs, s, seq(|vs|, _ => Inf)[s := Fin(0)], seq(|vs|, _ => None), seq(|vs|, i => i))
  {
    var dist := seq(|vs|, _ => Inf)[s := Fin(0)];
    var rem := seq(|vs|, i => i);
    assert IsWalk(vs, s, [], s);
    assert HasWalk(vs, s, s, 0);
    forall x | 0 <= x < |vs| ensures x in rem {
      assert rem[x] == x;
    }
  }

  /** Removing position `idx` from an increasing list removes exactly that vertex. */
  lemma RemoveAt(rem: seq<nat>, n: nat, idx: nat)
    requires Increasing(rem, n) && idx < |rem|
    ensures Increasing(rem[..idx] + rem[idx + 1..], n)
    ensures forall x :: x in rem[..idx] + rem[idx + 1..] <==> x in rem && x != rem[idx]
  {
    var r := rem[..idx] + rem[idx + 1..];
    forall i | 0 <= i < |r| ensures r[i] == (if i < idx then rem[i] else rem[i + 1]) {
    }
    forall x | x in rem && x != rem[idx] ensures x in r {
      var i :| 0 <= i < |rem| && rem[i] == x;
      if i < idx {
        assert r[i] == x;
      } else {
        assert r[i - 1] == x;
      }
    }
  }

  /** Relaxation never touches an extracted vertex, the vertex being extracted or the start. */
  lemma RelaxKeepsDone(vs: seq<Vertex>, s: nat, dist: seq<Dist>, prev: seq<Option<nat>>, rem: seq<nat>, idx: nat,
                       dist': seq<Dist>, prev': seq<Option<nat>>)
    requires DijkstraInv(vs, s, dist, prev, rem) && idx < |rem|
    requires RelaxedFrom(vs, rem[idx], dist, prev, dist', prev')
    ensures forall x :: 0 <= x < |vs| && (x !in rem || x == rem[idx]) ==> dist'[x] == dist[x] && prev'[x] == prev[x]
    ensures dist'[s] == Fin(0)
  {
    var m := rem[idx];
    forall x | 0 <= x < |vs| && (x !in rem || x == rem[idx]) ensures dist'[x] == dist[x] && prev'[x] == prev[x] {
      if x != m {
        assert AtMost(dist[x], dist[m]);
      }
    }
  }

  /** The walks behind the new distances: a lowered distance extends the walk to `m` by one record. */
  lemma RelaxWitnessed(vs: seq<Vertex>, s: nat, dist: seq<Dist>, prev: seq<Option<nat>>, m: nat,
                       dist': seq<Dist>, prev': seq<Option<nat>>)
    requires WellFormed(vs) && Witnessed(vs, s, dist)
    requires RelaxedFrom(vs, m, dist, prev, dist', prev')
    ensures Witnessed(vs, s, dist')
  {
    forall v | 0 <= v < |dist'| && dist'[v].Fin? ensures HasWalk(vs, s, v, dist'[v].d) {
      if dist'[v] != dist[v] {
        var k :| 0 <= k < |vs[m].edges| && vs[m].edges[k].target == v && dist'[v] == Plus(dist[m], vs[m].edges[k].weight);
        assert HasWalk(vs, s, m, dist[m].d);
        var es :| IsWalk(vs, s, es, m) && Weight(es) == dist[m].d;
        WalkAppend(vs, s, es, m, vs[m].edges[k]);
        assert IsWalk(vs, s, es + [vs[m].edges[k]], v);
      }
    }
  }

  /** After extracting `m`, the records of every extracted vertex are relaxed. */
  lemma StepRelaxed(vs: seq<Vertex>, s: nat, dist: seq<Dist>, prev: seq<Option<nat>>, rem: seq<nat>, m: nat,
                    dist': seq<Dist>, prev': seq<Option<nat>>, rem': seq<nat>)
    requires DijkstraInv(vs, s, dist, prev, rem)
    requires RelaxedFrom(vs, m, dist, prev, dist', prev')
    requires forall x :: 0 <= x < |vs| && (x !in rem || x == m) ==> dist'[x] == dist[x]
    requires forall x :: x in rem' <==> x in rem && x != m
    ensures forall x :: 0 <= x < |vs| && x !in rem' ==> RelaxedAt(vs, dist', x)
  {
    forall x | 0 <= x < |vs| && x !in rem' ensures RelaxedAt(vs, dist', x) {
      if x != m {
        assert RelaxedAt(vs, dist, x);
      }
    }
  }

  /** After extracting a minimum `m`, no extracted vertex is farther than a remaining one. */
  lemma StepNoFarther(vs: seq<Vertex>, s: nat, dist: seq<Dist>, prev: seq<Option<nat>>, rem: seq<nat>, jm: nat, m: nat,
                      dist': seq<Dist>, prev': seq<Option<nat>>, rem': seq<nat>)
    requires DijkstraInv(vs, s, dist, prev, rem) && 0 <= jm < |rem| && rem[jm] == m
    requires forall j :: 0 <= j < |rem| ==> AtMost(dist[m], dist[rem[j]])
    requires Increasing(rem', |vs|)
    requires RelaxedFrom(vs, m, dist, prev, dist', prev')
    requires forall x :: 0 <= x < |vs| && (x !in rem || x == m) ==> dist'[x] == dist[x]
    requires forall x :: x in rem' <==> x in rem && x != m
    ensures forall x, j :: 0 <= x < |vs| && x !in rem' && 0 <= j < |rem'| ==> AtMost(dist'[x], dist'[rem'[j]])
  {
    forall x, j | 0 <= x < |vs| && x !in rem' && 0 <= j < |rem'| ensures AtMost(dist'[x], dist'[rem'[j]]) {
      var y := rem'[j];
      assert y in rem';
      var jy :| 0 <= jy < |rem| && rem[jy] == y;
      assert AtMost(dist[m], dist[y]);
      assert AtMost(dist'[x], dist[m]) by {
        if x != m {
          assert x !in rem;
          assert AtMost(dist[x], dist[rem[jm]]);
        }
      }
      if dist'[y] != dist[y] {
        var k :| 0 <= k < |vs[m].edges| && vs[m].edges[k].target == y && dist'[y] == Plus(dist[m], vs[m].edges[k].weight);
      }
    }
  }

  /** After extracting `m`, every predecessor is extracted and tight. */
  lemma StepPrev(vs: seq<Vertex>, s: nat, dist: seq<Dist>, prev: seq<Option<nat>>, rem: seq<nat>, m: nat,
                 dist': seq<Dist>, prev': seq<Option<nat>>, rem': seq<nat>)
    requires DijkstraInv(vs, s, dist, prev, rem)
    requires RelaxedFrom(vs, m, dist, prev, dist', prev')
    requires forall x :: 0 <= x < |vs| && (x !in rem || x == m) ==> dist'[x] == dist[x] && prev'[x] == prev[x]
    requires dist'[s] == Fin(0)
    requires forall x :: x in rem' <==> x in rem && x != m
    ensures forall v :: 0 <= v < |vs| ==> (prev'[v].None? <==> v == s || dist'[v].Inf?)
    ensures forall v :: 0 <= v < |vs| && prev'[v].Some? ==>
              prev'[v].value < |vs| && prev'[v].value !in rem' && Tight(vs, prev'[v].value, v, dist'[prev'[v].value], dist'[v])
  {
    forall v | 0 <= v < |vs| && prev'[v].Some? ensures
      prev'[v].value < |vs| && prev'[v].value !in rem' && Tight(vs, prev'[v].value, v, dist'[prev'[v].value], dist'[v]) {
      if !(dist'[v] == dist[v] && prev'[v] == prev[v]) {
        assert prev'[v] == Some(m);
      }
    }
  }

  /** Extracting a minimum `m` and relaxing its records keeps the loop state. */
  lemma DijkstraStep(vs: seq<Vertex>, s: nat, dist: seq<Dist>, prev: seq<Option<nat>>, rem: seq<nat>, idx: nat,
                     dist': seq<Dist>, prev': seq<Option<nat>>)
    requires DijkstraInv(vs, s, dist, prev, rem) && idx < |rem|
    requires forall j :: 0 <= j < |rem| ==> AtMost(dist[rem[idx]], dist[rem[j]])
    requires RelaxedFrom(vs, rem[idx], dist, prev, dist', prev')
    ensures DijkstraInv(vs, s, dist', prev', rem[..idx] + rem[idx + 1..])
  {
    var m, rem' := rem[idx], rem[..idx] + rem[idx + 1..];
    RemoveAt(rem, |vs|, idx);
    RelaxKeepsDone(vs, s, dist, prev, rem, idx, dist', prev');
    RelaxWitnessed(vs, s, dist, prev, m, dist', prev');
    StepRelaxed(vs, s, dist, prev, rem, m, dist', prev', rem');
    StepNoFarther(vs, s, dist, prev, rem, idx, m, dist', prev', rem');
    StepPrev(vs, s, dist, prev, rem, m, dist', prev', rem');
  }

  /**
   * Once every vertex is extracted the distances are optimal: every walk from
   * `s` to `t` weighs at least `dist[t]`, which is therefore finite.
   */
  lemma DijkstraDone(vs: seq<Vertex>, s: nat, dist: seq<Dist>, prev: seq<Option<nat>>)
    requires DijkstraInv(vs, s, dist, prev, [])
    ensures forall t: nat, es :: IsWalk(vs, s, es, t) ==> t < |vs| && dist[t].Fin? && dist[t].d <= Weight(es)
  {
    forall x, k | 0 <= x < |vs| && 0 <= k < |vs[x].edges|
      ensures AtMost(dist[vs[x].edges[k].target], Plus(dist[x], vs[x].edges[k].weight)) {
      assert RelaxedAt(vs, dist, x);
    }
    forall t: nat, es | IsWalk(vs, s, es, t) ensures t < |vs| && dist[t].Fin? && dist[t].d <= Weight(es) {
      RelaxedIsLowerBound(vs, dist, s, es, t);
    }
  }
}
