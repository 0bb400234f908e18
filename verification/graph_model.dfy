/**
 * The data model of the graph library: vertices are identified by their
 * position in the graph's insertion-ordered vertex sequence, and each vertex
 * owns an ordered list of weighted adjacency records.
 */
module GraphModel {

  /** An adjacency record `{ vertex, weight }`: the target's index and the weight. */
  datatype Edge = Edge(target: nat, weight: nat)

  /** A vertex: its canvas position, its label (`name`; `label` is a Dafny keyword) and its ordered adjacency list. */
  datatype Vertex = Vertex(x: int, y: int, name: string, edges: seq<Edge>)

  /** Every adjacency record targets a vertex of the graph. */
  predicate WellFormed(vs: seq<Vertex>) {
    forall u, k :: 0 <= u < |vs| && 0 <= k < |vs[u].edges| ==> vs[u].edges[k].target < |vs|
  }

  /** Some record of `es` targets `t` (`es.some(e => e.vertex === t)`). */
  predicate HasEdgeTo(es: seq<Edge>, t: nat) {
    exists k :: 0 <= k < |es| && es[k].target == t
  }

  /** Vertex `u` has at least one adjacency record targeting `v`. */
  predicate Adj(vs: seq<Vertex>, u: nat, v: nat) {
    u < |vs| && HasEdgeTo(vs[u].edges, v)
  }

  /** The number of records of `es` that target `t`. */
  function CountTo(es: seq<Edge>, t: nat): nat {
    if es == [] then 0
    else CountTo(es[..|es| - 1], t) + (if es[|es| - 1].target == t then 1 else 0)
  }

  /**
   * The shape that undirected `addEdge` leaves behind: as many records from u
   * to v as from v to u, and an even number of self-loop records at every vertex.
   */
  predicate Paired(adj: seq<seq<Edge>>) {
    && (forall u, v :: 0 <= u < |adj| && 0 <= v < |adj| ==> CountTo(adj[u], v) == CountTo(adj[v], u))
    && (forall u :: 0 <= u < |adj| ==> CountTo(adj[u], u) % 2 == 0)
  }

  /** The adjacency lists of the vertices, in vertex order. */
  function Lists(vs: seq<Vertex>): (adj: seq<seq<Edge>>)
    ensures |adj| == |vs|
    ensures forall u :: 0 <= u < |vs| ==> adj[u] == vs[u].edges
  {
    seq(|vs|, u requires 0 <= u < |vs| => vs[u].edges)
  }

  lemma {:induction false} CountConcat(a: seq<Edge>, b: seq<Edge>, t: nat)
    ensures CountTo(a + b, t) == CountTo(a, t) + CountTo(b, t)
    decreases |b|
  {
    if b == [] {
      assert a + b == a;
    } else {
      var b' := b[..|b| - 1];
      assert (a + b)[..|a + b| - 1] == a + b';
      CountConcat(a, b', t);
    }
  }

  /** Removing the record at position `i` lowers the count of its target by one. */
  lemma CountRemove(es: seq<Edge>, i: nat, t: nat)
    requires i < |es|
    ensures CountTo(es[..i] + es[i + 1..], t) == CountTo(es, t) - (if es[i].target == t then 1 else 0)
  {
    assert es == es[..i] + [es[i]] + es[i + 1..];
    CountConcat(es[..i] + [es[i]], es[i + 1..], t);
    CountConcat(es[..i], [es[i]], t);
    CountConcat(es[..i], es[i + 1..], t);
    assert [es[i]][..0] == [];
  }

  /** A record targeting `t` exists exactly when the count of such records is positive. */
  lemma {:induction false} HasEdgeIffCount(es: seq<Edge>, t: nat)
    ensures HasEdgeTo(es, t) <==> CountTo(es, t) > 0
    decreases |es|
  {
    if es != [] {
      var es' := es[..|es| - 1];
      HasEdgeIffCount(es', t);
      if HasEdgeTo(es', t) {
        var k :| 0 <= k < |es'| && es'[k].target == t;
        assert es[k].target == t;
      }
      if HasEdgeTo(es, t) && es[|es| - 1].target != t {
        var k :| 0 <= k < |es| && es[k].target == t;
        assert es'[k].target == t;
      }
    }
  }

  /** Appending a record that targets a vertex of the graph keeps the graph well formed. */
  lemma AppendKeepsWellFormed(vs: seq<Vertex>, u: nat, e: Edge, vs': seq<Vertex>)
    requires WellFormed(vs) && u < |vs| && e.target < |vs|
    requires vs' == vs[u := vs[u].(edges := vs[u].edges + [e])]
    ensures WellFormed(vs')
  {
    forall w, k | 0 <= w < |vs'| && 0 <= k < |vs'[w].edges| ensures vs'[w].edges[k].target < |vs'| {
      if w == u && k < |vs[u].edges| {
        assert vs'[w].edges[k] == vs[u].edges[k];
      }
    }
  }

  /** In a paired graph, `u` has a record to `v` exactly when `v` has one to `u`. */
  lemma PairedAdjSymmetric(vs: seq<Vertex>, u: nat, v: nat)
    requires Paired(Lists(vs)) && u < |vs| && v < |vs|
    ensures Adj(vs, u, v) <==> Adj(vs, v, u)
  {
    HasEdgeIffCount(vs[u].edges, v);
    HasEdgeIffCount(vs[v].edges, u);
  }

  /** In a well-formed graph no record targets the index `|vs|` a new vertex will get. */
  lemma NoRecordsToNewVertex(vs: seq<Vertex>, u: nat)
    requires WellFormed(vs) && u < |vs|
    ensures CountTo(vs[u].edges, |vs|) == 0
  {
    HasEdgeIffCount(vs[u].edges, |vs|);
  }

  /**
   * Appending the two records of an undirected edge `a -- b` (one record to
   * each end, both at `a` for a self-loop) keeps the lists paired.
   */
  lemma AddPairKeepsPaired(adj: seq<seq<Edge>>, adj': seq<seq<Edge>>, a: nat, b: nat, w: nat)
    requires Paired(adj) && a < |adj| && b < |adj| && |adj'| == |adj|
    requires forall u :: 0 <= u < |adj| && u != a && u != b ==> adj'[u] == adj[u]
    requires a != b ==> adj'[a] == adj[a] + [Edge(b, w)] && adj'[b] == adj[b] + [Edge(a, w)]
    requires a == b ==> adj'[a] == adj[a] + [Edge(b, w), Edge(a, w)]
    ensures Paired(adj')
  {
    forall y ensures CountTo(adj'[a], y) == CountTo(adj[a], y) + (if y == b then 1 else 0) + (if a == b && y == a then 1 else 0) {
      if a != b {
        CountConcat(adj[a], [Edge(b, w)], y);
        assert [Edge(b, w)][..0] == [];
      } else {
        var two := [Edge(b, w), Edge(a, w)];
        CountConcat(adj[a], two, y);
        assert two[..1] == [Edge(b, w)];
        assert [Edge(b, w)][..0] == [];
        assert CountTo([Edge(b, w)], y) == (if y == b then 1 else 0);
        assert CountTo(two, y) == CountTo([Edge(b, w)], y) + (if y == a then 1 else 0);
      }
    }
    forall y | a != b ensures CountTo(adj'[b], y) == CountTo(adj[b], y) + (if y == a then 1 else 0) {
      CountConcat(adj[b], [Edge(a, w)], y);
      assert [Edge(a, w)][..0] == [];
    }
    forall u, v | 0 <= u < |adj| && 0 <= v < |adj| ensures CountTo(adj'[u], v) == CountTo(adj'[v], u) {
      assert CountTo(adj[u], v) == CountTo(adj[v], u);
    }
    forall u | 0 <= u < |adj| ensures CountTo(adj'[u], u) % 2 == 0 {
      assert CountTo(adj[u], u) % 2 == 0;
    }
  }
}
