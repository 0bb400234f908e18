/**
 * The three textual representations the graph tutorial derives from a graph:
 * the adjacency matrix, the label-keyed adjacency list and the incidence
 * matrix. Each builder only reads the graph.
 */
module Representations {
  import opened GraphModel
  import opened Graphs

  // ---- Adjacency matrix ----

  /** The adjacency matrix cell `[i][j]`: 1 when `i` has a record to `j` (however many), else 0. */
  function AdjacencyCell(vs: seq<Vertex>, i: nat, j: nat): (c: int)
    ensures c == 0 || c == 1
    ensures c == 1 <==> Adj(vs, i, j)
  {
    if Adj(vs, i, j) then 1 else 0
  }

  /** In an undirected graph built with `addEdge` the adjacency matrix is symmetric. */
  lemma AdjacencySymmetric(vs: seq<Vertex>, i: nat, j: nat)
    requires Paired(Lists(vs)) && i < |vs| && j < |vs|
    ensures AdjacencyCell(vs, i, j) == AdjacencyCell(vs, j, i)
  {
    PairedAdjSymmetric(vs, i, j);
  }

  /**
   * `getAdjacencyMatrix(graph)`: an `n × n` matrix of zeros in which every
   * record `i -> j` sets cell `[i][j]` to 1.
   */
  method AdjacencyMatrix(g: Graph) returns (m: array2<int>)
    requires WellFormed(g.vertices)
    ensures m.Length0 == |g.vertices| && m.Length1 == |g.vertices|
    ensures forall i, j :: 0 <= i < m.Length0 && 0 <= j < m.Length1 ==> m[i, j] == AdjacencyCell(g.vertices, i, j)
    ensures !g.directed && g.Valid() ==> forall i, j :: 0 <= i < m.Length0 && 0 <= j < m.Length1 ==> m[i, j] == m[j, i]
  {
    var vs := g.vertices;
    var n := |vs|;
    m := new int[n, n]((i, j) => 0);
    var i := 0;
    while i < n
      invariant 0 <= i <= n
      invariant forall r, c :: 0 <= r < n && 0 <= c < n ==> m[r, c] == (if r < i then AdjacencyCell(vs, r, c) else 0)
    {
      var es := vs[i].edges;
      var k := 0;
      while k < |es|
        invariant 0 <= k <= |es|
        invariant forall r, c :: 0 <= r < n && 0 <= c < n ==>
          m[r, c] == (if r < i || (r == i && HasEdgeTo(es[..k], c)) then AdjacencyCell(vs, r, c) else 0)
      {
        var t := es[k].target;
        m[i, t] := 1;
        forall c | 0 <= c < n ensures HasEdgeTo(es[..k + 1], c) <==> HasEdgeTo(es[..k], c) || c == t {
          assert es[..k + 1][k] == es[k];
          if HasEdgeTo(es[..k], c) {
            var q :| 0 <= q < k && es[..k][q].target == c;
            assert es[..k + 1][q] == es[..k][q];
          }
          if HasEdgeTo(es[..k + 1], c) && c != t {
            var q :| 0 <= q < k + 1 && es[..k + 1][q].target == c;
            assert es[..k][q] == es[..k + 1][q];
          }
        }
        k := k + 1;
      }
      assert es[..|es|] == es;
      i := i + 1;
    }
    if !g.directed && g.Valid() {
      forall r, c | 0 <= r < n && 0 <= c < n ensures m[r, c] == m[c, r] {
        AdjacencySymmetric(vs, r, c);
      }
    }
  }

  // ---- Adjacency list ----

  /** The labels of the targets of `es`, in record order (`edges.map(edge => edge.vertex.label)`). */
  function TargetLabels(vs: seq<Vertex>, es: seq<Edge>): (r: seq<string>)
    requires forall k :: 0 <= k < |es| ==> es[k].target < |vs|
    ensures |r| == |es|
    ensures forall k :: 0 <= k < |es| ==> r[k] == vs[es[k].target].name
  {
    if es == [] then [] else TargetLabels(vs, es[..|es| - 1]) + [vs[es[|es| - 1].target].name]
  }

  /**
   * The dictionary once the first `i` vertices have stored their entries;
   * a later vertex with the same label overwrites the entry. Its keys are
   * exactly the labels of the vertices stored so far.
   */
  function LabelMap(vs: seq<Vertex>, i: nat): (m: map<string, seq<string>>)
    requires WellFormed(vs) && i <= |vs|
    ensures forall l :: l in m <==> exists j :: 0 <= j < i && vs[j].name == l
  {
    if i == 0 then map[]
    else
      var m := LabelMap(vs, i - 1);
      assert forall l :: l in m ==> exists j :: 0 <= j < i && vs[j].name == l;
      m[vs[i - 1].name := TargetLabels(vs, vs[i - 1].edges)]
  }

  /** Vertex `j` is the last of the first `i` vertices carrying its label. */
  predicate LastWithLabel(vs: seq<Vertex>, j: nat, i: nat) {
    j < i <= |vs| && forall q :: j < q < i ==> vs[q].name != vs[j].name
  }

  /** The entry of a label is the target labels of the last vertex carrying it. */
  lemma {:induction false} LabelMapLast(vs: seq<Vertex>, i: nat, j: nat)
    requires WellFormed(vs) && LastWithLabel(vs, j, i)
    ensures vs[j].name in LabelMap(vs, i) && LabelMap(vs, i)[vs[j].name] == TargetLabels(vs, vs[j].edges)
  {
    if j < i - 1 {
      LabelMapLast(vs, i - 1, j);
    }
  }

  /**
   * `getAdjacencyList(graph)`: a dictionary keyed by vertex label. Its keys
   * are exactly the labels in use, and a label shared by several vertices
   * maps to the target labels of the last of them.
   */
  method AdjacencyList(g: Graph) returns (list: map<string, seq<string>>)
    requires WellFormed(g.vertices)
    ensures list == LabelMap(g.vertices, |g.vertices|)
    ensures forall l :: l in list <==> exists j :: 0 <= j < |g.vertices| && g.vertices[j].name == l
    ensures forall j: nat :: LastWithLabel(g.vertices, j, |g.vertices|) ==>
      g.vertices[j].name in list && list[g.vertices[j].name] == TargetLabels(g.vertices, g.vertices[j].edges)
  {
    var vs := g.vertices;
    list := map[];
    var i := 0;
    while i < |vs|
      invariant 0 <= i <= |vs|
      invariant list == LabelMap(vs, i)
    {
      list := list[vs[i].name := TargetLabels(vs, vs[i].edges)];
      i := i + 1;
    }
    forall j: nat | LastWithLabel(vs, j, |vs|)
      ensures vs[j].name in list && list[vs[j].name] == TargetLabels(vs, vs[j].edges)
    {
      LabelMapLast(vs, |vs|, j);
    }
  }

  // ---- Incidence matrix ----

  /** A collected edge `{ from, to }`, by vertex index. */
  datatype Link = Link(from: nat, to: nat)

  /** The links of the records of vertex `u`, in record order. */
  function LinksOf(u: nat, es: seq<Edge>): (r: seq<Link>)
    ensures |r| == |es|
    ensures forall k :: 0 <= k < |es| ==> r[k] == Link(u, es[k].target)
  {
    if es == [] then [] else LinksOf(u, es[..|es| - 1]) + [Link(u, es[|es| - 1].target)]
  }

  /** Every record of the graph as a link, vertex by vertex and within a vertex in record order. */
  function Records(vs: seq<Vertex>): seq<Link> {
    if vs == [] then [] else Records(vs[..|vs| - 1]) + LinksOf(|vs| - 1, vs[|vs| - 1].edges)
  }

  /** The links of `Records` are exactly the records of the graph. */
  lemma {:induction false} RecordsMembers(vs: seq<Vertex>)
    ensures forall l :: l in Records(vs) <==> l.from < |vs| && HasEdgeTo(vs[l.from].edges, l.to)
  {
    if vs != [] {
      var u := |vs| - 1;
      RecordsMembers(vs[..u]);
      assert forall v :: 0 <= v < u ==> vs[..u][v] == vs[v];
      forall l: Link | l.from < |vs| && HasEdgeTo(vs[l.from].edges, l.to) ensures l in Records(vs) {
        var k :| 0 <= k < |vs[l.from].edges| && vs[l.from].edges[k].target == l.to;
        if l.from == u {
          assert LinksOf(u, vs[u].edges)[k] == l;
        }
      }
    }
  }

  /**
   * One step of the collection loop: a directed record is always collected;
   * an undirected record `a -> b` only when `b -> a` has not been collected.
   * Afterwards the record or its reverse is among the collected edges, and
   * undirected, no collected edge reverses an earlier one if none did before.
   */
  function Collect(directed: bool, acc: seq<Link>, l: Link): (r: seq<Link>)
    ensures r == acc + [l] || r == acc
    ensures r == acc + [l] <==> directed || Link(l.to, l.from) !in acc
    ensures l in r || Link(l.to, l.from) in r
    ensures !directed && NoReversedRepeat(acc) ==> NoReversedRepeat(r)
  {
    if directed || Link(l.to, l.from) !in acc then
      var r := acc + [l];
      assert !directed && NoReversedRepeat(acc) ==> NoReversedRepeat(r) by {
        if !directed && NoReversedRepeat(acc) {
          forall p, q | 0 <= p < q < |r| ensures r[q] != Link(r[p].to, r[p].from) {
            if q == |acc| {
              assert r[p] == acc[p] && r[p] in acc;
            } else {
              assert r[p] == acc[p] && r[q] == acc[q];
            }
          }
        }
      }
      r
    else acc
  }

  /**
   * The edges the collection loop gathers from the records `recs`, in order:
   * some of the records, never more of them than there are.
   */
  function Collected(directed: bool, recs: seq<Link>): (r: seq<Link>)
    ensures |r| <= |recs|
    ensures forall l :: l in r ==> l in recs
  {
    if recs == [] then [] else Collect(directed, Collected(directed, recs[..|recs| - 1]), recs[|recs| - 1])
  }

  /** Directed: every record is a column, in record order. */
  lemma {:induction false} CollectedDirected(recs: seq<Link>)
    ensures Collected(true, recs) == recs
  {
    if recs != [] {
      CollectedDirected(recs[..|recs| - 1]);
      assert recs[..|recs| - 1] + [recs[|recs| - 1]] == recs;
    }
  }

  /**
   * Undirected: only records become columns, every record is a column or
   * has its reverse among the columns, and no column is the reverse of an
   * earlier one (in particular a self-loop occurs once, and the second
   * record of an `addEdge` pair never adds a column).
   */
  lemma {:induction false} CollectedUndirected(recs: seq<Link>)
    ensures forall l :: l in Collected(false, recs) ==> l in recs
    ensures forall l :: l in recs ==> l in Collected(false, recs) || Link(l.to, l.from) in Collected(false, recs)
    ensures NoReversedRepeat(Collected(false, recs))
  {
    if recs != [] {
      var init := recs[..|recs| - 1];
      var l := recs[|recs| - 1];
      CollectedUndirected(init);
      var c0 := Collected(false, init);
      var c := Collected(false, recs);
      assert c == Collect(false, c0, l);
      forall x | x in recs ensures x in c || Link(x.to, x.from) in c {
        if x != l {
          assert x in init;
        }
      }
    }
  }

  /** No link is the reverse of an earlier one. */
  predicate NoReversedRepeat(c: seq<Link>) {
    forall p, q :: 0 <= p < q < |c| ==> c[q] != Link(c[p].to, c[p].from)
  }

  /** The incidence matrix entry of vertex `v` in the column of the edge `l`. */
  function IncidenceEntry(directed: bool, l: Link, v: nat): (e: int)
    ensures -1 <= e <= 1
    ensures !directed ==> (e == 1 <==> v == l.from || v == l.to) && e >= 0
    ensures directed ==> (e == -1 <==> v == l.to) && (e == 1 <==> v == l.from && v != l.to)
  {
    if v == l.to then (if directed then -1 else 1)
    else if v == l.from then 1
    else 0
  }

  /**
   * `getIncidenceMatrix(graph)`: collects the edges (see `Collected`), then
   * builds an `n × |edges|` matrix of zeros and, for column `c` with edge
   * `from -> to`, writes 1 at `[from][c]` and then 1 (undirected) or -1
   * (directed, overwriting the 1 of a self-loop) at `[to][c]`.
   */
  method IncidenceMatrix(g: Graph) returns (edges: seq<Link>, m: array2<int>)
    requires WellFormed(g.vertices)
    ensures edges == Collected(g.directed, Records(g.vertices))
    ensures m.Length0 == |g.vertices| && m.Length1 == |edges|
    ensures forall v, c :: 0 <= v < m.Length0 && 0 <= c < m.Length1 ==> m[v, c] == IncidenceEntry(g.directed, edges[c], v)
  {
    var vs := g.vertices;
    var n := |vs|;
    edges := CollectEdges(vs, g.directed);
    m := new int[n, |edges|]((v, c) => 0);
    RecordsMembers(vs);
    var c := 0;
    while c < |edges|
      invariant 0 <= c <= |edges|
      invariant forall v, d :: 0 <= v < n && 0 <= d < |edges| ==> m[v, d] == (if d < c then IncidenceEntry(g.directed, edges[d], v) else 0)
    {
      var e := edges[c];
      assert e in Records(vs) by {
        if g.directed {
          CollectedDirected(Records(vs));
        } else {
          CollectedUndirected(Records(vs));
        }
      }
      m[e.from, c] := 1;
      m[e.to, c] := if !g.directed then 1 else -1;
      c := c + 1;
    }
  }

  lemma CollectedSnoc(directed: bool, done: seq<Link>, l: Link)
    ensures Collected(directed, done + [l]) == Collect(directed, Collected(directed, done), l)
  {
    assert (done + [l])[..|done|] == done;
  }

  lemma LinksOfSnoc(u: nat, es: seq<Edge>, k: nat)
    requires k < |es|
    ensures LinksOf(u, es[..k + 1]) == LinksOf(u, es[..k]) + [Link(u, es[k].target)]
  {
    assert es[..k + 1][..k] == es[..k];
  }

  lemma RecordsSnoc(vs: seq<Vertex>, i: nat)
    requires i < |vs|
    ensures Records(vs[..i + 1]) == Records(vs[..i]) + LinksOf(i, vs[i].edges)
  {
    assert vs[..i + 1][..i] == vs[..i];
  }

  /** The nested collection loop of `getIncidenceMatrix`. */
  method CollectEdges(vs: seq<Vertex>, directed: bool) returns (edges: seq<Link>)
    ensures edges == Collected(directed, Records(vs))
  {
    edges := [];
    var i := 0;
    while i < |vs|
      invariant 0 <= i <= |vs|
      invariant edges == Collected(directed, Records(vs[..i]))
    {
      edges := CollectLinks(directed, edges, i, vs[i].edges, Records(vs[..i]));
      RecordsSnoc(vs, i);
      i := i + 1;
    }
    assert vs[..|vs|] == vs;
  }

  /** The inner `vertex.edges.forEach` of the collection loop, for vertex `u`. */
  method CollectLinks(directed: bool, edges: seq<Link>, u: nat, es: seq<Edge>, ghost before: seq<Link>) returns (edges': seq<Link>)
    requires edges == Collected(directed, before)
    ensures edges' == Collected(directed, before + LinksOf(u, es))
  {
    edges' := edges;
    assert es[..0] == [] && before + LinksOf(u, es[..0]) == before;
    var k := 0;
    while k < |es|
      invariant 0 <= k <= |es|
      invariant edges' == Collected(directed, before + LinksOf(u, es[..k]))
    {
      var l := Link(u, es[k].target);
      LinksOfSnoc(u, es, k);
      CollectedSnoc(directed, before + LinksOf(u, es[..k]), l);
      assert before + LinksOf(u, es[..k + 1]) == (before + LinksOf(u, es[..k])) + [l];
      if !directed {
        if Link(l.to, l.from) !in edges' {
          edges' := edges' + [l];
        }
      } else {
        edges' := edges' + [l];
      }
      k := k + 1;
    }
    assert es[..|es|] == es;
  }
}
