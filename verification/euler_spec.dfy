/**
 * Vocabulary of the Eulerian-path construction: odd-degree vertices, the
 * working copy of the adjacency lists and the effect of consuming one edge.
 */
module EulerSpec {
  import opened Common
  import opened GraphModel

  /** An adjacency list of odd length (raw out-degree). */
  predicate Odd(es: seq<Edge>) {
    |es| % 2 == 1
  }

  /** The vertices `0 .. n-1` whose adjacency list has odd length, in vertex order. */
  function OddUpTo(vs: seq<Vertex>, n: nat): (r: seq<nat>)
    requires n <= |vs|
    ensures forall x: nat :: x in r <==> x < n && Odd(vs[x].edges)
    ensures forall i, j :: 0 <= i < j < |r| ==> r[i] < r[j]
    ensures forall i :: 0 <= i < |r| ==> r[i] < n
  {
    if n == 0 then []
    else OddUpTo(vs, n - 1) + (if Odd(vs[n - 1].edges) then [n - 1] else [])
  }

  /** `vertices.filter(v => v.edges.length % 2 !== 0)`. */
  function OddVertices(vs: seq<Vertex>): (r: seq<nat>)
    ensures forall x: nat :: x in r <==> x < |vs| && Odd(vs[x].edges)
    ensures forall i, j :: 0 <= i < j < |r| ==> r[i] < r[j]
  {
    OddUpTo(vs, |vs|)
  }

  /** The first vertex with odd degree when there are two of them, otherwise the first vertex. */
  function EulerStart(vs: seq<Vertex>): (s: nat)
    requires |vs| > 0
    ensures s < |vs|
    ensures |OddVertices(vs)| == 2 ==> Odd(vs[s].edges) && forall x: nat :: x < s ==> !Odd(vs[x].edges)
    ensures |OddVertices(vs)| != 2 ==> s == 0
  {
    var odd := OddVertices(vs);
    if |odd| == 2 then
      assert odd[0] in odd;
      assert forall x: nat :: x in odd ==> odd[0] <= x;
      odd[0]
    else 0
  }

  /** `es.findIndex(e => e.vertex === t)`, with `None` for `-1`. */
  function FirstIndexTo(es: seq<Edge>, t: nat): (r: Option<nat>)
    ensures r.Some? ==> r.value < |es| && es[r.value].target == t
    ensures r.Some? ==> forall k :: 0 <= k < r.value ==> es[k].target != t
    ensures r.None? <==> !HasEdgeTo(es, t)
  {
    if es == [] then None
    else if es[0].target == t then Some(0)
    else match FirstIndexTo(es[1..], t)
      case None =>
        assert forall k :: 0 < k < |es| ==> es[k] == es[1..][k - 1];
        None
      case Some(i) => Some(i + 1)
  }

  /**
   * The undirected half of a push: in `x`'s list, the first record back to
   * `t` is spliced out; a list without one is left alone.
   */
  function Unlink(c: seq<seq<Edge>>, x: nat, t: nat): (c': seq<seq<Edge>>)
    requires x < |c|
    ensures |c'| == |c| && forall v :: 0 <= v < |c| && v != x ==> c'[v] == c[v]
    ensures !HasEdgeTo(c[x], t) ==> c' == c
    ensures HasEdgeTo(c[x], t) ==> |c'[x]| + 1 == |c[x]| && CountTo(c'[x], t) + 1 == CountTo(c[x], t)
    ensures forall u :: u != t ==> CountTo(c'[x], u) == CountTo(c[x], u)
    ensures HasEdgeTo(c[x], t) ==>
      exists i :: 0 <= i < |c[x]| && c[x][i].target == t && (forall k :: 0 <= k < i ==> c[x][k].target != t) && c'[x] == c[x][..i] + c[x][i + 1..]
  {
    match FirstIndexTo(c[x], t)
    case None => c
    case Some(i) =>
      CountRemove(c[x], i, t);
      assert forall u :: u != t ==> CountTo(c[x][..i] + c[x][i + 1..], u) == CountTo(c[x], u) by {
        forall u | u != t ensures CountTo(c[x][..i] + c[x][i + 1..], u) == CountTo(c[x], u) {
          CountRemove(c[x], i, u);
        }
      }
      c[x := c[x][..i] + c[x][i + 1..]]
  }

  /**
   * The copy after a push from `top`: its last record is popped and,
   * undirected, the first record back to `top` is spliced out of the
   * target's list.
   */
  function Take(directed: bool, c: seq<seq<Edge>>, top: nat): seq<seq<Edge>>
    requires top < |c| && |c[top]| > 0 && c[top][|c[top]| - 1].target < |c|
  {
    var es := c[top];
    var c1 := c[top := es[..|es| - 1]];
    if directed then c1 else Unlink(c1, es[|es| - 1].target, top)
  }

  /** Both `x` and `y` are targets in `es`, and the first record to `x` comes before the first record to `y`. */
  predicate FirstSeenBefore(es: seq<Edge>, x: nat, y: nat) {
    FirstIndexTo(es, x).Some? && FirstIndexTo(es, y).Some? && FirstIndexTo(es, x).value < FirstIndexTo(es, y).value
  }

  /** The number of records left in the working copy. */
  function SumLengths(c: seq<seq<Edge>>): nat {
    if c == [] then 0 else |c[0]| + SumLengths(c[1..])
  }

  lemma {:induction false} SumUpdate(c: seq<seq<Edge>>, i: nat, l: seq<Edge>)
    requires i < |c|
    ensures SumLengths(c[i := l]) + |c[i]| == SumLengths(c) + |l|
    decreases |c|
  {
    if i > 0 {
      assert c[i := l][1..] == c[1..][i - 1 := l];
      SumUpdate(c[1..], i - 1, l);
    }
  }

  /** Every record of the working copy is a record of the original list of the same vertex. */
  predicate SubLists(c: seq<seq<Edge>>, vs: seq<Vertex>) {
    |c| == |vs| && forall v, f :: 0 <= v < |c| && f in c[v] ==> f in vs[v].edges
  }

  /**
   * Popping the last record `top -> x` from the copy of `top` lowers the count of
   * `x` in that list by one and leaves every other list alone.
   */
  lemma PopLast(c: seq<seq<Edge>>, top: nat)
    requires top < |c| && |c[top]| > 0
    ensures var es := c[top]; var c1 := c[top := es[..|es| - 1]];
      && (forall y :: CountTo(c1[top], y) == CountTo(c[top], y) - (if es[|es| - 1].target == y then 1 else 0))
      && SumLengths(c1) + 1 == SumLengths(c)
  {
    var es := c[top];
    SumUpdate(c, top, es[..|es| - 1]);
  }

  /**
   * The first half of consuming an undirected edge: after popping the record
   * `top -> x` from `top`'s list, `x`'s list still holds a record back to `top`
   * (the paired one; for a self-loop, the second record of the pair).
   */
  lemma BackRecordExists(c: seq<seq<Edge>>, top: nat, c1: seq<seq<Edge>>, x: nat)
    requires top < |c| && |c[top]| > 0 && Paired(c)
    requires x == c[top][|c[top]| - 1].target && x < |c|
    requires c1 == c[top := c[top][..|c[top]| - 1]]
    ensures HasEdgeTo(c1[x], top)
  {
    var es := c[top];
    assert CountTo(es, x) == CountTo(es[..|es| - 1], x) + 1;
    assert CountTo(c1[x], top) >= 1;
    HasEdgeIffCount(c1[x], top);
  }

  /**
   * The second half: splicing the record `x -> top` at position `i` out of
   * `x`'s list. Relative to the copy `c` before the pop, pairing is kept, two
   * records are gone, and exactly the parities of `top` and `x` flip (none
   * when they coincide).
   */
  lemma SpliceBack(c: seq<seq<Edge>>, top: nat, c1: seq<seq<Edge>>, x: nat, i: nat, c2: seq<seq<Edge>>)
    requires top < |c| && |c[top]| > 0 && Paired(c)
    requires x == c[top][|c[top]| - 1].target && x < |c|
    requires c1 == c[top := c[top][..|c[top]| - 1]]
    requires i < |c1[x]| && c1[x][i].target == top
    requires c2 == c1[x := c1[x][..i] + c1[x][i + 1..]]
    ensures Paired(c2)
    ensures forall u, v :: 0 <= u < |c| && 0 <= v < |c| ==>
              CountTo(c2[u], v) == CountTo(c[u], v) - (if u == top && v == x then 1 else 0) - (if u == x && v == top then 1 else 0)
    ensures SumLengths(c2) + 2 == SumLengths(c)
    ensures forall v :: 0 <= v < |c| ==> (Odd(c2[v]) <==> ((Odd(c[v]) != (v == top)) != (v == x)))
    ensures forall v, f :: 0 <= v < |c| && f in c2[v] ==> f in c[v]
  {
    var nb := c1[x];
    PopLast(c, top);
    SumUpdate(c1, x, nb[..i] + nb[i + 1..]);
    forall y ensures CountTo(c2[x], y) == CountTo(c1[x], y) - (if y == top then 1 else 0) {
      CountRemove(nb, i, y);
    }
    SplicePaired(c, top, c1, x, c2);
    SpliceParity(c, top, c1, x, c2);
    forall v, f | 0 <= v < |c| && f in c2[v] ensures f in c[v] {
      if v == x {
        assert f in nb;
      }
      if v == top && v != x {
        assert f in c1[top];
      }
    }
  }

  lemma SpliceParity(c: seq<seq<Edge>>, top: nat, c1: seq<seq<Edge>>, x: nat, c2: seq<seq<Edge>>)
    requires top < |c| && x < |c| && |c1| == |c| == |c2|
    requires forall v :: 0 <= v < |c| && v != top ==> c1[v] == c[v]
    requires forall v :: 0 <= v < |c| && v != x ==> c2[v] == c1[v]
    requires |c1[top]| + 1 == |c[top]| && |c2[x]| + 1 == |c1[x]|
    ensures forall v :: 0 <= v < |c| ==> (Odd(c2[v]) <==> ((Odd(c[v]) != (v == top)) != (v == x)))
  {
  }

  lemma SplicePaired(c: seq<seq<Edge>>, top: nat, c1: seq<seq<Edge>>, x: nat, c2: seq<seq<Edge>>)
    requires top < |c| && |c[top]| > 0 && Paired(c) && x < |c|
    requires |c1| == |c| == |c2|
    requires forall v :: 0 <= v < |c| && v != top ==> c1[v] == c[v]
    requires forall v :: 0 <= v < |c| && v != x ==> c2[v] == c1[v]
    requires forall y :: CountTo(c1[top], y) == CountTo(c[top], y) - (if y == x then 1 else 0)
    requires forall y :: CountTo(c2[x], y) == CountTo(c1[x], y) - (if y == top then 1 else 0)
    requires CountTo(c1[x], top) >= 1
    ensures Paired(c2)
    ensures forall u, v :: 0 <= u < |c| && 0 <= v < |c| ==>
              CountTo(c2[u], v) == CountTo(c[u], v) - (if u == top && v == x then 1 else 0) - (if u == x && v == top then 1 else 0)
  {
    forall u, v | 0 <= u < |c| && 0 <= v < |c|
      ensures CountTo(c2[u], v) == CountTo(c[u], v) - (if u == top && v == x then 1 else 0) - (if u == x && v == top then 1 else 0)
    {
      SpliceCount(c, top, c1, x, c2, u, v);
    }
    RemovePairKeepsPaired(c, top, x, c2);
  }

  /** Removing one record `top -> x` and one record `x -> top` keeps the lists paired. */
  lemma RemovePairKeepsPaired(c: seq<seq<Edge>>, top: nat, x: nat, c2: seq<seq<Edge>>)
    requires Paired(c) && |c2| == |c|
    requires forall u, v :: 0 <= u < |c| && 0 <= v < |c| ==>
               CountTo(c2[u], v) == CountTo(c[u], v) - (if u == top && v == x then 1 else 0) - (if u == x && v == top then 1 else 0)
    ensures Paired(c2)
  {
  }

  /** How the splice changes one count: the record `top -> x` and its partner `x -> top` are gone. */
  lemma SpliceCount(c: seq<seq<Edge>>, top: nat, c1: seq<seq<Edge>>, x: nat, c2: seq<seq<Edge>>, u: nat, v: nat)
    requires top < |c| && x < |c| && u < |c|
    requires |c1| == |c| == |c2|
    requires forall v :: 0 <= v < |c| && v != top ==> c1[v] == c[v]
    requires forall v :: 0 <= v < |c| && v != x ==> c2[v] == c1[v]
    requires forall y :: CountTo(c1[top], y) == CountTo(c[top], y) - (if y == x then 1 else 0)
    requires forall y :: CountTo(c2[x], y) == CountTo(c1[x], y) - (if y == top then 1 else 0)
    ensures CountTo(c2[u], v) == CountTo(c[u], v) - (if u == top && v == x then 1 else 0) - (if u == x && v == top then 1 else 0)
  {
    if u == x {
      assert CountTo(c2[x], v) == CountTo(c1[x], v) - (if v == top then 1 else 0);
    }
    if u == top {
      assert CountTo(c1[top], v) == CountTo(c[top], v) - (if v == x then 1 else 0);
    }
  }

  // ---- The Hierholzer loop ----

  /** Where the path of an undirected graph ends: the second odd vertex, or the start when none is odd. */
  function EulerEnd(vs: seq<Vertex>): (e: nat)
    requires |vs| > 0
    ensures e < |vs|
    ensures |OddVertices(vs)| == 2 ==> Odd(vs[e].edges) && e != EulerStart(vs)
    ensures |OddVertices(vs)| != 2 ==> e == EulerStart(vs)
  {
    var odd := OddVertices(vs);
    if |odd| == 2 then
      assert odd[1] in odd;
      odd[1]
    else EulerStart(vs)
  }

  /** Each vertex on the stack is a target of a record of the vertex below it. */
  ghost predicate StackWalk(vs: seq<Vertex>, stack: seq<nat>) {
    forall j :: 0 <= j < |stack| - 1 ==> Adj(vs, stack[j], stack[j + 1])
  }

  /** Every element is a vertex of the graph. */
  predicate AllBelow(s: seq<nat>, n: nat) {
    forall i :: 0 <= i < |s| ==> s[i] < n
  }

  /**
   * The undirected part of the loop state. The copy stays paired; each path
   * element is adjacent from the next; and the copy's odd lists sit exactly at
   * the two ends of the walk still being extended: before the first pop, the
   * walk runs from `start` to the top and the copy's parities are the
   * original ones with the ends flipped; afterwards it runs from the anchor
   * `stack[a]` (adjacent to the last path element) to the top.
   */
  ghost predicate UndirectedInv(vs: seq<Vertex>, start: nat, copy: seq<seq<Edge>>, stack: seq<nat>, path: seq<nat>, a: nat)
    requires |copy| == |vs|
  {
    && Paired(copy)
    && PathAdjacent(vs, path)
    && (|path| == 0 ==> |stack| > 0 && WalkParity(vs, copy, start, stack[|stack| - 1]))
    && (|path| > 0 && |stack| > 0 ==>
          a < |stack| && Adj(vs, stack[a], path[|path| - 1]) && TourParity(vs, copy, stack[a], stack[|stack| - 1]))
    && (|path| > 0 ==> |vs| > 0 && path[0] == EulerEnd(vs))
  }

  /** Each path element is adjacent from the element after it. */
  ghost predicate PathAdjacent(vs: seq<Vertex>, path: seq<nat>) {
    forall i :: 0 <= i < |path| - 1 ==> Adj(vs, path[i + 1], path[i])
  }

  /** The copy's parities are the original ones with those of `from` and `to` flipped (none if they coincide). */
  predicate WalkParity(vs: seq<Vertex>, copy: seq<seq<Edge>>, from: nat, to: nat)
    requires |copy| == |vs|
  {
    forall v :: 0 <= v < |vs| ==> (Odd(copy[v]) <==> ((Odd(vs[v].edges) != (v == from)) != (v == to)))
  }

  /** The copy's odd lists are exactly those of `from` and `to` (none if they coincide). */
  predicate TourParity(vs: seq<Vertex>, copy: seq<seq<Edge>>, from: nat, to: nat)
    requires |copy| == |vs|
  {
    forall v :: 0 <= v < |vs| ==> (Odd(copy[v]) <==> ((v == from) != (v == to)))
  }

  /**
   * The state of the Hierholzer loop in either mode: the copy holds records of
   * the original lists, the stack is a walk from `start`, the path collects
   * popped vertices (ending at `start` once the stack is empty), and the
   * `popped` records taken from the copy account for the path and stack
   * lengths and for the records gone from the copy (two per step when
   * undirected: the record and its partner).
   */
  ghost predicate EulerInv(vs: seq<Vertex>, directed: bool, start: nat, copy: seq<seq<Edge>>,
                           stack: seq<nat>, path: seq<nat>, a: nat, popped: nat) {
    && EulerShape(vs, directed, start, copy, stack, path, popped)
    && (!directed ==> Paired(Lists(vs)) && UndirectedInv(vs, start, copy, stack, path, a) && RecordsTaken(vs, copy, stack, path, a))
  }

  /** The number of steps from `u` to `v` between consecutive elements of `s`. */
  function Traversals(s: seq<nat>, u: nat, v: nat): nat {
    if |s| < 2 then 0 else (if s[0] == u && s[1] == v then 1 else 0) + Traversals(s[1..], u, v)
  }

  /** Appending `x` adds the step from the last element to `x`. */
  lemma {:induction false} TraversalsAppend(s: seq<nat>, x: nat, u: nat, v: nat)
    ensures Traversals(s + [x], u, v) == Traversals(s, u, v) + (if |s| > 0 && s[|s| - 1] == u && x == v then 1 else 0)
    decreases |s|
  {
    if |s| >= 2 {
      assert (s + [x])[1..] == s[1..] + [x];
      TraversalsAppend(s[1..], x, u, v);
    }
  }

  /** Reversing a sequence turns its steps around. */
  lemma {:induction false} TraversalsReverse(s: seq<nat>, u: nat, v: nat)
    ensures Traversals(Reverse(s), u, v) == Traversals(s, v, u)
    decreases |s|
  {
    if s != [] {
      var r := Reverse(s[1..]);
      TraversalsReverse(s[1..], u, v);
      TraversalsAppend(r, s[0], u, v);
      if |s| >= 2 {
        assert r[|r| - 1] == s[1];
      }
    }
  }

  /**
   * The records taken from `u` towards `v` so far, by the direction of the
   * push that took them: the steps up the stack, the path steps (the path
   * runs backwards) and the step from the anchor to the last path element.
   */
  function Taken(stack: seq<nat>, path: seq<nat>, a: nat, u: nat, v: nat): nat {
    Traversals(stack, u, v) + Traversals(path, v, u)
    + (if |path| > 0 && a < |stack| && stack[a] == u && path[|path| - 1] == v then 1 else 0)
  }

  /**
   * Undirected: every record missing from the copy was taken by exactly one
   * step of the walk, in one direction or the other, and every step took one.
   */
  ghost predicate RecordsTaken(vs: seq<Vertex>, copy: seq<seq<Edge>>, stack: seq<nat>, path: seq<nat>, a: nat)
    requires |copy| == |vs|
  {
    forall u, v {:trigger Taken(stack, path, a, u, v)} :: 0 <= u < |vs| && 0 <= v < |vs| ==>
      CountTo(copy[u], v) + Taken(stack, path, a, u, v) + Taken(stack, path, a, v, u) == CountTo(vs[u].edges, v)
  }

  /** A push of `x` that removed one record pair between the top and `x` keeps the account. */
  lemma TakenPush(vs: seq<Vertex>, copy: seq<seq<Edge>>, stack: seq<nat>, path: seq<nat>, a: nat, x: nat, c2: seq<seq<Edge>>)
    requires |copy| == |vs| == |c2| && |stack| > 0
    requires |path| > 0 ==> a < |stack|
    requires RecordsTaken(vs, copy, stack, path, a)
    requires forall u, v :: 0 <= u < |copy| && 0 <= v < |copy| ==>
               CountTo(c2[u], v) == CountTo(copy[u], v) - (if u == stack[|stack| - 1] && v == x then 1 else 0)
                                    - (if u == x && v == stack[|stack| - 1] then 1 else 0)
    ensures RecordsTaken(vs, c2, stack + [x], path, a)
  {
    var top := stack[|stack| - 1];
    forall u, v ensures Taken(stack + [x], path, a, u, v) == Taken(stack, path, a, u, v) + (if u == top && v == x then 1 else 0) {
      TraversalsAppend(stack, x, u, v);
      if |path| > 0 {
        assert (stack + [x])[a] == stack[a];
      }
    }
  }

  /** Popping the top, which sits at the anchor once the path has started, keeps the account. */
  lemma TakenPop(vs: seq<Vertex>, copy: seq<seq<Edge>>, stack: seq<nat>, path: seq<nat>, a: nat)
    requires |copy| == |vs| && |stack| > 0
    requires |path| > 0 ==> a < |stack| && stack[a] == stack[|stack| - 1]
    requires RecordsTaken(vs, copy, stack, path, a)
    ensures RecordsTaken(vs, copy, stack[..|stack| - 1], path + [stack[|stack| - 1]], if |stack| > 1 then |stack| - 2 else 0)
  {
    var t := stack[|stack| - 1];
    var stack' := stack[..|stack| - 1];
    var a' := if |stack| > 1 then |stack| - 2 else 0;
    assert stack == stack' + [t];
    forall u, v ensures Taken(stack', path + [t], a', u, v) == Taken(stack, path, a, u, v) {
      TraversalsAppend(stack', t, u, v);
      TraversalsAppend(path, t, v, u);
    }
  }

  /** Undirected: a vertex with an exhausted copy on top of the stack is the anchor. */
  lemma PopAtAnchor(vs: seq<Vertex>, start: nat, copy: seq<seq<Edge>>, stack: seq<nat>, path: seq<nat>, a: nat)
    requires |copy| == |vs| && |stack| > 0 && stack[|stack| - 1] < |vs|
    requires UndirectedInv(vs, start, copy, stack, path, a) && |copy[stack[|stack| - 1]]| == 0
    ensures |path| > 0 ==> a < |stack| && stack[a] == stack[|stack| - 1]
  {
    if |path| > 0 {
      assert !Odd(copy[stack[|stack| - 1]]);
    }
  }

  /** The part of the loop state shared by both modes. */
  ghost predicate EulerShape(vs: seq<Vertex>, directed: bool, start: nat, copy: seq<seq<Edge>>,
                             stack: seq<nat>, path: seq<nat>, popped: nat) {
    && |vs| > 0 && WellFormed(vs)
    && (|OddVertices(vs)| == 0 || |OddVertices(vs)| == 2) && start == EulerStart(vs)
    && SubLists(copy, vs)
    && AllBelow(stack, |vs|) && AllBelow(path, |vs|)
    && StackWalk(vs, stack)
    && (|stack| > 0 ==> stack[0] == start)
    && (|stack| == 0 ==> |path| > 0 && path[|path| - 1] == start)
    && |path| + |stack| == popped + 1
    && SumLengths(copy) + (if directed then popped else 2 * popped) == SumLengths(Lists(vs))
  }

  /** The copy's records target vertices of the graph. */
  lemma SubListTarget(vs: seq<Vertex>, copy: seq<seq<Edge>>, v: nat, k: nat)
    requires WellFormed(vs) && SubLists(copy, vs) && v < |copy| && k < |copy[v]|
    ensures copy[v][k].target < |vs| && Adj(vs, v, copy[v][k].target)
  {
    var f := copy[v][k];
    assert f in vs[v].edges;
    var j :| 0 <= j < |vs[v].edges| && vs[v].edges[j] == f;
  }

  /** Pushing a target of the top keeps the stack a walk. */
  lemma StackWalkPush(vs: seq<Vertex>, stack: seq<nat>, x: nat)
    requires StackWalk(vs, stack) && |stack| > 0 && Adj(vs, stack[|stack| - 1], x)
    ensures StackWalk(vs, stack + [x])
  {
    var stack' := stack + [x];
    forall j | 0 <= j < |stack'| - 1 ensures Adj(vs, stack'[j], stack'[j + 1]) {
      if j < |stack| - 1 {
        assert stack'[j] == stack[j] && stack'[j + 1] == stack[j + 1];
      }
    }
  }

  /** Popping the top keeps the stack a walk. */
  lemma StackWalkPop(vs: seq<Vertex>, stack: seq<nat>)
    requires StackWalk(vs, stack) && |stack| > 0
    ensures StackWalk(vs, stack[..|stack| - 1])
  {
    var stack' := stack[..|stack| - 1];
    forall j | 0 <= j < |stack'| - 1 ensures Adj(vs, stack'[j], stack'[j + 1]) {
      assert stack'[j] == stack[j] && stack'[j + 1] == stack[j + 1];
    }
  }

  /** A copy whose lists only lose records still holds records of the original lists. */
  lemma SubListsShrink(c: seq<seq<Edge>>, c2: seq<seq<Edge>>, vs: seq<Vertex>)
    requires SubLists(c, vs) && |c2| == |c|
    requires forall v, f :: 0 <= v < |c| && f in c2[v] ==> f in c[v]
    ensures SubLists(c2, vs)
  {
  }

  lemma EulerInit(vs: seq<Vertex>, directed: bool, start: nat, copy: seq<seq<Edge>>, stack: seq<nat>, path: seq<nat>)
    requires |vs| > 0 && WellFormed(vs) && (|OddVertices(vs)| == 0 || |OddVertices(vs)| == 2)
    requires !directed ==> Paired(Lists(vs))
    requires start == EulerStart(vs) && copy == Lists(vs) && stack == [start] && path == []
    ensures EulerInv(vs, directed, start, copy, stack, path, 0, 0)
  {
    assert EulerShape(vs, directed, start, copy, stack, path, 0);
    if !directed {
      assert RecordsTaken(vs, copy, stack, path, 0) by {
        forall u, v | 0 <= u < |vs| && 0 <= v < |vs| ensures Taken(stack, path, 0, u, v) == 0 {
        }
      }
    }
  }

  /** Directed step: popping the last record of the top's copy and pushing its target. */
  lemma PushDirected(vs: seq<Vertex>, start: nat, copy: seq<seq<Edge>>, stack: seq<nat>, path: seq<nat>, a: nat, popped: nat)
    requires EulerInv(vs, true, start, copy, stack, path, a, popped)
    requires |stack| > 0 && |copy[stack[|stack| - 1]]| > 0
    ensures var top := stack[|stack| - 1]; var es := copy[top];
      EulerInv(vs, true, start, copy[top := es[..|es| - 1]], stack + [es[|es| - 1].target], path, a, popped + 1)
    ensures var top := stack[|stack| - 1]; SumLengths(copy[top := copy[top][..|copy[top]| - 1]]) < SumLengths(copy)
  {
    var top := stack[|stack| - 1];
    var es := copy[top];
    var c1 := copy[top := es[..|es| - 1]];
    PopLast(copy, top);
    SubListTarget(vs, copy, top, |es| - 1);
    StackWalkPush(vs, stack, es[|es| - 1].target);
    forall v, f | 0 <= v < |c1| && f in c1[v] ensures f in copy[v] {
      if v == top {
        assert f in es;
      }
    }
    SubListsShrink(copy, c1, vs);
  }

  /** In an undirected run, the popped record `top -> x` has a partner record `x -> top` in `x`'s copy. */
  lemma PartnerRecord(vs: seq<Vertex>, start: nat, copy: seq<seq<Edge>>, stack: seq<nat>, path: seq<nat>, a: nat, popped: nat,
                      top: nat, es: seq<Edge>, c1: seq<seq<Edge>>, x: nat)
    requires EulerInv(vs, false, start, copy, stack, path, a, popped)
    requires |stack| > 0 && top == stack[|stack| - 1] && es == copy[top] && |es| > 0
    requires x == es[|es| - 1].target && c1 == copy[top := es[..|es| - 1]]
    ensures x < |c1| && HasEdgeTo(c1[x], top)
  {
    SubListTarget(vs, copy, top, |es| - 1);
    BackRecordExists(copy, top, c1, x);
  }

  /**
   * One round of the loop keeps the loop state and lowers the measure: a push
   * when the top still has records in the copy, a pop otherwise.
   */
  lemma StepKeeps(vs: seq<Vertex>, directed: bool, start: nat, copy: seq<seq<Edge>>, stack: seq<nat>, path: seq<nat>, a: nat, popped: nat,
                  copy': seq<seq<Edge>>, stack': seq<nat>, path': seq<nat>, a': nat, popped': nat)
    requires EulerInv(vs, directed, start, copy, stack, path, a, popped) && |stack| > 0
    requires var top := stack[|stack| - 1];
      if |copy[top]| > 0 then
        var x := copy[top][|copy[top]| - 1].target;
        x < |copy| && copy' == Take(directed, copy, top) && stack' == stack + [x] && path' == path && a' == a && popped' == popped + 1
      else
        copy' == copy && stack' == stack[..|stack| - 1] && path' == path + [top]
        && a' == (if |stack| > 1 then |stack| - 2 else 0) && popped' == popped
    ensures EulerInv(vs, directed, start, copy', stack', path', a', popped')
    ensures 2 * SumLengths(copy') + |stack'| < 2 * SumLengths(copy) + |stack|
  {
    var top := stack[|stack| - 1];
    if |copy[top]| > 0 {
      PushStep(vs, directed, start, copy, stack, path, a, popped, copy', copy[top][|copy[top]| - 1].target);
    } else {
      PopStep(vs, directed, start, copy, stack, path, a, popped);
    }
  }

  /** A push keeps the loop state and shrinks the copy, in either mode. */
  lemma PushStep(vs: seq<Vertex>, directed: bool, start: nat, copy: seq<seq<Edge>>, stack: seq<nat>, path: seq<nat>, a: nat, popped: nat,
                  copy': seq<seq<Edge>>, x: nat)
    requires EulerInv(vs, directed, start, copy, stack, path, a, popped)
    requires |stack| > 0 && |copy[stack[|stack| - 1]]| > 0
    requires x == copy[stack[|stack| - 1]][|copy[stack[|stack| - 1]]| - 1].target
    requires x < |copy| && copy' == Take(directed, copy, stack[|stack| - 1])
    ensures EulerInv(vs, directed, start, copy', stack + [x], path, a, popped + 1)
    ensures SumLengths(copy') < SumLengths(copy)
  {
    var top := stack[|stack| - 1];
    var es := copy[top];
    if directed {
      PushDirected(vs, start, copy, stack, path, a, popped);
    } else {
      var c1 := copy[top := es[..|es| - 1]];
      PartnerRecord(vs, start, copy, stack, path, a, popped, top, es, c1, x);
      var i := FirstIndexTo(c1[x], top).value;
      PushUndirected(vs, start, copy, stack, path, a, popped, top, es, c1, x, i, Unlink(c1, x, top));
    }
  }

  /**
   * Undirected step: popping the last record `top -> x` of the top's copy,
   * splicing the first record `x -> top` out of `x`'s copy and pushing `x`.
   */
  lemma PushUndirected(vs: seq<Vertex>, start: nat, copy: seq<seq<Edge>>, stack: seq<nat>, path: seq<nat>, a: nat, popped: nat,
                       top: nat, es: seq<Edge>, c1: seq<seq<Edge>>, x: nat, i: nat, c2: seq<seq<Edge>>)
    requires EulerInv(vs, false, start, copy, stack, path, a, popped)
    requires |stack| > 0 && top == stack[|stack| - 1] && es == copy[top] && |es| > 0
    requires x == es[|es| - 1].target && c1 == copy[top := es[..|es| - 1]]
    requires x < |c1| && i < |c1[x]| && c1[x][i].target == top
    requires c2 == c1[x := c1[x][..i] + c1[x][i + 1..]]
    ensures EulerInv(vs, false, start, c2, stack + [x], path, a, popped + 1)
    ensures SumLengths(c2) < SumLengths(copy)
  {
    SpliceBack(copy, top, c1, x, i, c2);
    SubListTarget(vs, copy, top, |es| - 1);
    assert EulerShape(vs, false, start, c2, stack + [x], path, popped + 1) by {
      PushShape(vs, false, start, copy, stack, path, popped, x, c2);
    }
    assert UndirectedInv(vs, start, c2, stack + [x], path, a) by {
      PushKeepsUndirected(vs, start, copy, stack, path, a, x, c2);
    }
    assert RecordsTaken(vs, c2, stack + [x], path, a) by {
      TakenPush(vs, copy, stack, path, a, x, c2);
    }
  }

  /** A push of a target of the top that takes one record (undirected: a pair) keeps the shared part of the state. */
  lemma PushShape(vs: seq<Vertex>, directed: bool, start: nat, copy: seq<seq<Edge>>, stack: seq<nat>, path: seq<nat>, popped: nat,
                  x: nat, c2: seq<seq<Edge>>)
    requires EulerShape(vs, directed, start, copy, stack, path, popped) && |stack| > 0
    requires x < |vs| && Adj(vs, stack[|stack| - 1], x)
    requires |c2| == |copy| && forall v, f :: 0 <= v < |copy| && f in c2[v] ==> f in copy[v]
    requires SumLengths(c2) + (if directed then 1 else 2) == SumLengths(copy)
    ensures EulerShape(vs, directed, start, c2, stack + [x], path, popped + 1)
  {
    StackWalkPush(vs, stack, x);
    SubListsShrink(copy, c2, vs);
    var stack' := stack + [x];
    assert AllBelow(stack', |vs|) by {
      forall i | 0 <= i < |stack'| ensures stack'[i] < |vs| {
        if i < |stack| {
          assert stack'[i] == stack[i];
        }
      }
    }
  }

  /** Pushing `x` after removing a record pair between the top and `x` keeps the undirected part of the state. */
  lemma PushKeepsUndirected(vs: seq<Vertex>, start: nat, copy: seq<seq<Edge>>, stack: seq<nat>, path: seq<nat>, a: nat,
                            x: nat, c2: seq<seq<Edge>>)
    requires |copy| == |vs| == |c2| && |stack| > 0
    requires UndirectedInv(vs, start, copy, stack, path, a)
    requires Paired(c2)
    requires forall v :: 0 <= v < |copy| ==> (Odd(c2[v]) <==> ((Odd(copy[v]) != (v == stack[|stack| - 1])) != (v == x)))
    ensures UndirectedInv(vs, start, c2, stack + [x], path, a)
  {
    var stack' := stack + [x];
    assert stack'[|stack'| - 1] == x;
    if |path| > 0 {
      assert stack'[a] == stack[a];
    }
  }

  /** The first pop of an undirected graph happens at `EulerEnd`, and leaves every copied list even. */
  lemma FirstPopParity(vs: seq<Vertex>, start: nat, copy: seq<seq<Edge>>, t: nat)
    requires |vs| > 0 && |copy| == |vs| && t < |vs| && |copy[t]| == 0
    requires (|OddVertices(vs)| == 0 || |OddVertices(vs)| == 2) && start == EulerStart(vs)
    requires WalkParity(vs, copy, start, t)
    ensures t == EulerEnd(vs)
    ensures forall v :: 0 <= v < |vs| ==> !Odd(copy[v])
  {
    var odd := OddVertices(vs);
    assert !Odd(copy[t]);
    if |odd| == 2 {
      assert odd[0] in odd && odd[1] in odd;
      assert t in odd;
      assert odd[0] < odd[1];
      forall v | 0 <= v < |vs| ensures !Odd(copy[v]) {
        if Odd(vs[v].edges) {
          assert v in odd;
        }
      }
    }
  }

  /** A pop moves the top to the path. */
  lemma PopStep(vs: seq<Vertex>, directed: bool, start: nat, copy: seq<seq<Edge>>, stack: seq<nat>, path: seq<nat>, a: nat, popped: nat)
    requires EulerInv(vs, directed, start, copy, stack, path, a, popped)
    requires |stack| > 0 && |copy[stack[|stack| - 1]]| == 0
    ensures EulerInv(vs, directed, start, copy, stack[..|stack| - 1], path + [stack[|stack| - 1]],
                     if |stack| > 1 then |stack| - 2 else 0, popped)
  {
    PopShape(vs, directed, start, copy, stack, path, popped);
    if !directed {
      PopUndirected(vs, start, copy, stack, path, a);
      PopAtAnchor(vs, start, copy, stack, path, a);
      TakenPop(vs, copy, stack, path, a);
    }
  }

  /** A pop keeps the shared part of the loop state. */
  lemma PopShape(vs: seq<Vertex>, directed: bool, start: nat, copy: seq<seq<Edge>>, stack: seq<nat>, path: seq<nat>, popped: nat)
    requires EulerShape(vs, directed, start, copy, stack, path, popped) && |stack| > 0
    ensures EulerShape(vs, directed, start, copy, stack[..|stack| - 1], path + [stack[|stack| - 1]], popped)
  {
    var t := stack[|stack| - 1];
    var stack' := stack[..|stack| - 1];
    var path' := path + [t];
    StackWalkPop(vs, stack);
    assert AllBelow(stack', |vs|) by {
      forall i | 0 <= i < |stack'| ensures stack'[i] < |vs| {
        assert stack'[i] == stack[i];
      }
    }
    assert AllBelow(path', |vs|) by {
      forall i | 0 <= i < |path'| ensures path'[i] < |vs| {
        if i < |path| {
          assert path'[i] == path[i];
        }
      }
    }
    assert |stack'| > 0 ==> stack'[0] == start;
    assert path'[|path'| - 1] == t;
  }

  /** The undirected part of a pop: the popped vertex is the anchor, or `EulerEnd` at the first pop. */
  lemma PopUndirected(vs: seq<Vertex>, start: nat, copy: seq<seq<Edge>>, stack: seq<nat>, path: seq<nat>, a: nat)
    requires |vs| > 0 && |copy| == |vs| && (|OddVertices(vs)| == 0 || |OddVertices(vs)| == 2) && start == EulerStart(vs)
    requires UndirectedInv(vs, start, copy, stack, path, a) && StackWalk(vs, stack) && AllBelow(stack, |vs|)
    requires |stack| > 0 && |copy[stack[|stack| - 1]]| == 0
    ensures UndirectedInv(vs, start, copy, stack[..|stack| - 1], path + [stack[|stack| - 1]],
                          if |stack| > 1 then |stack| - 2 else 0)
  {
    var t := stack[|stack| - 1];
    var stack' := stack[..|stack| - 1];
    var path' := path + [t];
    var a' := if |stack| > 1 then |stack| - 2 else 0;
    if |path| == 0 {
      FirstPopParity(vs, start, copy, t);
    } else {
      assert !Odd(copy[t]);
      assert t == stack[a];
    }
    if |stack'| > 0 {
      assert stack'[a'] == stack[|stack| - 2];
      assert Adj(vs, stack[|stack| - 2], stack[|stack| - 1]);
    }
    assert PathAdjacent(vs, path') by {
      forall i | 0 <= i < |path'| - 1 ensures Adj(vs, path'[i + 1], path'[i]) {
        if i < |path| - 1 {
          assert path'[i + 1] == path[i + 1] && path'[i] == path[i];
        }
      }
    }
  }

  /**
   * When the stack is empty the reversed path starts at `start`; undirected,
   * each element is adjacent to the next, the path ends at `EulerEnd`, it
   * took two records of the copy per step, and between any two vertices it
   * walks no more often (in either direction) than there are records joining
   * them: no edge is walked twice.
   */
  lemma EulerDone(vs: seq<Vertex>, directed: bool, start: nat, copy: seq<seq<Edge>>, stack: seq<nat>, path: seq<nat>, a: nat, popped: nat)
    requires EulerInv(vs, directed, start, copy, stack, path, a, popped) && |stack| == 0
    ensures var r := Reverse(path);
      && |r| > 0 && r[0] == start && AllBelow(r, |vs|)
      && (directed ==> |r| - 1 <= SumLengths(Lists(vs)))
      && (!directed ==> 2 * (|r| - 1) <= SumLengths(Lists(vs)))
      && (!directed ==> r[|r| - 1] == EulerEnd(vs) && forall i :: 0 <= i < |r| - 1 ==> Adj(vs, r[i], r[i + 1]))
      && (!directed ==> forall u, v :: 0 <= u < |vs| && 0 <= v < |vs| ==>
            Traversals(r, u, v) + Traversals(r, v, u) <= CountTo(vs[u].edges, v))
  {
    var r := Reverse(path);
    if !directed {
      forall i | 0 <= i < |r| - 1 ensures Adj(vs, r[i], r[i + 1]) {
        var k := |path| - 2 - i;
        assert r[i] == path[k + 1] && r[i + 1] == path[k];
      }
      assert stack == [];
      WalkedOnce(vs, copy, path, a);
    }
  }

  /** Once the stack is empty, the reversed path walks each record pair at most once. */
  lemma WalkedOnce(vs: seq<Vertex>, copy: seq<seq<Edge>>, path: seq<nat>, a: nat)
    requires |copy| == |vs| && RecordsTaken(vs, copy, [], path, a)
    ensures forall u, v :: 0 <= u < |vs| && 0 <= v < |vs| ==>
              Traversals(Reverse(path), u, v) + Traversals(Reverse(path), v, u) <= CountTo(vs[u].edges, v)
  {
    forall u, v | 0 <= u < |vs| && 0 <= v < |vs|
      ensures Traversals(Reverse(path), u, v) + Traversals(Reverse(path), v, u) <= CountTo(vs[u].edges, v)
    {
      assert Taken([], path, a, u, v) == Traversals(path, v, u);
      assert Taken([], path, a, v, u) == Traversals(path, u, v);
      TraversalsReverse(path, u, v);
      TraversalsReverse(path, v, u);
    }
  }
}
