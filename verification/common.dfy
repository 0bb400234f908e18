/** Small shared vocabulary: an optional value and sequences without repeats. */
module Common {

  /** A value that may be absent; stands for JavaScript's `null` results. */
  datatype Option<T> = None | Some(value: T)

  /** No element occurs twice in `s`. */
  predicate Distinct<T(==)>(s: seq<T>) {
    forall i, j :: 0 <= i < j < |s| ==> s[i] != s[j]
  }

  /** Reversal of a sequence (JavaScript's `Array.prototype.reverse`). */
  function Reverse<T>(s: seq<T>): (r: seq<T>)
    ensures |r| == |s|
    ensures forall i :: 0 <= i < |s| ==> r[i] == s[|s| - 1 - i]
  {
    if s == [] then [] else Reverse(s[1..]) + [s[0]]
  }

  /** The numbers below `n`. */
  function Below(n: nat): (r: set<nat>)
    ensures forall v :: v in r <==> 0 <= v < n
    ensures |r| == n
  {
    if n == 0 then {} else Below(n - 1) + {n - 1}
  }

  /** A repeat-free sequence of `n` numbers below `n` contains every number below `n`. */
  lemma {:induction false} DistinctCovers(s: seq<nat>, n: nat)
    requires Distinct(s) && |s| == n
    requires forall i :: 0 <= i < |s| ==> s[i] < n
    ensures forall v :: 0 <= v < n ==> v in s
  {
    var elems := set i | 0 <= i < |s| :: s[i];
    DistinctCard(s);
    assert elems <= Below(n);
    assert |Below(n) - elems| == |Below(n)| - |elems| == 0;
    assert Below(n) - elems == {};
    forall v | 0 <= v < n ensures v in s {
      assert v in Below(n);
      assert v !in Below(n) - elems;
    }
  }

  /** A repeat-free sequence of numbers below `n` has at most `n` elements. */
  lemma DistinctBound(s: seq<nat>, n: nat)
    requires Distinct(s)
    requires forall i :: 0 <= i < |s| ==> s[i] < n
    ensures |s| <= n
  {
    var elems := set i | 0 <= i < |s| :: s[i];
    DistinctCard(s);
    assert elems <= Below(n);
    assert |Below(n) - elems| == |Below(n)| - |elems|;
  }

  lemma {:induction false} DistinctCard(s: seq<nat>)
    requires Distinct(s)
    ensures |set i | 0 <= i < |s| :: s[i]| == |s|
  {
    if s != [] {
      var t := s[..|s| - 1];
      DistinctCard(t);
      var last := s[|s| - 1];
      assert (set i | 0 <= i < |s| :: s[i]) == (set i | 0 <= i < |t| :: t[i]) + {last};
      assert last !in (set i | 0 <= i < |t| :: t[i]);
    }
  }

  /** Two repeat-free sequences with no common element concatenate to a repeat-free sequence. */
  lemma DistinctAppend<T>(a: seq<T>, b: seq<T>)
    requires Distinct(a) && Distinct(b)
    requires forall x :: x in b ==> x !in a
    ensures Distinct(a + b)
  {
    forall i, j | 0 <= i < j < |a + b| ensures (a + b)[i] != (a + b)[j] {
      if j >= |a| && i < |a| {
        assert (a + b)[j] in b && (a + b)[i] == a[i];
      }
    }
  }

  /** Moving the front of a queue to the done prefix and appending to the queue keeps the overall list. */
  lemma DequeueConcat<T>(done: seq<T>, queue: seq<T>, added: seq<T>)
    requires |queue| > 0
    ensures (done + queue) + added == (done + [queue[0]]) + (queue[1..] + added)
  {
    assert queue == [queue[0]] + queue[1..];
  }
}
