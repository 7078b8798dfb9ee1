/** Undirected walks over a set of edges. */
module Graphs {
  import Sorting

  type Edge = (string, string)

  predicate Adjacent(es: set<Edge>, a: string, b: string) {
    (a, b) in es || (b, a) in es
  }

  predicate Walk(es: set<Edge>, p: seq<string>) {
    |p| > 0 && forall i | 0 <= i < |p| - 1 :: Adjacent(es, p[i], p[i + 1])
  }

  predicate WalkBetween(es: set<Edge>, p: seq<string>, a: string, b: string) {
    Walk(es, p) && p[0] == a && p[|p| - 1] == b
  }

  ghost predicate Linked(es: set<Edge>, a: string, b: string) {
    exists p :: WalkBetween(es, p, a, b)
  }

  lemma LinkedRefl(es: set<Edge>, a: string)
    ensures Linked(es, a, a)
  {
    assert WalkBetween(es, [a], a, a);
  }

  lemma LinkedEdge(es: set<Edge>, a: string, b: string)
    requires Adjacent(es, a, b)
    ensures Linked(es, a, b)
  {
    assert WalkBetween(es, [a, b], a, b);
  }

  function Reversed(p: seq<string>): (r: seq<string>)
    ensures |r| == |p| && forall i | 0 <= i < |p| :: r[i] == p[|p| - 1 - i]
  {
    seq(|p|, i requires 0 <= i < |p| => p[|p| - 1 - i])
  }

  lemma LinkedSym(es: set<Edge>, a: string, b: string)
    requires Linked(es, a, b)
    ensures Linked(es, b, a)
  {
    var p :| WalkBetween(es, p, a, b);
    var r := Reversed(p);
    forall i | 0 <= i < |r| - 1 ensures Adjacent(es, r[i], r[i + 1]) {
      assert Adjacent(es, p[|p| - 2 - i], p[|p| - 2 - i + 1]);
    }
    assert WalkBetween(es, r, b, a);
  }

  lemma LinkedTrans(es: set<Edge>, a: string, b: string, c: string)
    requires Linked(es, a, b) && Linked(es, b, c)
    ensures Linked(es, a, c)
  {
    var p :| WalkBetween(es, p, a, b);
    var q :| WalkBetween(es, q, b, c);
    var r := p + q[1..];
    forall i | 0 <= i < |r| - 1 ensures Adjacent(es, r[i], r[i + 1]) {
      if i < |p| - 1 {
        assert Adjacent(es, p[i], p[i + 1]);
      } else {
        assert r[i] == q[i - |p| + 1] && r[i + 1] == q[i - |p| + 2];
        assert Adjacent(es, q[i - |p| + 1], q[i - |p| + 1 + 1]);
      }
    }
    assert WalkBetween(es, r, a, c);
  }

  /** A walk can be shortened until it repeats nothing. */
  lemma {:induction false} SimpleWalk(es: set<Edge>, p: seq<string>, a: string, b: string) returns (q: seq<string>)
    requires WalkBetween(es, p, a, b)
    ensures WalkBetween(es, q, a, b) && Sorting.NoRepeats(q)
    decreases |p|
  {
    if Sorting.NoRepeats(p) {
      q := p;
    } else {
      var i, j :| 0 <= i < j < |p| && p[i] == p[j];
      var r := p[..i] + p[j..];
      forall k | 0 <= k < |r| - 1 ensures Adjacent(es, r[k], r[k + 1]) {
        if k < i - 1 {
          assert Adjacent(es, p[k], p[k + 1]);
        } else if k == i - 1 {
          assert r[k + 1] == p[j] == p[i] && Adjacent(es, p[k], p[k + 1]);
        } else {
          assert r[k] == p[k - i + j] && r[k + 1] == p[k - i + j + 1];
        }
      }
      q := SimpleWalk(es, r, a, b);
    }
  }

  // ----- forests -----

  function EdgeSet(es: seq<Edge>): set<Edge> {
    set e | e in es
  }

  /** No loop, and no edge twice in either direction. */
  predicate SimpleEdges(es: seq<Edge>) {
    && (forall e | e in es :: e.0 != e.1)
    && forall i, j | 0 <= i < j < |es| :: es[i] != es[j] && (es[i].1, es[i].0) != es[j]
  }

  /** Each edge joins two parts that were apart: the graph has no cycle. */
  ghost predicate Forest(es: seq<Edge>) {
    forall i | 0 <= i < |es| :: !Linked(EdgeSet(es[..i]), es[i].0, es[i].1)
  }

  /** A closed walk through at least three distinct nodes. */
  predicate Cycle(es: set<Edge>, p: seq<string>) {
    |p| >= 3 && Walk(es, p) && Sorting.NoRepeats(p) && Adjacent(es, p[|p| - 1], p[0])
  }

  lemma NotForestHasCycle(es: seq<Edge>) returns (p: seq<string>)
    requires SimpleEdges(es) && !Forest(es)
    ensures Cycle(EdgeSet(es), p)
  {
    var i :| 0 <= i < |es| && Linked(EdgeSet(es[..i]), es[i].0, es[i].1);
    var (a, b) := es[i];
    var w :| WalkBetween(EdgeSet(es[..i]), w, a, b);
    p := SimpleWalk(EdgeSet(es[..i]), w, a, b);
    assert es[i] in es;
    assert (a, b) !in es[..i] && (b, a) !in es[..i];
    assert !Adjacent(EdgeSet(es[..i]), a, b);
    assert |p| >= 2 ==> Adjacent(EdgeSet(es[..i]), p[0], p[0 + 1]);
    assert EdgeSet(es[..i]) <= EdgeSet(es);
    forall k | 0 <= k < |p| - 1 ensures Adjacent(EdgeSet(es), p[k], p[k + 1]) {
      assert Adjacent(EdgeSet(es[..i]), p[k], p[k + 1]);
    }
  }
}
