/** The coloured depth-first walk behind both cycle checks of
    compiler/src/link_verify.rs (`detect_cycle`, `detect_definition_cycle`). */
module DepthFirst {
  import Sorting

  const MAX_CHAIN_DEPTH := 1000

  /** Successors by node, and the nodes that point at something unknown. A name without
      an entry has no successors. */
  datatype Graph = Graph(edges: map<string, seq<string>>, missing: map<string, string>)

  datatype Mark = Visiting | Finished

  datatype Walker = Walker(marks: map<string, Mark>, stack: seq<string>)

  datatype Outcome =
    | Fine(walker: Walker)
    | CycleFound(path: seq<string>)
    | TooDeep(at: string)
    | UnknownTarget(node: string, target: string)

  function Next(g: Graph, n: string): seq<string> {
    if n in g.edges then g.edges[n] else []
  }

  function PositionOf(stack: seq<string>, n: string): (k: nat)
    ensures n in stack ==> k < |stack| && stack[k] == n && n !in stack[..k]
    ensures n !in stack ==> k == |stack|
  {
    if stack == [] || stack[0] == n then 0
    else
      var k := PositionOf(stack[1..], n);
      assert stack == [stack[0]] + stack[1..];
      k + 1
  }

  function CycleFrom(stack: seq<string>, n: string): seq<string> {
    var start := if n in stack then PositionOf(stack, n) else 0;
    stack[start..] + [n]
  }

  /** Visit one node. */
  function Visit(g: Graph, w: Walker, n: string): (r: Outcome)
    requires |w.stack| <= MAX_CHAIN_DEPTH
    ensures r.Fine? ==> r.walker.stack == w.stack
    decreases MAX_CHAIN_DEPTH + 1 - |w.stack|, 0, 1
  {
    if n in w.marks then
      if w.marks[n] == Visiting then CycleFound(CycleFrom(w.stack, n)) else Fine(w)
    else
      var inside := Walker(w.marks[n := Visiting], w.stack + [n]);
      if |inside.stack| > MAX_CHAIN_DEPTH then TooDeep(n)
      else if n in g.missing then UnknownTarget(n, g.missing[n])
      else
        match VisitEach(g, inside, Next(g, n))
        case Fine(after) => Fine(Walker(after.marks[n := Finished], after.stack[..|after.stack| - 1]))
        case other => other
  }

  function VisitEach(g: Graph, w: Walker, ns: seq<string>): (r: Outcome)
    requires |w.stack| <= MAX_CHAIN_DEPTH
    ensures r.Fine? ==> r.walker.stack == w.stack
    decreases MAX_CHAIN_DEPTH + 1 - |w.stack|, |ns|, 0
  {
    if ns == [] then Fine(w)
    else
      match Visit(g, w, ns[0])
      case Fine(after) => VisitEach(g, after, ns[1..])
      case other => other
  }

  /** The whole check: every root in order, from an empty walker. */
  function Check(g: Graph, roots: seq<string>): Outcome {
    VisitEach(g, Walker(map[], []), roots)
  }

  function Roots(g: Graph): seq<string> {
    Sorting.Keys(g.edges.Keys)
  }

  /** The walk as it is carried out: marks and stack are updated in place, and the
      recursion is never more than `MAX_CHAIN_DEPTH + 1` calls deep. */
  class Detector {
    const graph: Graph
    var marks: map<string, Mark>
    var stack: seq<string>

    constructor (g: Graph)
      ensures graph == g && marks == map[] && stack == []
    {
      graph, marks, stack := g, map[], [];
    }

    function State(): Walker
      reads this
    {
      Walker(marks, stack)
    }

    method DetectCycle(n: string) returns (r: Outcome)
      requires |stack| <= MAX_CHAIN_DEPTH
      modifies this
      ensures r == Visit(graph, old(State()), n)
      ensures r.Fine? ==> State() == r.walker
      decreases MAX_CHAIN_DEPTH + 1 - |stack|, 0, 1
    {
      if n in marks {
        if marks[n] == Visiting {
          return CycleFound(CycleFrom(stack, n));
        }
        return Fine(State());
      }
      marks := marks[n := Visiting];
      stack := stack + [n];
      if |stack| > MAX_CHAIN_DEPTH {
        return TooDeep(n);
      }
      if n in graph.missing {
        return UnknownTarget(n, graph.missing[n]);
      }
      r := DetectEach(Next(graph, n));
      if r.Fine? {
        stack := stack[..|stack| - 1];
        marks := marks[n := Finished];
        r := Fine(State());
      }
    }

    method DetectEach(ns: seq<string>) returns (r: Outcome)
      requires |stack| <= MAX_CHAIN_DEPTH
      modifies this
      ensures r == VisitEach(graph, old(State()), ns)
      ensures r.Fine? ==> State() == r.walker
      decreases MAX_CHAIN_DEPTH + 1 - |stack|, |ns|, 0
    {
      ghost var start := State();
      for k := 0 to |ns|
        invariant |stack| == |start.stack|
        invariant VisitEach(graph, start, ns) == VisitEach(graph, State(), ns[k..])
      {
        r := DetectCycle(ns[k]);
        if !r.Fine? {
          return;
        }
      }
      r := Fine(State());
    }
  }

  method CheckAcyclic(g: Graph) returns (r: Outcome)
    requires g.missing.Keys <= g.edges.Keys
    ensures r == Check(g, Roots(g)) && Justified(g, r)
    ensures r.Fine? ==> Acyclic(g) && g.missing == map[]
  {
    var d := new Detector(g);
    r := d.DetectEach(Roots(g));
    CheckIsRight(g);
  }

  // ----- what a verdict means -----

  /** A directed path. */
  predicate Path(g: Graph, p: seq<string>) {
    |p| > 0 && forall i | 0 <= i < |p| - 1 :: p[i + 1] in Next(g, p[i])
  }

  predicate RealCycle(g: Graph, p: seq<string>) {
    Path(g, p) && |p| >= 2 && p[0] == p[|p| - 1]
  }

  /** `order` lists nodes so that each comes after everything it points at, and none
      points at something unknown. */
  predicate Settled(g: Graph, order: seq<string>) {
    && Sorting.NoRepeats(order)
    && forall i | 0 <= i < |order| :: order[i] !in g.missing && forall m | m in Next(g, order[i]) :: m in order[..i]
  }

  /** What every step of the walk keeps: a node is being visited exactly when it is on
      the stack, the stack is a path without repeats, and finished nodes are settled. */
  ghost predicate Inv(g: Graph, w: Walker, order: seq<string>) {
    && (forall n :: MarkedRight(w, order, n))
    && (w.stack == [] || Path(g, w.stack)) && Sorting.NoRepeats(w.stack)
    && Settled(g, order)
    && |w.stack| <= MAX_CHAIN_DEPTH
  }

  predicate MarkedRight(w: Walker, order: seq<string>, n: string) {
    && (n in w.stack <==> n in w.marks && w.marks[n] == Visiting)
    && (n in order <==> n in w.marks && w.marks[n] == Finished)
  }

  predicate CanStep(g: Graph, w: Walker, n: string) {
    w.stack == [] || n in Next(g, w.stack[|w.stack| - 1])
  }

  /** What a refusal shows. */
  ghost predicate Justified(g: Graph, r: Outcome) {
    match r
    case Fine(_) => true
    case CycleFound(p) => RealCycle(g, p)
    case TooDeep(n) => exists p :: Path(g, p) && Sorting.NoRepeats(p) && |p| == MAX_CHAIN_DEPTH + 1 && p[|p| - 1] == n
    case UnknownTarget(n, m) => n in g.missing && g.missing[n] == m
  }

  lemma Pushed(g: Graph, w: Walker, order: seq<string>, n: string)
    requires Inv(g, w, order) && CanStep(g, w, n) && n !in w.marks
    ensures Path(g, w.stack + [n]) && Sorting.NoRepeats(w.stack + [n])
    ensures |w.stack| < MAX_CHAIN_DEPTH ==> Inv(g, Walker(w.marks[n := Visiting], w.stack + [n]), order)
  {
    var p := w.stack + [n];
    assert MarkedRight(w, order, n);
    forall i | 0 <= i < |p| - 1 ensures p[i + 1] in Next(g, p[i]) {
      if i + 1 < |w.stack| { assert w.stack[i + 1] in Next(g, w.stack[i]); }
    }
    var w' := Walker(w.marks[n := Visiting], p);
    forall m ensures MarkedRight(w', order, m) {
      assert MarkedRight(w, order, m);
    }
  }

  lemma ClosedByStack(g: Graph, w: Walker, order: seq<string>, n: string)
    requires Inv(g, w, order) && CanStep(g, w, n) && n in w.stack
    ensures RealCycle(g, CycleFrom(w.stack, n))
  {
  }

  lemma SettledAppend(g: Graph, order: seq<string>, n: string)
    requires Settled(g, order) && n !in order && n !in g.missing && forall m | m in Next(g, n) :: m in order
    ensures Settled(g, order + [n])
  {
    var order' := order + [n];
    forall i | 0 <= i < |order'|
      ensures order'[i] !in g.missing && forall m | m in Next(g, order'[i]) :: m in order'[..i]
    {
      assert order'[..i] == order[..i];
      if i < |order| { assert order[i] == order'[i]; } else { assert order[..i] == order; }
    }
  }

  lemma PathPrefix(g: Graph, p: seq<string>)
    requires |p| > 0 && Path(g, p) && Sorting.NoRepeats(p)
    ensures |p| > 1 ==> Path(g, p[..|p| - 1])
    ensures Sorting.NoRepeats(p[..|p| - 1]) && p[|p| - 1] !in p[..|p| - 1]
  {
  }

  lemma Popped(g: Graph, w: Walker, order: seq<string>, n: string)
    requires Inv(g, w, order) && w.stack != [] && w.stack[|w.stack| - 1] == n && n !in g.missing
    requires forall m | m in Next(g, n) :: m in order
    ensures Inv(g, Walker(w.marks[n := Finished], w.stack[..|w.stack| - 1]), order + [n])
  {
    var rest := w.stack[..|w.stack| - 1];
    assert w.stack == rest + [n];
    assert n in w.stack && MarkedRight(w, order, n) && n !in order;
    PathPrefix(g, w.stack);
    SettledAppend(g, order, n);
    var w' := Walker(w.marks[n := Finished], rest);
    forall m ensures MarkedRight(w', order + [n], m) {
      assert MarkedRight(w, order, m);
    }
  }

  function Entered(w: Walker, n: string): Walker {
    Walker(w.marks[n := Visiting], w.stack + [n])
  }

  lemma Enterable(g: Graph, w: Walker, n: string)
    ensures forall m | m in Next(g, n) :: CanStep(g, Entered(w, n), m)
  {
  }

  /** One visit keeps the invariant, settles its node, and justifies a refusal. */
  lemma {:induction false} VisitKeeps(g: Graph, w: Walker, order: seq<string>, n: string) returns (order': seq<string>)
    requires Inv(g, w, order) && CanStep(g, w, n)
    ensures Justified(g, Visit(g, w, n))
    ensures Visit(g, w, n).Fine? ==> Inv(g, Visit(g, w, n).walker, order') && n in order' && order <= order'
    decreases MAX_CHAIN_DEPTH + 1 - |w.stack|, 0, 2
  {
    order' := order;
    assert MarkedRight(w, order, n);
    if n in w.marks {
      if w.marks[n] == Visiting {
        ClosedByStack(g, w, order, n);
      }
    } else if |w.stack| == MAX_CHAIN_DEPTH {
      Pushed(g, w, order, n);
    } else if n !in g.missing {
      order' := NewNodeKeeps(g, w, order, n);
    }
  }

  lemma {:induction false} NewNodeKeeps(g: Graph, w: Walker, order: seq<string>, n: string)
      returns (order': seq<string>)
    requires Inv(g, w, order) && CanStep(g, w, n) && n !in w.marks && |w.stack| < MAX_CHAIN_DEPTH && n !in g.missing
    ensures Justified(g, Visit(g, w, n))
    ensures Visit(g, w, n).Fine? ==> Inv(g, Visit(g, w, n).walker, order') && n in order' && order <= order'
    decreases MAX_CHAIN_DEPTH + 1 - |w.stack|, 0, 1
  {
    Pushed(g, w, order, n);
    Enterable(g, w, n);
    order' := EachKeeps(g, Entered(w, n), order, Next(g, n));
    var r := VisitEach(g, Entered(w, n), Next(g, n));
    if r.Fine? {
      Popped(g, r.walker, order', n);
      order' := order' + [n];
    }
  }

  lemma {:induction false} EachKeeps(g: Graph, w: Walker, order: seq<string>, ns: seq<string>)
      returns (order': seq<string>)
    requires Inv(g, w, order) && forall n | n in ns :: CanStep(g, w, n)
    ensures Justified(g, VisitEach(g, w, ns))
    ensures VisitEach(g, w, ns).Fine? ==>
              Inv(g, VisitEach(g, w, ns).walker, order') && (forall n | n in ns :: n in order') && order <= order'
    decreases MAX_CHAIN_DEPTH + 1 - |w.stack|, |ns|, 0
  {
    order' := order;
    if ns != [] {
      order' := VisitKeeps(g, w, order, ns[0]);
      var r := Visit(g, w, ns[0]);
      if r.Fine? {
        var mid := order';
        forall n | n in ns[1..] ensures CanStep(g, r.walker, n) {
          assert n in ns;
        }
        order' := EachKeeps(g, r.walker, mid, ns[1..]);
        if VisitEach(g, w, ns).Fine? {
          assert forall n | n in ns :: n == ns[0] || n in ns[1..];
          assert order'[PositionOf(mid, ns[0])] == ns[0];
        }
      }
    }
  }

  ghost predicate Acyclic(g: Graph) {
    forall p :: !RealCycle(g, p)
  }

  /** Along a path through settled nodes the position only falls. */
  lemma {:induction false} PositionsFall(g: Graph, order: seq<string>, p: seq<string>, k: nat)
    requires Settled(g, order) && Path(g, p) && k < |p| && p[0] in order
    ensures p[k] in order && (k > 0 ==> PositionOf(order, p[k]) < PositionOf(order, p[0]))
  {
    if k > 0 {
      PositionsFall(g, order, p, k - 1);
      var i := PositionOf(order, p[k - 1]);
      assert p[k - 1 + 1] in Next(g, p[k - 1]);
      assert p[k] in order[..i];
      var j :| 0 <= j < i && order[..i][j] == p[k];
      assert PositionOf(order, p[k]) <= j;
    }
  }

  /** An accepted graph has no cycle and no unknown target, and a refused one shows why. */
  lemma CheckIsRight(g: Graph)
    requires g.missing.Keys <= g.edges.Keys
    ensures Check(g, Roots(g)).Fine? ==> Acyclic(g) && g.missing == map[]
    ensures Justified(g, Check(g, Roots(g)))
  {
    var order := EachKeeps(g, Walker(map[], []), [], Roots(g));
    if Check(g, Roots(g)).Fine? {
      forall n | n in g.edges ensures n in order && n !in g.missing {
        assert n in Roots(g);
      }
      forall p | RealCycle(g, p) ensures false {
        assert p[0 + 1] in Next(g, p[0]);
        PositionsFall(g, order, p, |p| - 1);
      }
    }
  }

  /** Every path without repeats fits under the ceiling. */
  ghost predicate Shallow(g: Graph) {
    forall p | Path(g, p) && Sorting.NoRepeats(p) :: |p| <= MAX_CHAIN_DEPTH
  }

  /** Under the ceiling the check accepts exactly the acyclic graphs without unknown
      targets. */
  lemma ShallowIsExact(g: Graph)
    requires g.missing.Keys <= g.edges.Keys && Shallow(g)
    ensures Check(g, Roots(g)).Fine? <==> Acyclic(g) && g.missing == map[]
  {
    CheckIsRight(g);
  }
}
