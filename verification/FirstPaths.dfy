/** Exactly when the depth ceiling refuses: the walk finds every node along one path that the
    graph and the order of names fix beforehand, and refuses when one of these paths is longer
    than the ceiling (compiler/src/link_verify.rs). */
module FirstPaths {
  import opened DepthFirst
  import DepthCeiling
  import Sorting

  /** Some path leads from `a` to `b`. */
  ghost predicate Reaches(g: Graph, a: string, b: string) {
    exists p :: Path(g, p) && p[0] == a && p[|p| - 1] == b
  }

  /** What the walk chooses from below the given stack: the roots, or the successors of its top. */
  function Choices(g: Graph, stack: seq<string>): seq<string> {
    if stack == [] then Roots(g) else Next(g, stack[|stack| - 1])
  }

  /** `m` is the first choice that leads to `n`. */
  ghost predicate FirstTo(g: Graph, choices: seq<string>, m: string, n: string) {
    exists k :: 0 <= k < |choices| && choices[k] == m && Reaches(g, m, n) &&
        forall j | 0 <= j < k :: !Reaches(g, choices[j], n)
  }

  /** From the first root that leads to its end, `p` goes on to the first successor that still
      does. */
  ghost predicate FirstPath(g: Graph, p: seq<string>) {
    |p| > 0 && forall i | 0 <= i < |p| :: FirstAt(g, p, i)
  }

  ghost predicate FirstAt(g: Graph, p: seq<string>, i: nat)
    requires i < |p|
  {
    FirstTo(g, Choices(g, p[..i]), p[i], p[|p| - 1])
  }

  // ----- there is one first path to a node -----

  lemma FirstUnique(g: Graph, choices: seq<string>, m: string, m': string, n: string)
    requires FirstTo(g, choices, m, n) && FirstTo(g, choices, m', n)
    ensures m == m'
  {
    var k :| 0 <= k < |choices| && choices[k] == m && Reaches(g, m, n) &&
        forall j | 0 <= j < k :: !Reaches(g, choices[j], n);
    var k' :| 0 <= k' < |choices| && choices[k'] == m' && Reaches(g, m', n) &&
        forall j | 0 <= j < k' :: !Reaches(g, choices[j], n);
  }

  lemma {:induction false} SamePrefix(g: Graph, p: seq<string>, q: seq<string>, i: nat)
    requires FirstPath(g, p) && FirstPath(g, q) && p[|p| - 1] == q[|q| - 1] && i <= |p| && i <= |q|
    ensures p[..i] == q[..i]
  {
    if i > 0 {
      SamePrefix(g, p, q, i - 1);
      assert FirstAt(g, p, i - 1) && FirstAt(g, q, i - 1);
      FirstUnique(g, Choices(g, p[..i - 1]), p[i - 1], q[i - 1], p[|p| - 1]);
      assert p[..i] == p[..i - 1] + [p[i - 1]] && q[..i] == q[..i - 1] + [q[i - 1]];
    }
  }

  lemma FirstIsPath(g: Graph, p: seq<string>)
    requires FirstPath(g, p)
    ensures Path(g, p) && p[0] in Roots(g)
  {
    forall i | 0 <= i < |p| - 1 ensures p[i + 1] in Next(g, p[i]) {
      assert FirstAt(g, p, i + 1);
      assert p[..i + 1][i] == p[i];
    }
    assert FirstAt(g, p, 0);
  }

  lemma TailOfPath(g: Graph, p: seq<string>, i: nat)
    requires Path(g, p) && i < |p|
    ensures Path(g, p[i..])
  {
    var q := p[i..];
    forall j | 0 <= j < |q| - 1 ensures q[j + 1] in Next(g, q[j]) {
      assert p[i + j + 1] in Next(g, p[i + j]);
    }
  }

  lemma LeadsToEnd(g: Graph, p: seq<string>, i: nat)
    requires Path(g, p) && i < |p|
    ensures Reaches(g, p[i], p[|p| - 1])
  {
    TailOfPath(g, p, i);
    var q := p[i..];
    assert Path(g, q) && q[0] == p[i] && q[|q| - 1] == p[|p| - 1];
  }

  lemma NoReturn(g: Graph, p: seq<string>, i: nat)
    requires Acyclic(g) && Path(g, p) && i < |p| - 1
    ensures p[i] != p[|p| - 1]
  {
    TailOfPath(g, p, i);
    assert !RealCycle(g, p[i..]);
  }

  lemma NotLonger(g: Graph, p: seq<string>, q: seq<string>)
    requires Acyclic(g) && FirstPath(g, p) && FirstPath(g, q) && p[|p| - 1] == q[|q| - 1]
    ensures |q| <= |p|
  {
    FirstIsPath(g, q);
    if |p| < |q| {
      SamePrefix(g, p, q, |p|);
      assert p[..|p|][|p| - 1] == q[..|p|][|p| - 1];
      NoReturn(g, q, |p| - 1);
    }
  }

  lemma FirstPathUnique(g: Graph, p: seq<string>, q: seq<string>)
    requires Acyclic(g) && FirstPath(g, p) && FirstPath(g, q) && p[|p| - 1] == q[|q| - 1]
    ensures p == q
  {
    NotLonger(g, p, q);
    NotLonger(g, q, p);
    SamePrefix(g, p, q, |p|);
    assert p[..|p|] == p && q[..|q|] == q;
  }

  // ----- and every node a root leads to has one -----

  lemma {:induction false} FirstExists(g: Graph, choices: seq<string>, k: nat, n: string) returns (m: string)
    requires k < |choices| && Reaches(g, choices[k], n)
    ensures FirstTo(g, choices, m, n)
    decreases k
  {
    if j :| 0 <= j < k && Reaches(g, choices[j], n) {
      m := FirstExists(g, choices, j, n);
    } else {
      m := choices[k];
    }
  }

  /** `p` has followed first choices towards `n` so far. */
  ghost predicate Towards(g: Graph, p: seq<string>, n: string) {
    p != [] && forall i | 0 <= i < |p| :: TowardsAt(g, p, i, n)
  }

  ghost predicate TowardsAt(g: Graph, p: seq<string>, i: nat, n: string)
    requires i < |p|
  {
    FirstTo(g, Choices(g, p[..i]), p[i], n)
  }

  lemma TowardsEnd(g: Graph, p: seq<string>)
    requires p != [] && Towards(g, p, p[|p| - 1])
    ensures FirstPath(g, p)
  {
    forall i | 0 <= i < |p| ensures FirstAt(g, p, i) { assert TowardsAt(g, p, i, p[|p| - 1]); }
  }

  lemma TowardsIsPath(g: Graph, p: seq<string>, n: string)
    requires Acyclic(g) && Towards(g, p, n) && p[|p| - 1] != n
    ensures Path(g, p) && Sorting.NoRepeats(p) && Reaches(g, p[|p| - 1], n) && forall x | x in p :: x in g.edges
  {
    forall i | 0 <= i < |p| - 1 ensures p[i + 1] in Next(g, p[i]) {
      assert TowardsAt(g, p, i + 1, n) && p[..i + 1][i] == p[i];
    }
    forall i, j | 0 <= i < j < |p| ensures p[i] != p[j] {
      HeadOfPath(g, p, j);
      NoReturn(g, p[..j + 1], i);
    }
    assert TowardsAt(g, p, |p| - 1, n);
    forall x | x in p ensures x in g.edges {
      var i :| 0 <= i < |p| && p[i] == x;
      if i < |p| - 1 {
        assert p[i + 1] in Next(g, p[i]);
      } else {
        var q := StepTowards(g, x, n);
      }
    }
  }

  lemma HeadOfPath(g: Graph, p: seq<string>, j: nat)
    requires Path(g, p) && j < |p|
    ensures Path(g, p[..j + 1])
  {
    var q := p[..j + 1];
    forall i | 0 <= i < |q| - 1 ensures q[i + 1] in Next(g, q[i]) {
      assert p[i + 1] in Next(g, p[i]);
    }
  }

  lemma StepTowards(g: Graph, x: string, n: string) returns (k: nat)
    requires Reaches(g, x, n) && x != n
    ensures k < |Next(g, x)| && Reaches(g, Next(g, x)[k], n)
  {
    var q :| Path(g, q) && q[0] == x && q[|q| - 1] == n;
    assert q[0 + 1] in Next(g, q[0]);
    k :| 0 <= k < |Next(g, x)| && Next(g, x)[k] == q[1];
    LeadsToEnd(g, q, 1);
  }

  lemma {:induction false} Arrives(g: Graph, p: seq<string>, n: string) returns (q: seq<string>)
    requires Acyclic(g) && Towards(g, p, n) && (p[|p| - 1] == n || |p| <= |g.edges|)
    ensures FirstPath(g, q) && q[|q| - 1] == n
    decreases |g.edges| + 1 - |p|
  {
    if p[|p| - 1] == n {
      q := p;
      TowardsEnd(g, p);
    } else {
      TowardsIsPath(g, p, n);
      var last := p[|p| - 1];
      var k := StepTowards(g, last, n);
      var m := FirstExists(g, Next(g, last), k, n);
      TowardsNext(g, p, m, n);
      Fits(g, p, m, n);
      q := Arrives(g, p + [m], n);
    }
  }

  lemma TowardsNext(g: Graph, p: seq<string>, m: string, n: string)
    requires Towards(g, p, n) && FirstTo(g, Next(g, p[|p| - 1]), m, n)
    ensures Towards(g, p + [m], n)
  {
    var p' := p + [m];
    forall i | 0 <= i < |p'| ensures TowardsAt(g, p', i, n) {
      if i < |p| {
        assert p'[..i] == p[..i] && TowardsAt(g, p, i, n);
      } else {
        assert p'[..i] == p;
      }
    }
  }

  lemma Fits(g: Graph, p: seq<string>, m: string, n: string)
    requires Acyclic(g) && Towards(g, p + [m], n)
    ensures m == n || |p + [m]| <= |g.edges|
  {
    if m != n {
      TowardsIsPath(g, p + [m], n);
      DistinctCount(p + [m], g.edges.Keys);
      assert |g.edges| == |g.edges.Keys|;
    }
  }

  lemma {:induction false} DistinctCount(p: seq<string>, s: set<string>)
    requires Sorting.NoRepeats(p) && forall x | x in p :: x in s
    ensures |p| <= |s|
  {
    if p != [] {
      var last := p[|p| - 1];
      var rest := p[..|p| - 1];
      forall x | x in rest ensures x in s - {last} {
        var i :| 0 <= i < |rest| && rest[i] == x;
        assert p[i] != p[|p| - 1];
      }
      DistinctCount(rest, s - {last});
    }
  }

  /** Every node of an acyclic graph has a first path. */
  lemma FirstPathExists(g: Graph, n: string) returns (p: seq<string>)
    requires Acyclic(g) && n in g.edges
    ensures FirstPath(g, p) && p[|p| - 1] == n
  {
    assert n in Roots(g);
    var k :| 0 <= k < |Roots(g)| && Roots(g)[k] == n;
    LeadsToEnd(g, [n], 0);
    var m := FirstExists(g, Roots(g), k, n);
    var start := [m];
    assert start[..0] == [];
    assert TowardsAt(g, start, 0, n);
    assert |g.edges| >= 1;
    p := Arrives(g, start, n);
  }

  // ----- the walk follows first paths -----

  predicate Finishes(marks: map<string, Mark>, n: string) {
    n in marks && marks[n] == Finished
  }

  /** Every choice before the one taken at depth `i` is finished. */
  predicate EarlierDone(g: Graph, marks: map<string, Mark>, stack: seq<string>, i: nat)
    requires i < |stack|
  {
    exists k :: 0 <= k < |Choices(g, stack[..i])| && Choices(g, stack[..i])[k] == stack[i] &&
                forall j | 0 <= j < k :: Finishes(marks, Choices(g, stack[..i])[j])
  }

  predicate AllEarlierDone(g: Graph, marks: map<string, Mark>, stack: seq<string>) {
    forall i | 0 <= i < |stack| :: EarlierDone(g, marks, stack, i)
  }

  /** Some first path to `n` keeps under the ceiling. */
  ghost predicate FoundShallow(g: Graph, n: string) {
    exists p :: FirstPath(g, p) && p[|p| - 1] == n && |p| <= MAX_CHAIN_DEPTH
  }

  ghost predicate MarksShallow(g: Graph, w: Walker) {
    forall n | n in w.marks :: FoundShallow(g, n)
  }

  ghost predicate Kept(w: Walker, w': Walker) {
    forall n | Finishes(w.marks, n) :: Finishes(w'.marks, n)
  }

  lemma EarlierStaysDone(g: Graph, w: Walker, w': Walker, stack: seq<string>)
    requires Kept(w, w') && AllEarlierDone(g, w.marks, stack)
    ensures AllEarlierDone(g, w'.marks, stack)
  {
    forall i | 0 <= i < |stack| ensures EarlierDone(g, w'.marks, stack, i) {
      assert EarlierDone(g, w.marks, stack, i);
    }
  }

  /** A finished node leads only to finished nodes. */
  lemma FinishedClosed(g: Graph, w: Walker, order: seq<string>, m: string, n: string)
    requires Inv(g, w, order) && Finishes(w.marks, m) && Reaches(g, m, n)
    ensures Finishes(w.marks, n)
  {
    var p :| Path(g, p) && p[0] == m && p[|p| - 1] == n;
    assert MarkedRight(w, order, m) && MarkedRight(w, order, n);
    PositionsFall(g, order, p, |p| - 1);
  }

  lemma FoundFirstAt(g: Graph, w: Walker, order: seq<string>, p: seq<string>, i: nat)
    requires Inv(g, w, order) && Path(g, p) && i < |p| && p[|p| - 1] !in w.marks && EarlierDone(g, w.marks, p, i)
    ensures FirstAt(g, p, i)
  {
    var choices, n := Choices(g, p[..i]), p[|p| - 1];
    var k :| 0 <= k < |choices| && choices[k] == p[i] && forall j | 0 <= j < k :: Finishes(w.marks, choices[j]);
    LeadsToEnd(g, p, i);
    forall j | 0 <= j < k ensures !Reaches(g, choices[j], n) {
      if Reaches(g, choices[j], n) { FinishedClosed(g, w, order, choices[j], n); }
    }
  }

  /** A node found for the first time is found along its first path. */
  lemma FoundFirst(g: Graph, w: Walker, order: seq<string>, n: string)
    requires Inv(g, w, order) && CanStep(g, w, n) && n !in w.marks && AllEarlierDone(g, w.marks, w.stack + [n])
    ensures FirstPath(g, w.stack + [n])
  {
    var p := w.stack + [n];
    Pushed(g, w, order, n);
    assert p[|p| - 1] == n;
    forall i | 0 <= i < |p| ensures FirstAt(g, p, i) {
      assert EarlierDone(g, w.marks, p, i);
      FoundFirstAt(g, w, order, p, i);
    }
  }

  /** What a visit gives: too deep only along a first path, and otherwise everything marked is
      shallow and the node finished. */
  ghost predicate Followed(g: Graph, w: Walker, r: Outcome) {
    && (r.TooDeep? ==> exists p :: FirstPath(g, p) && |p| == MAX_CHAIN_DEPTH + 1 && p[|p| - 1] == r.at)
    && (r.Fine? ==> MarksShallow(g, r.walker) && Kept(w, r.walker))
  }

  lemma {:induction false} VisitFollows(g: Graph, w: Walker, order: seq<string>, n: string)
    requires Inv(g, w, order) && CanStep(g, w, n) && MarksShallow(g, w) && AllEarlierDone(g, w.marks, w.stack + [n])
    ensures Followed(g, w, Visit(g, w, n))
    ensures Visit(g, w, n).Fine? ==> Finishes(Visit(g, w, n).walker.marks, n)
    decreases MAX_CHAIN_DEPTH + 1 - |w.stack|, 0, 2
  {
    assert MarkedRight(w, order, n);
    if n !in w.marks {
      FoundFirst(g, w, order, n);
      if |w.stack| < MAX_CHAIN_DEPTH && n !in g.missing {
        NewNodeFollows(g, w, order, n);
      }
    }
  }

  lemma {:induction false} NewNodeFollows(g: Graph, w: Walker, order: seq<string>, n: string)
    requires Inv(g, w, order) && CanStep(g, w, n) && MarksShallow(g, w) && AllEarlierDone(g, w.marks, w.stack + [n])
    requires n !in w.marks && |w.stack| < MAX_CHAIN_DEPTH && n !in g.missing && FirstPath(g, w.stack + [n])
    ensures Followed(g, w, Visit(g, w, n))
    ensures Visit(g, w, n).Fine? ==> Finishes(Visit(g, w, n).walker.marks, n)
    decreases MAX_CHAIN_DEPTH + 1 - |w.stack|, 0, 1
  {
    var inside := Entered(w, n);
    Pushed(g, w, order, n);
    Enterable(g, w, n);
    EarlierStaysDone(g, w, inside, inside.stack);
    EntryShallow(g, w, n);
    assert Choices(g, inside.stack) == Next(g, n);
    EachFollows(g, inside, order, Next(g, n), 0);
    assert Next(g, n)[0..] == Next(g, n);
    var r := VisitEach(g, inside, Next(g, n));
    if r.Fine? { ExitShallow(g, w, r.walker, n); }
  }

  lemma EntryShallow(g: Graph, w: Walker, n: string)
    requires MarksShallow(g, w) && FirstPath(g, w.stack + [n]) && |w.stack| < MAX_CHAIN_DEPTH
    ensures MarksShallow(g, Entered(w, n))
  {
    var p := w.stack + [n];
    assert p[|p| - 1] == n;
    assert FoundShallow(g, n);
  }

  lemma ExitShallow(g: Graph, w: Walker, after: Walker, n: string)
    requires n !in w.marks && MarksShallow(g, after) && Kept(Entered(w, n), after) && FoundShallow(g, n)
    ensures MarksShallow(g, Walker(after.marks[n := Finished], after.stack)) &&
            Kept(w, Walker(after.marks[n := Finished], after.stack))
  {
    forall m | Finishes(w.marks, m) ensures Finishes(after.marks, m) {
      assert Finishes(Entered(w, n).marks, m);
    }
  }

  /** The choices from the `k`th on, those before it being finished. */
  lemma {:induction false} EachFollows(g: Graph, w: Walker, order: seq<string>, all: seq<string>, k: nat)
    requires Inv(g, w, order) && MarksShallow(g, w) && AllEarlierDone(g, w.marks, w.stack)
    requires all == Choices(g, w.stack) && k <= |all| && forall j | 0 <= j < k :: Finishes(w.marks, all[j])
    ensures Followed(g, w, VisitEach(g, w, all[k..]))
    decreases MAX_CHAIN_DEPTH + 1 - |w.stack|, |all| - k, 0
  {
    if k < |all| {
      NextEntry(g, w, all, k);
      VisitFollows(g, w, order, all[k]);
      var r := Visit(g, w, all[k]);
      assert all[k..][0] == all[k] && all[k..][1..] == all[k + 1..];
      DepthCeiling.EachStep(g, w, all[k..]);
      if r.Fine? {
        var order' := VisitKeeps(g, w, order, all[k]);
        EarlierStaysDone(g, w, r.walker, w.stack);
        DoneUpTo(w, r.walker, all, k);
        EachFollows(g, r.walker, order', all, k + 1);
        FollowedOn(g, w, r.walker, VisitEach(g, r.walker, all[k + 1..]));
      }
    }
  }

  lemma DoneUpTo(w: Walker, w': Walker, all: seq<string>, k: nat)
    requires Kept(w, w') && k < |all| && Finishes(w'.marks, all[k]) &&
             forall j | 0 <= j < k :: Finishes(w.marks, all[j])
    ensures forall j | 0 <= j < k + 1 :: Finishes(w'.marks, all[j])
  {
  }

  lemma FollowedOn(g: Graph, w: Walker, w': Walker, r: Outcome)
    requires Kept(w, w') && Followed(g, w', r)
    ensures Followed(g, w, r)
  {
  }

  lemma NextEntry(g: Graph, w: Walker, all: seq<string>, k: nat)
    requires AllEarlierDone(g, w.marks, w.stack) && all == Choices(g, w.stack) && k < |all|
    requires forall j | 0 <= j < k :: Finishes(w.marks, all[j])
    ensures AllEarlierDone(g, w.marks, w.stack + [all[k]]) && CanStep(g, w, all[k])
  {
    var p := w.stack + [all[k]];
    forall i | 0 <= i < |p| ensures EarlierDone(g, w.marks, p, i) {
      if i < |w.stack| {
        assert EarlierDone(g, w.marks, w.stack, i);
        assert p[..i] == w.stack[..i];
      } else {
        assert p[..i] == w.stack;
      }
    }
  }

  // ----- exactly when a graph is too deep -----

  ghost predicate HasDeepFirstPath(g: Graph) {
    exists p :: FirstPath(g, p) && |p| > MAX_CHAIN_DEPTH
  }

  lemma AcceptedIsShallow(g: Graph, p: seq<string>)
    requires g.missing.Keys <= g.edges.Keys && Check(g, Roots(g)).Fine? && FirstPath(g, p)
    ensures |p| <= MAX_CHAIN_DEPTH
  {
    var w, n := Check(g, Roots(g)).walker, p[|p| - 1];
    var order := EachKeeps(g, Walker(map[], []), [], Roots(g));
    CheckFollows(g);
    CheckIsRight(g);
    FirstIsPath(g, p);
    PositionsFall(g, order, p, |p| - 1);
    assert MarkedRight(w, order, n);
    assert FoundShallow(g, n);
    var q :| FirstPath(g, q) && q[|q| - 1] == n && |q| <= MAX_CHAIN_DEPTH;
    NotLonger(g, q, p);
  }

  lemma CheckFollows(g: Graph)
    ensures Followed(g, Walker(map[], []), Check(g, Roots(g)))
  {
    EachFollows(g, Walker(map[], []), [], Roots(g), 0);
    assert Roots(g)[0..] == Roots(g);
  }

  /** An acyclic graph without unknown targets is refused exactly when the first path to some
      node is longer than the ceiling, and otherwise accepted. */
  lemma TooDeepIff(g: Graph)
    requires Acyclic(g) && g.missing == map[]
    ensures Check(g, Roots(g)).TooDeep? <==> HasDeepFirstPath(g)
    ensures Check(g, Roots(g)).Fine? <==> !HasDeepFirstPath(g)
  {
    CheckIsRight(g);
    CheckFollows(g);
    if Check(g, Roots(g)).Fine? {
      forall p | FirstPath(g, p) ensures |p| <= MAX_CHAIN_DEPTH { AcceptedIsShallow(g, p); }
    }
  }

  /** Acceptance in terms of the graph and its names alone. */
  lemma AcceptedIff(g: Graph)
    requires g.missing.Keys <= g.edges.Keys
    ensures Check(g, Roots(g)).Fine? <==> Acyclic(g) && g.missing == map[] && !HasDeepFirstPath(g)
  {
    CheckIsRight(g);
    if Acyclic(g) && g.missing == map[] { TooDeepIff(g); }
  }

  // ----- one successor each: inheritance -----

  predicate OneSuccessor(g: Graph) {
    forall n | n in g.edges :: |g.edges[n]| <= 1
  }

  /** `p` starts at the least node that leads to its end. */
  ghost predicate FromLeast(g: Graph, p: seq<string>) {
    Path(g, p) && LeastTo(g, p[0], p[|p| - 1])
  }

  ghost predicate LeastTo(g: Graph, m: string, n: string) {
    m in g.edges && Reaches(g, m, n) && forall x | x in g.edges && Reaches(g, x, n) :: Sorting.Le(m, x)
  }

  lemma FirstRootIsLeast(g: Graph, m: string, n: string)
    requires FirstTo(g, Roots(g), m, n)
    ensures LeastTo(g, m, n)
  {
    var roots := Roots(g);
    Sorting.KeysAscend(g.edges.Keys);
    var k :| 0 <= k < |roots| && roots[k] == m && Reaches(g, m, n) && forall j | 0 <= j < k :: !Reaches(g, roots[j], n);
    assert m in roots && m in g.edges.Keys;
    forall x | x in g.edges && Reaches(g, x, n) ensures Sorting.Le(m, x) {
      assert x in roots;
      var i :| 0 <= i < |roots| && roots[i] == x;
      if i == k { Sorting.LeTotal(m, x); }
    }
  }

  lemma LeastRootIsFirst(g: Graph, m: string, n: string)
    requires LeastTo(g, m, n)
    ensures FirstTo(g, Roots(g), m, n)
  {
    var roots := Roots(g);
    Sorting.KeysAscend(g.edges.Keys);
    assert m in roots;
    var k :| 0 <= k < |roots| && roots[k] == m;
    forall j | 0 <= j < k ensures !Reaches(g, roots[j], n) {
      assert roots[j] in roots && roots[j] in g.edges.Keys;
      if Reaches(g, roots[j], n) { Sorting.LeAntisymmetric(m, roots[j]); }
    }
  }

  lemma OnlyChoice(g: Graph, p: seq<string>, i: nat)
    requires OneSuccessor(g) && Path(g, p) && 0 < i < |p|
    ensures FirstAt(g, p, i)
  {
    var choices := Choices(g, p[..i]);
    assert p[..i][|p[..i]| - 1] == p[i - 1] && p[i - 1 + 1] in Next(g, p[i - 1]);
    assert choices[0] == p[i];
    LeadsToEnd(g, p, i);
  }

  lemma FirstIffFromLeast(g: Graph, p: seq<string>)
    requires OneSuccessor(g)
    ensures FirstPath(g, p) <==> FromLeast(g, p)
  {
    if FirstPath(g, p) {
      FirstIsPath(g, p);
      assert FirstAt(g, p, 0) && p[..0] == [];
      FirstRootIsLeast(g, p[0], p[|p| - 1]);
    }
    if FromLeast(g, p) {
      LeastRootIsFirst(g, p[0], p[|p| - 1]);
      forall i | 0 <= i < |p| ensures FirstAt(g, p, i) {
        if i > 0 { OnlyChoice(g, p, i); } else { assert p[..0] == []; }
      }
    }
  }

  /** With one successor each, a graph is refused exactly when some node lies a thousand steps
      or more from the least-named node that leads to it. */
  lemma ChainTooDeepIff(g: Graph)
    requires Acyclic(g) && g.missing == map[] && OneSuccessor(g)
    ensures Check(g, Roots(g)).TooDeep? <==> exists p :: FromLeast(g, p) && |p| > MAX_CHAIN_DEPTH
    ensures Check(g, Roots(g)).Fine? <==> !exists p :: FromLeast(g, p) && |p| > MAX_CHAIN_DEPTH
  {
    TooDeepIff(g);
    forall p ensures FirstPath(g, p) <==> FromLeast(g, p) { FirstIffFromLeast(g, p); }
  }
}
