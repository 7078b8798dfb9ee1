/** Lowering conditions to the BDD root (compiler/src/ccm_emitter.rs). */
module Emitter {
  import opened Bdd
  import opened Options
  import opened Builder
  import opened Conditions
  import BddFile
  import FileReader

  datatype Compiled =
    | Ok(r: nat)
    | MissingSymbol(tag: string, value: string)
    | UnexpandedComparison(lhs: string, rhs: string)

  ghost predicate DenotesAt(ns: seq<Node>, index: map<string, nat>, e: Expr, r: nat, v: Valuation)
    requires WellFormed(ns) && IsRef(ns, r)
  {
    Sat(ns, r, v) == Eval(e, Variables(index, v))
  }

  /** The reference means the expression, whatever the variables are set to. */
  ghost predicate Denotes(ns: seq<Node>, index: map<string, nat>, e: Expr, r: nat)
    requires WellFormed(ns)
  {
    IsRef(ns, r) && forall v: Valuation :: DenotesAt(ns, index, e, r, v)
  }

  /** What `compile_expr` can lower: no comparison, every symbol indexed. */
  ghost predicate Compilable(e: Expr, index: map<string, nat>) {
    forall l | l in Leaves(e) :: l.Predicate? && SymbolName(l.tag, l.literal) in index
  }

  lemma DenotesOfExtension(ns: seq<Node>, ms: seq<Node>, index: map<string, nat>, e: Expr, r: nat)
    requires WellFormed(ns) && WellFormed(ms) && ns <= ms && Denotes(ns, index, e, r)
    ensures Denotes(ms, index, e, r)
  {
    forall v: Valuation
      ensures DenotesAt(ms, index, e, r, v)
    {
      assert DenotesAt(ns, index, e, r, v);
      SatOfExtension(ns, ms, r, v);
    }
  }

  function GateExpr(isAnd: bool, x: Expr, y: Expr): Expr {
    if isAnd then And(x, y) else Or(x, y)
  }

  function FoldExpr(isAnd: bool, es: seq<Expr>): Expr {
    if isAnd then AllOf(es) else AnyOf(es)
  }

  lemma GateDenotes(ns: seq<Node>, index: map<string, nat>, isAnd: bool, x: Expr, a: nat, y: Expr, b: nat, r: nat)
    requires WellFormed(ns) && Denotes(ns, index, x, a) && Denotes(ns, index, y, b) && IsGate(ns, isAnd, a, b, r)
    ensures Denotes(ns, index, GateExpr(isAnd, x, y), r)
  {
    forall v: Valuation
      ensures DenotesAt(ns, index, GateExpr(isAnd, x, y), r, v)
    {
      assert DenotesAt(ns, index, x, a, v) && DenotesAt(ns, index, y, b, v) && GateAt(ns, isAnd, a, b, r, v);
    }
  }

  lemma NegationDenotes(ns: seq<Node>, index: map<string, nat>, x: Expr, a: nat, r: nat)
    requires WellFormed(ns) && Denotes(ns, index, x, a) && IsNegation(ns, a, r)
    ensures Denotes(ns, index, Expr.Not(x), r)
  {
    forall v: Valuation
      ensures DenotesAt(ns, index, Expr.Not(x), r, v)
    {
      assert DenotesAt(ns, index, x, a, v) && NegationAt(ns, a, r, v);
    }
  }

  /** One step of a left fold: `(e1 op .. op en) op e` is the fold of one more. */
  lemma FoldStepDenotes(ns: seq<Node>, index: map<string, nat>, isAnd: bool, es: seq<Expr>, acc: nat, e: Expr, c: nat,
                        r: nat)
    requires WellFormed(ns) && Denotes(ns, index, FoldExpr(isAnd, es), acc) && Denotes(ns, index, e, c)
    requires IsGate(ns, isAnd, acc, c, r)
    ensures Denotes(ns, index, FoldExpr(isAnd, es + [e]), r)
  {
    forall v: Valuation
      ensures DenotesAt(ns, index, FoldExpr(isAnd, es + [e]), r, v)
    {
      assert DenotesAt(ns, index, FoldExpr(isAnd, es), acc, v);
      assert DenotesAt(ns, index, e, c, v) && GateAt(ns, isAnd, acc, c, r, v);
      EvalEachAppend(es, e, Variables(index, v));
    }
  }

  lemma FoldOfOneDenotes(ns: seq<Node>, index: map<string, nat>, isAnd: bool, e: Expr, c: nat)
    requires WellFormed(ns) && Denotes(ns, index, e, c)
    ensures Denotes(ns, index, FoldExpr(isAnd, [e]), c)
  {
    forall v: Valuation
      ensures DenotesAt(ns, index, FoldExpr(isAnd, [e]), c, v)
    {
      assert DenotesAt(ns, index, e, c, v);
      assert EvalEach([e], Variables(index, v)) == [Eval(e, Variables(index, v))];
    }
  }

  lemma EvalEachAppend(es: seq<Expr>, e: Expr, w: World)
    ensures EvalEach(es + [e], w) == EvalEach(es, w) + [Eval(e, w)]
  {
  }

  /** The index pairs `exactly_one_of` has made exclusive when it reaches `(i, j)`. */
  ghost predicate PairsUpTo(n: nat, i: nat, j: nat, pairs: seq<(nat, nat)>) {
    && (forall k | 0 <= k < |pairs| :: pairs[k].0 < pairs[k].1 < n)
    && (forall p: nat, q: nat | p < q < n && (p < i || (p == i && q < j)) :: (p, q) in pairs)
  }

  ghost function Mutexes(es: seq<Expr>, pairs: seq<(nat, nat)>): seq<Expr>
    requires PairsUpTo(|es|, 0, 0, pairs)
  {
    seq(|pairs|, k requires 0 <= k < |pairs| => Expr.Not(And(es[pairs[k].0], es[pairs[k].1])))
  }

  lemma MutexMeans(es: seq<Expr>, pairs: seq<(nat, nat)>, w: World, k: nat)
    requires PairsUpTo(|es|, 0, 0, pairs) && k < |pairs|
    ensures Eval(Mutexes(es, pairs)[k], w) == !(EvalEach(es, w)[pairs[k].0] && EvalEach(es, w)[pairs[k].1])
  {
    var both := And(es[pairs[k].0], es[pairs[k].1]);
    assert Mutexes(es, pairs)[k] == Expr.Not(both) && Eval(Expr.Not(both), w) == !Eval(both, w);
  }

  lemma AllOfMeans(es: seq<Expr>, w: World)
    ensures Eval(AllOf(es), w) <==> forall k | 0 <= k < |es| :: Eval(es[k], w)
  {
    var bs := EvalEach(es, w);
    if false in bs {
      var k :| 0 <= k < |bs| && !bs[k];
      assert !Eval(es[k], w);
    }
    assert Eval(AllOf(es), w) == (false !in bs);
  }

  predicate NotBoth(bs: seq<bool>, pair: (nat, nat))
    requires pair.0 < |bs| && pair.1 < |bs|
  {
    !(bs[pair.0] && bs[pair.1])
  }

  lemma MutexesMean(es: seq<Expr>, pairs: seq<(nat, nat)>, w: World)
    requires PairsUpTo(|es|, 0, 0, pairs)
    ensures Eval(AllOf(Mutexes(es, pairs)), w) <==> forall k | 0 <= k < |pairs| :: NotBoth(EvalEach(es, w), pairs[k])
  {
    var ms := Mutexes(es, pairs);
    AllOfMeans(ms, w);
    forall k | 0 <= k < |pairs| ensures Eval(ms[k], w) == NotBoth(EvalEach(es, w), pairs[k]) {
      MutexMeans(es, pairs, w, k);
    }
  }

  lemma PairsCover(bs: seq<bool>, pairs: seq<(nat, nat)>)
    requires PairsUpTo(|bs|, |bs|, 0, pairs)
    ensures (forall p, q | 0 <= p < q < |bs| :: !(bs[p] && bs[q])) <==>
            forall k | 0 <= k < |pairs| :: NotBoth(bs, pairs[k])
  {
    if forall k | 0 <= k < |pairs| :: NotBoth(bs, pairs[k]) {
      forall p, q | 0 <= p < q < |bs| ensures !(bs[p] && bs[q]) {
        var k :| 0 <= k < |pairs| && pairs[k] == (p, q);
        assert NotBoth(bs, pairs[k]);
      }
    }
  }

  lemma OneOfBools(bs: seq<bool>, pairs: seq<(nat, nat)>)
    requires PairsUpTo(|bs|, |bs|, 0, pairs)
    ensures CountTrue(bs) == 1 <==> true in bs && forall k | 0 <= k < |pairs| :: NotBoth(bs, pairs[k])
  {
    CountTrueIsExactlyOne(bs);
    PairsCover(bs, pairs);
  }

  /** At-least-one and pairwise at-most-one together mean exactly one, for every
      number of children: none (never), one (that child), or more. */
  lemma ExactlyOneEncoding(es: seq<Expr>, pairs: seq<(nat, nat)>, w: World)
    requires PairsUpTo(|es|, |es|, 0, pairs)
    ensures Eval(ExactlyOneOf(es), w) == (Eval(AnyOf(es), w) && Eval(AllOf(Mutexes(es, pairs)), w))
  {
    MutexesMean(es, pairs, w);
    OneOfBools(EvalEach(es, w), pairs);
  }

  method CompilePredicate(b: BddBuilder, tag: string, op: Op, value: string, index: map<string, nat>)
      returns (c: Compiled)
    requires b.Valid()
    modifies b
    ensures b.Valid() && old(b.nodes) <= b.nodes
    ensures if SymbolName(tag, value) in index then c.Ok? else c == MissingSymbol(tag, value)
    ensures c.Ok? ==> Denotes(b.nodes, index, Predicate(tag, op, value), c.r)
  {
    var name := SymbolName(tag, value);
    if name !in index {
      return MissingSymbol(tag, value);
    }
    var node := b.Var(index[name]);
    assert forall v: Valuation :: DenotesAt(b.nodes, index, Predicate(tag, Eq, value), node, v);
    if op == NotEq {
      ghost var was := b.nodes;
      var negated := b.Not(node);
      DenotesOfExtension(was, b.nodes, index, Predicate(tag, Eq, value), node);
      NegationDenotes(b.nodes, index, Predicate(tag, Eq, value), node, negated);
      forall v: Valuation
        ensures DenotesAt(b.nodes, index, Predicate(tag, NotEq, value), negated, v)
      {
        assert DenotesAt(b.nodes, index, Expr.Not(Predicate(tag, Eq, value)), negated, v);
        assert Eval(Predicate(tag, Eq, value), Variables(index, v)) !=
            Eval(Predicate(tag, NotEq, value), Variables(index, v));
      }
      return Ok(negated);
    }
    return Ok(node);
  }

  /** `compile_expr`. Earlier references keep their meaning because the arena only grows. */
  method CompileExpr(b: BddBuilder, e: Expr, index: map<string, nat>) returns (c: Compiled)
    requires b.Valid()
    modifies b
    ensures b.Valid() && old(b.nodes) <= b.nodes
    ensures c.Ok? <==> Compilable(e, index)
    ensures c.Ok? ==> Denotes(b.nodes, index, e, c.r)
    decreases e, 2
  {
    match e
    case Bool(value) =>
      c := Ok(if value then TRUE_REF else FALSE_REF);
      assert forall v: Valuation :: DenotesAt(b.nodes, index, e, c.r, v);
    case Predicate(tag, op, value) =>
      c := CompilePredicate(b, tag, op, value, index);
    case Not(inner) =>
      c := CompileExpr(b, inner, index);
      if c.Ok? {
        ghost var was := b.nodes;
        var r := b.Not(c.r);
        DenotesOfExtension(was, b.nodes, index, inner, c.r);
        NegationDenotes(b.nodes, index, inner, c.r, r);
        c := Ok(r);
      }
    case And(left, right) =>
      c := CompileBinary(b, left, right, true, index, e);
    case Or(left, right) =>
      c := CompileBinary(b, left, right, false, index, e);
    case AnyOf(args) =>
      c := CompileFold(b, args, false, index, e);
    case AllOf(args) =>
      c := CompileFold(b, args, true, index, e);
    case ExactlyOneOf(args) =>
      c := CompileExactlyOne(b, args, index, e);
    case FacetCompare(lhs, _, rhs) =>
      assert e in Leaves(e);
      c := UnexpandedComparison(lhs, rhs);
  }

  method CompileBinary(b: BddBuilder, x: Expr, y: Expr, isAnd: bool, index: map<string, nat>, ghost e: Expr)
    returns (c: Compiled)
    requires b.Valid() && e == GateExpr(isAnd, x, y)
    modifies b
    ensures b.Valid() && old(b.nodes) <= b.nodes
    ensures c.Ok? <==> Compilable(e, index)
    ensures c.Ok? ==> Denotes(b.nodes, index, e, c.r)
    decreases e, 1
  {
    c := CompileExpr(b, x, index);
    if !c.Ok? { return; }
    var l := c.r;
    ghost var was := b.nodes;
    c := CompileExpr(b, y, index);
    if !c.Ok? { return; }
    DenotesOfExtension(was, b.nodes, index, x, l);
    ghost var mid := b.nodes;
    var r := b.Combine(l, c.r, isAnd);
    DenotesOfExtension(mid, b.nodes, index, x, l);
    DenotesOfExtension(mid, b.nodes, index, y, c.r);
    GateDenotes(b.nodes, index, isAnd, x, l, y, c.r, r);
    c := Ok(r);
  }

  /** The accumulator of a left fold: nothing yet, or the fold of a prefix. */
  ghost predicate AccumulatorOk(ns: seq<Node>, index: map<string, nat>, isAnd: bool, es: seq<Expr>, acc: Option<nat>)
    requires WellFormed(ns)
  {
    if acc.None? then es == [] else Denotes(ns, index, FoldExpr(isAnd, es), acc.value)
  }

  /** One turn of a fold loop: the accumulator takes in the next child. */
  method FoldStep(b: BddBuilder, acc: Option<nat>, c: nat, isAnd: bool, ghost index: map<string, nat>,
                  ghost es: seq<Expr>, ghost e: Expr) returns (acc': Option<nat>)
    requires b.Valid() && AccumulatorOk(b.nodes, index, isAnd, es, acc) && Denotes(b.nodes, index, e, c)
    modifies b
    ensures b.Valid() && old(b.nodes) <= b.nodes
    ensures acc'.Some? && AccumulatorOk(b.nodes, index, isAnd, es + [e], acc')
  {
    if acc.None? {
      FoldOfOneDenotes(b.nodes, index, isAnd, e, c);
      assert es + [e] == [e];
      return Some(c);
    }
    ghost var was := b.nodes;
    var r := b.Combine(acc.value, c, isAnd);
    DenotesOfExtension(was, b.nodes, index, FoldExpr(isAnd, es), acc.value);
    DenotesOfExtension(was, b.nodes, index, e, c);
    FoldStepDenotes(b.nodes, index, isAnd, es, acc.value, e, c, r);
    return Some(r);
  }

  /** The unit of the fold when no child was seen. */
  lemma EmptyFoldDenotes(ns: seq<Node>, index: map<string, nat>, isAnd: bool)
    requires WellFormed(ns)
    ensures Denotes(ns, index, FoldExpr(isAnd, []), if isAnd then TRUE_REF else FALSE_REF)
  {
  }

  ghost predicate CompilableUpTo(args: seq<Expr>, n: nat, index: map<string, nat>)
    requires n <= |args|
  {
    forall k | 0 <= k < n :: Compilable(args[k], index)
  }

  lemma CompilableStep(args: seq<Expr>, n: nat, index: map<string, nat>)
    requires n < |args| && CompilableUpTo(args, n, index)
    ensures CompilableUpTo(args, n + 1, index) <==> Compilable(args[n], index)
  {
  }

  lemma CompilableEach(e: Expr, args: seq<Expr>, index: map<string, nat>)
    requires Leaves(e) == LeavesOfEach(args)
    ensures Compilable(e, index) <==> CompilableUpTo(args, |args|, index)
  {
    forall k | 0 <= k < |args| && Compilable(e, index) ensures Compilable(args[k], index) {
      assert Leaves(args[k]) <= Leaves(e);
    }
  }

  lemma OneFails(args: seq<Expr>, n: nat, index: map<string, nat>)
    requires n < |args| && !Compilable(args[n], index)
    ensures !CompilableUpTo(args, |args|, index)
  {
  }

  lemma AccumulatorOfExtension(ns: seq<Node>, ms: seq<Node>, index: map<string, nat>, isAnd: bool, es: seq<Expr>,
                               acc: Option<nat>)
    requires WellFormed(ns) && WellFormed(ms) && ns <= ms && AccumulatorOk(ns, index, isAnd, es, acc)
    ensures AccumulatorOk(ms, index, isAnd, es, acc)
  {
    if acc.Some? { DenotesOfExtension(ns, ms, index, FoldExpr(isAnd, es), acc.value); }
  }

  lemma PrefixStep(args: seq<Expr>, i: nat)
    requires i < |args|
    ensures args[..i] + [args[i]] == args[..i + 1]
  {
  }

  lemma FoldResult(ns: seq<Node>, index: map<string, nat>, isAnd: bool, args: seq<Expr>, acc: Option<nat>)
    requires WellFormed(ns) && AccumulatorOk(ns, index, isAnd, args[..|args|], acc)
    ensures Denotes(ns, index, FoldExpr(isAnd, args),
                if acc.Some? then acc.value else if isAnd then TRUE_REF else FALSE_REF)
  {
    assert args[..|args|] == args;
    EmptyFoldDenotes(ns, index, isAnd);
  }

  /** One turn of `compile_fold`: the child is lowered and taken in. */
  method CompileInto(b: BddBuilder, acc: Option<nat>, e: Expr, isAnd: bool, index: map<string, nat>,
                     ghost es: seq<Expr>) returns (c: Compiled, acc': Option<nat>)
    requires b.Valid() && AccumulatorOk(b.nodes, index, isAnd, es, acc)
    modifies b
    ensures b.Valid() && old(b.nodes) <= b.nodes
    ensures c.Ok? <==> Compilable(e, index)
    ensures c.Ok? ==> acc'.Some? && AccumulatorOk(b.nodes, index, isAnd, es + [e], acc')
    decreases e, 3
  {
    acc' := acc;
    c := CompileExpr(b, e, index);
    if !c.Ok? { return; }
    AccumulatorOfExtension(old(b.nodes), b.nodes, index, isAnd, es, acc);
    acc' := FoldStep(b, acc, c.r, isAnd, index, es, e);
  }

  method CompileFold(b: BddBuilder, args: seq<Expr>, isAnd: bool, index: map<string, nat>, ghost e: Expr)
    returns (c: Compiled)
    requires b.Valid() && e == FoldExpr(isAnd, args)
    modifies b
    ensures b.Valid() && old(b.nodes) <= b.nodes
    ensures c.Ok? <==> Compilable(e, index)
    ensures c.Ok? ==> Denotes(b.nodes, index, e, c.r)
    decreases e, 1
  {
    CompilableEach(e, args, index);
    var acc: Option<nat> := None;
    for i := 0 to |args|
      invariant b.Valid() && old(b.nodes) <= b.nodes
      invariant CompilableUpTo(args, i, index)
      invariant AccumulatorOk(b.nodes, index, isAnd, args[..i], acc)
    {
      c, acc := CompileInto(b, acc, args[i], isAnd, index, args[..i]);
      if !c.Ok? {
        OneFails(args, i, index);
        return;
      }
      CompilableStep(args, i, index);
      PrefixStep(args, i);
    }
    FoldResult(b.nodes, index, isAnd, args, acc);
    c := Ok(if acc.Some? then acc.value else if isAnd then TRUE_REF else FALSE_REF);
  }

  /** Every child lowers to the reference recorded for it. */
  ghost predicate ChildrenDenote(ns: seq<Node>, index: map<string, nat>, es: seq<Expr>, cs: seq<nat>)
    requires WellFormed(ns)
  {
    |cs| <= |es| && forall i | 0 <= i < |cs| :: Denotes(ns, index, es[i], cs[i])
  }

  lemma ChildrenOfExtension(ns: seq<Node>, ms: seq<Node>, index: map<string, nat>, es: seq<Expr>, cs: seq<nat>)
    requires WellFormed(ns) && WellFormed(ms) && ns <= ms && ChildrenDenote(ns, index, es, cs)
    ensures ChildrenDenote(ms, index, es, cs)
  {
    forall i | 0 <= i < |cs| ensures Denotes(ms, index, es[i], cs[i]) {
      DenotesOfExtension(ns, ms, index, es[i], cs[i]);
    }
  }

  lemma ExactlyOneDenotes(ns: seq<Node>, index: map<string, nat>, args: seq<Expr>, pairs: seq<(nat, nat)>, r: nat)
    requires WellFormed(ns) && PairsUpTo(|args|, |args|, 0, pairs)
    requires Denotes(ns, index, And(AnyOf(args), AllOf(Mutexes(args, pairs))), r)
    ensures Denotes(ns, index, ExactlyOneOf(args), r)
  {
    forall v: Valuation ensures DenotesAt(ns, index, ExactlyOneOf(args), r, v) {
      assert DenotesAt(ns, index, And(AnyOf(args), AllOf(Mutexes(args, pairs))), r, v);
      ExactlyOneEncoding(args, pairs, Variables(index, v));
    }
  }

  method CompileExactlyOne(b: BddBuilder, args: seq<Expr>, index: map<string, nat>, ghost e: Expr)
    returns (c: Compiled)
    requires b.Valid() && e == ExactlyOneOf(args)
    modifies b
    ensures b.Valid() && old(b.nodes) <= b.nodes
    ensures c.Ok? <==> Compilable(e, index)
    ensures c.Ok? ==> Denotes(b.nodes, index, e, c.r)
    decreases e, 1
  {
    CompilableEach(e, args, index);
    var children: seq<nat> := [];
    for i := 0 to |args|
      invariant b.Valid() && old(b.nodes) <= b.nodes && |children| == i
      invariant CompilableUpTo(args, i, index)
      invariant ChildrenDenote(b.nodes, index, args, children)
    {
      ghost var was := b.nodes;
      c := CompileExpr(b, args[i], index);
      if !c.Ok? {
        OneFails(args, i, index);
        return;
      }
      CompilableStep(args, i, index);
      ChildrenOfExtension(was, b.nodes, index, args, children);
      children := children + [c.r];
    }
    var alo := AtLeastOne(b, children, index, args);
    ghost var was := b.nodes;
    var amo, pairs := AtMostOne(b, children, index, args);
    DenotesOfExtension(was, b.nodes, index, AnyOf(args), alo);
    ghost var mid := b.nodes;
    var r := b.And(alo, amo);
    DenotesOfExtension(mid, b.nodes, index, AnyOf(args), alo);
    DenotesOfExtension(mid, b.nodes, index, AllOf(Mutexes(args, pairs)), amo);
    GateDenotes(b.nodes, index, true, AnyOf(args), alo, AllOf(Mutexes(args, pairs)), amo, r);
    ExactlyOneDenotes(b.nodes, index, args, pairs, r);
    c := Ok(r);
  }

  method AtLeastOne(b: BddBuilder, children: seq<nat>, ghost index: map<string, nat>, ghost args: seq<Expr>)
    returns (alo: nat)
    requires b.Valid() && |children| == |args| && ChildrenDenote(b.nodes, index, args, children)
    modifies b
    ensures b.Valid() && old(b.nodes) <= b.nodes && ChildrenDenote(b.nodes, index, args, children)
    ensures Denotes(b.nodes, index, AnyOf(args), alo)
  {
    var acc: Option<nat> := None;
    for i := 0 to |children|
      invariant b.Valid() && old(b.nodes) <= b.nodes
      invariant ChildrenDenote(b.nodes, index, args, children)
      invariant AccumulatorOk(b.nodes, index, false, args[..i], acc)
    {
      ghost var was := b.nodes;
      acc := FoldStep(b, acc, children[i], false, index, args[..i], args[i]);
      ChildrenOfExtension(was, b.nodes, index, args, children);
      assert args[..i] + [args[i]] == args[..i + 1];
    }
    assert args[..|args|] == args;
    EmptyFoldDenotes(b.nodes, index, false);
    return if acc.Some? then acc.value else FALSE_REF;
  }

  method AtMostOne(b: BddBuilder, children: seq<nat>, ghost index: map<string, nat>, ghost args: seq<Expr>)
    returns (amo: nat, ghost pairs: seq<(nat, nat)>)
    requires b.Valid() && |children| == |args| && ChildrenDenote(b.nodes, index, args, children)
    modifies b
    ensures b.Valid() && old(b.nodes) <= b.nodes
    ensures PairsUpTo(|args|, |args|, 0, pairs)
    ensures Denotes(b.nodes, index, AllOf(Mutexes(args, pairs)), amo)
  {
    var acc: Option<nat> := None;
    pairs := [];
    for i := 0 to |children|
      invariant b.Valid() && old(b.nodes) <= b.nodes
      invariant ChildrenDenote(b.nodes, index, args, children)
      invariant PairsUpTo(|args|, i, 0, pairs)
      invariant AccumulatorOk(b.nodes, index, true, Mutexes(args, pairs), acc)
    {
      for j := i + 1 to |children|
        invariant b.Valid() && old(b.nodes) <= b.nodes
        invariant ChildrenDenote(b.nodes, index, args, children)
        invariant PairsUpTo(|args|, i, j, pairs)
        invariant AccumulatorOk(b.nodes, index, true, Mutexes(args, pairs), acc)
      {
        acc := MutexStep(b, acc, children, i, j, index, args, pairs);
        pairs := pairs + [(i, j)];
      }
    }
    EmptyFoldDenotes(b.nodes, index, true);
    amo := if acc.Some? then acc.value else TRUE_REF;
  }

  /** One pair of the at-most-one fold: conjoin `!(ci && cj)`. */
  method MutexStep(b: BddBuilder, acc: Option<nat>, children: seq<nat>, i: nat, j: nat,
                   ghost index: map<string, nat>, ghost args: seq<Expr>, ghost pairs: seq<(nat, nat)>)
    returns (acc': Option<nat>)
    requires b.Valid() && |children| == |args| && ChildrenDenote(b.nodes, index, args, children)
    requires i < j < |args| && PairsUpTo(|args|, 0, 0, pairs)
    requires AccumulatorOk(b.nodes, index, true, Mutexes(args, pairs), acc)
    modifies b
    ensures b.Valid() && old(b.nodes) <= b.nodes && ChildrenDenote(b.nodes, index, args, children)
    ensures PairsUpTo(|args|, 0, 0, pairs + [(i, j)])
    ensures AccumulatorOk(b.nodes, index, true, Mutexes(args, pairs + [(i, j)]), acc')
  {
    ghost var was := b.nodes;
    ghost var both := And(args[i], args[j]);
    var pairAnd := b.And(children[i], children[j]);
    ChildrenOfExtension(was, b.nodes, index, args, children);
    GateDenotes(b.nodes, index, true, args[i], children[i], args[j], children[j], pairAnd);
    ghost var mid := b.nodes;
    var mutex := b.Not(pairAnd);
    DenotesOfExtension(mid, b.nodes, index, both, pairAnd);
    NegationDenotes(b.nodes, index, both, pairAnd, mutex);
    if acc.Some? {
      DenotesOfExtension(was, b.nodes, index, AllOf(Mutexes(args, pairs)), acc.value);
    }
    acc' := FoldStep(b, acc, mutex, true, index, Mutexes(args, pairs), Expr.Not(both));
    ChildrenOfExtension(was, b.nodes, index, args, children);
    assert Mutexes(args, pairs) + [Expr.Not(both)] == Mutexes(args, pairs + [(i, j)]);
  }

  /** Symbol name to variable, as collected from the variable order: a repeated
      name keeps its last position. */
  function IndexOf(symbols: seq<Symbol>): (index: map<string, nat>)
    ensures forall n | n in index :: index[n] < |symbols| && SymbolName(symbols[index[n]].0, symbols[index[n]].1) == n
    ensures forall i | 0 <= i < |symbols| :: SymbolName(symbols[i].0, symbols[i].1) in index
  {
    if symbols == [] then map[]
    else
      var k := |symbols| - 1;
      IndexOf(symbols[..k])[SymbolName(symbols[k].0, symbols[k].1) := k]
  }

  datatype Emitted = Bytes(bytes: seq<nat>) | Failed(cause: Compiled)

  /** The bytes are a serialized table whose root means `e`. */
  ghost predicate IsFileOf(bytes: seq<nat>, index: map<string, nat>, e: Expr, varCount: nat) {
    exists arr: seq<Node>, root: nat ::
      BddFile.FileForm(arr, root) && Denotes(arr, index, e, root) && bytes == BddFile.FileBytes(arr, root, varCount)
  }

  lemma SerializedIsFile(bytes: seq<nat>, ns: seq<Node>, r: nat, index: map<string, nat>, e: Expr, varCount: nat)
    requires WellFormed(ns) && IsRef(ns, r) && Denotes(ns, index, e, r) && BddFile.Serializes(bytes, ns, r, varCount)
    ensures IsFileOf(bytes, index, e, varCount)
  {
    var arr: seq<Node>, id: nat :|
      BddFile.FileForm(arr, id) && Same(ns, r, arr, id) && bytes == BddFile.FileBytes(arr, id, varCount);
    forall v: Valuation ensures DenotesAt(arr, index, e, id, v) {
      assert DenotesAt(ns, index, e, r, v);
    }
  }

  /** What means an expression reads only the variables its symbols have. */
  lemma DenotedBelow(ns: seq<Node>, index: map<string, nat>, e: Expr, r: nat, varCount: nat)
    requires WellFormed(ns) && Denotes(ns, index, e, r) && forall name | name in index :: index[name] < varCount
    ensures BddFile.ReadsBelow(ns, r, varCount)
  {
    forall v: Valuation, w: Valuation | BddFile.AgreeBelow(v, w, varCount) ensures Sat(ns, r, v) == Sat(ns, r, w) {
      assert DenotesAt(ns, index, e, r, v) && DenotesAt(ns, index, e, r, w);
      LeavesDecide(e, Variables(index, v), Variables(index, w));
    }
  }

  /** A file of an expression, within 32 bits: what the bytes say and what the solver reads is
      the value of the expression. */
  lemma FileMeans(bytes: seq<nat>, index: map<string, nat>, e: Expr, varCount: nat, vars: set<nat>)
    returns (nodeCount: nat)
    requires IsFileOf(bytes, index, e, varCount) && forall name | name in index :: index[name] < varCount
    requires BddFile.IdsFit(bytes) && BddFile.Fits32(varCount)
    ensures BddFile.FileValue(bytes, vars) == Eval(e, Variables(index, vars))
    ensures |bytes| == 24 + 16 * nodeCount
    ensures FileReader.SolverReads(bytes, varCount, nodeCount, vars, Eval(e, Variables(index, vars)))
  {
    var arr: seq<Node>, root: nat :|
      BddFile.FileForm(arr, root) && Denotes(arr, index, e, root) && bytes == BddFile.FileBytes(arr, root, varCount);
    DenotedBelow(arr, index, e, root, varCount);
    assert DenotesAt(arr, index, e, root, vars);
    assert BddFile.Serializes(bytes, arr, root, varCount);
    BddFile.SerializedReads(bytes, arr, root, varCount, vars);
    nodeCount := FileReader.SerializedAccepted(bytes, arr, root, varCount, vars);
  }

  /** The clause fold: every clause is conjoined into the root, and the memos are
      dropped at every clause boundary. `rssAt` is what the sampler would read. */
  method FoldRoot(b: BddBuilder, expressions: seq<Expr>, index: map<string, nat>, rssAt: nat -> Option<nat>)
    returns (c: Compiled)
    requires b.Valid()
    modifies b
    ensures b.Valid()
    ensures c.Ok? <==> forall e | e in expressions :: Compilable(e, index)
    ensures c.Ok? ==> Denotes(b.nodes, index, AllOf(expressions), c.r)
  {
    var root := TRUE_REF;
    EmptyFoldDenotes(b.nodes, index, true);
    for i := 0 to |expressions|
      invariant b.Valid() && Denotes(b.nodes, index, AllOf(expressions[..i]), root)
      invariant forall k | 0 <= k < i :: Compilable(expressions[k], index)
    {
      ghost var was := b.nodes;
      c := CompileExpr(b, expressions[i], index);
      if !c.Ok? {
        assert expressions[i] in expressions;
        return;
      }
      DenotesOfExtension(was, b.nodes, index, AllOf(expressions[..i]), root);
      ghost var mid := b.nodes;
      var next := b.And(root, c.r);
      DenotesOfExtension(mid, b.nodes, index, AllOf(expressions[..i]), root);
      DenotesOfExtension(mid, b.nodes, index, expressions[i], c.r);
      FoldStepDenotes(b.nodes, index, true, expressions[..i], root, expressions[i], c.r, next);
      assert expressions[..i] + [expressions[i]] == expressions[..i + 1];
      root := next;
      b.ClearMemos(rssAt(i));
    }
    assert expressions[..|expressions|] == expressions;
    c := Ok(root);
  }

  /** Build and serialize with any memo cap, any memory budget and any sampling. */
  method BuildBddBin(expressions: seq<Expr>, symbols: seq<Symbol>, memoCap: nat, rssBudgetKib: Option<nat>,
                     rssAt: nat -> Option<nat>) returns (out: Emitted)
    ensures out.Bytes? <==> forall e | e in expressions :: Compilable(e, IndexOf(symbols))
    ensures out.Bytes? ==> IsFileOf(out.bytes, IndexOf(symbols), AllOf(expressions), |symbols|)
  {
    var index: map<string, nat> := map[];
    for i := 0 to |symbols|
      invariant index == IndexOf(symbols[..i])
    {
      assert symbols[..i + 1][..i] == symbols[..i];
      index := index[SymbolName(symbols[i].0, symbols[i].1) := i];
    }
    assert symbols[..|symbols|] == symbols;
    var b := new BddBuilder(memoCap, rssBudgetKib);
    var c := FoldRoot(b, expressions, index, rssAt);
    if !c.Ok? {
      return Failed(c);
    }
    var bytes := BddFile.Serialize(b.nodes, c.r, |symbols|);
    SerializedIsFile(bytes, b.nodes, c.r, index, AllOf(expressions), |symbols|);
    return Bytes(bytes);
  }

  /** Memo neutrality and byte stability: the file is determined by the meaning of
      the folded expressions alone, so builds that differ in memo cap, budget,
      clear schedule, clause order or spelling emit the same bytes. */
  lemma FileDeterminedByMeaning(e: Expr, e': Expr, index: map<string, nat>, varCount: nat, bytes: seq<nat>,
                                bytes': seq<nat>)
    requires IsFileOf(bytes, index, e, varCount) && IsFileOf(bytes', index, e', varCount)
    requires forall v: Valuation :: Eval(e, Variables(index, v)) == Eval(e', Variables(index, v))
    ensures bytes == bytes'
  {
    var arr: seq<Node>, root: nat :|
      BddFile.FileForm(arr, root) && Denotes(arr, index, e, root) && bytes == BddFile.FileBytes(arr, root, varCount);
    var arr': seq<Node>, root': nat :|
      BddFile.FileForm(arr', root') && Denotes(arr', index, e', root') &&
          bytes' == BddFile.FileBytes(arr', root', varCount);
    forall v: Valuation ensures Sat(arr, root, v) == Sat(arr', root', v) {
      assert DenotesAt(arr, index, e, root, v) && DenotesAt(arr', index, e', root', v);
    }
    BddFile.FileIsCanonical(arr, root, arr', root');
  }
}
