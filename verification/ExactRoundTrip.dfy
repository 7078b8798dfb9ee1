/** Exactly which conditions survive being written and read back
    (compiler/src/conditions/rewrite.rs, compiler/src/conditions/ast.rs). The parser and the
    text agree on the sequence of quoted literals, and the serializer quotes every literal with
    single quotes; so a literal that holds one never comes back. */
module ExactRoundTrip {
  import opened Conditions
  import opened ConditionText
  import opened ConditionRoundTrip
  import opened ParserExtension

  // ----- the literals of an expression and of a text -----

  function Literals(e: Expr): seq<string>
    decreases e, 1
  {
    match e
    case Bool(_) => []
    case Predicate(_, _, value) => [value]
    case Not(x) => Literals(x)
    case And(x, y) => Literals(x) + Literals(y)
    case Or(x, y) => Literals(x) + Literals(y)
    case AnyOf(es) => LiteralsOfEach(es)
    case AllOf(es) => LiteralsOfEach(es)
    case ExactlyOneOf(es) => LiteralsOfEach(es)
    case FacetCompare(_, _, _) => []
  }

  function LiteralsOfEach(es: seq<Expr>): seq<string>
    decreases es, 0
  {
    if es == [] then [] else Literals(es[0]) + LiteralsOfEach(es[1..])
  }

  predicate IsQuote(c: char) {
    c == '\'' || c == '"'
  }

  /** What stands in quotes, from left to right. */
  function Scan(t: string): seq<string>
    decreases |t|
  {
    if t == [] then []
    else if !IsQuote(t[0]) then Scan(t[1..])
    else match TakeUntil(t[1..], t[0])
      case Fail => []
      case Got(v, rest) => [v] + Scan(rest)
  }

  predicate Plain(p: string) {
    forall c | c in p :: !IsQuote(c)
  }

  lemma {:induction false} PlainSkipped(p: string, t: string)
    requires Plain(p)
    ensures Scan(p + t) == Scan(t)
  {
    if p == [] {
      assert p + t == t;
    } else {
      assert (p + t)[0] == p[0] && p[0] in p && (p + t)[1..] == p[1..] + t;
      PlainSkipped(p[1..], t);
    }
  }

  lemma {:induction false} BlanksSkipped(t: string)
    ensures Scan(SkipWs(t)) == Scan(t)
  {
    if t != [] && IsWs(t[0]) { BlanksSkipped(t[1..]); }
  }

  lemma PlainPrefix(t: string, k: nat)
    requires k <= |t| && Plain(t[..k])
    ensures Scan(t[k..]) == Scan(t)
  {
    assert t == t[..k] + t[k..];
    PlainSkipped(t[..k], t[k..]);
  }

  // ----- the parser reads the quoted literals -----

  /** The text holds the literals that were read, and then what the rest holds. */
  predicate ReadFrom(t: string, lits: seq<string>, rest: string) {
    Scan(t) == lits + Scan(rest)
  }

  lemma IdentScan(t: string)
    requires ParseIdent(t).Got?
    ensures Scan(ParseIdent(t).rest) == Scan(t)
  {
    var name := TakeIdent(t);
    assert t[..|name|] == name;
    forall c | c in name ensures !IsQuote(c) { assert IsIdentChar(c); }
    PlainPrefix(t, |name|);
  }

  lemma OperatorScan(t: string)
    requires ParseOperator(t).Got?
    ensures Scan(ParseOperator(t).rest) == Scan(t)
  {
    assert t[..2] == [t[0], t[1]];
    PlainPrefix(t, 2);
  }

  lemma QuotedScan(t: string)
    requires ParseQuoted(t).Got?
    ensures ReadFrom(t, [ParseQuoted(t).value], ParseQuoted(t).rest)
  {
  }

  lemma PredicateScan(t: string)
    requires ParsePredicate(t).Got?
    ensures ReadFrom(t, Literals(ParsePredicate(t).value), ParsePredicate(t).rest)
  {
    BlanksSkipped(t);
    IdentScan(SkipWs(t));
    var afterTag := ParseIdent(SkipWs(t)).rest;
    BlanksSkipped(afterTag);
    OperatorScan(SkipWs(afterTag));
    var afterOp := ParseOperator(SkipWs(afterTag)).rest;
    BlanksSkipped(afterOp);
    var rhs := SkipWs(afterOp);
    if ParseQuoted(rhs).Got? { QuotedScan(rhs); } else { IdentScan(rhs); }
  }

  lemma KeywordScan(t: string, kw: string)
    requires StartsWithKeyword(t, kw) && Plain(kw)
    ensures Scan(t[|kw|..]) == Scan(t)
  {
    assert t[..|kw|] == kw;
    PlainPrefix(t, |kw|);
  }

  lemma StepScan(t: string)
    requires t != [] && !IsQuote(t[0])
    ensures Scan(t[1..]) == Scan(t)
  {
  }

  lemma PairScan(t: string, c: char)
    requires At2(t, c) && !IsQuote(c)
    ensures Scan(t[2..]) == Scan(t)
  {
    assert t[..2] == [c, c];
    PlainPrefix(t, 2);
  }

  lemma {:induction false} OrScan(t: string)
    requires ParseOr(t).Got?
    ensures ReadFrom(t, Literals(ParseOr(t).value), ParseOr(t).rest)
    decreases |t|, 5
  {
    AndScan(t);
    OrRestScan(ParseAnd(t).value, ParseAnd(t).rest);
  }

  lemma {:induction false} OrRestScan(acc: Expr, t: string)
    requires OrRest(acc, t).Got?
    ensures Literals(acc) + Scan(t) == Literals(OrRest(acc, t).value) + Scan(OrRest(acc, t).rest)
    decreases |t|, 5
  {
    BlanksSkipped(t);
    var u := SkipWs(t);
    if At2(u, '|') {
      PairScan(u, '|');
      AndScan(u[2..]);
      var r := ParseAnd(u[2..]);
      OrRestScan(Or(acc, r.value), r.rest);
      assert Literals(acc) + (Literals(r.value) + Scan(r.rest)) == Literals(Or(acc, r.value)) + Scan(r.rest);
    }
  }

  lemma {:induction false} AndScan(t: string)
    requires ParseAnd(t).Got?
    ensures ReadFrom(t, Literals(ParseAnd(t).value), ParseAnd(t).rest)
    decreases |t|, 4
  {
    UnaryScan(t);
    AndRestScan(ParseUnary(t).value, ParseUnary(t).rest);
  }

  lemma {:induction false} AndRestScan(acc: Expr, t: string)
    requires AndRest(acc, t).Got?
    ensures Literals(acc) + Scan(t) == Literals(AndRest(acc, t).value) + Scan(AndRest(acc, t).rest)
    decreases |t|, 4
  {
    BlanksSkipped(t);
    var u := SkipWs(t);
    if At2(u, '&') {
      PairScan(u, '&');
      UnaryScan(u[2..]);
      var r := ParseUnary(u[2..]);
      AndRestScan(And(acc, r.value), r.rest);
      assert Literals(acc) + (Literals(r.value) + Scan(r.rest)) == Literals(And(acc, r.value)) + Scan(r.rest);
    }
  }

  lemma {:induction false} UnaryScan(t: string)
    requires ParseUnary(t).Got?
    ensures ReadFrom(t, Literals(ParseUnary(t).value), ParseUnary(t).rest)
    decreases |t|, 3
  {
    BlanksSkipped(t);
    var u := SkipWs(t);
    if u != [] && u[0] == '!' && !(|u| > 1 && u[1] == '=') {
      StepScan(u);
      UnaryScan(u[1..]);
    } else {
      SkipWsIdempotent(t);
      PrimaryScan(u);
    }
  }

  lemma {:induction false} PrimaryScan(u: string)
    requires SkipWs(u) == u && ParsePrimary(u).Got?
    ensures ReadFrom(u, Literals(ParsePrimary(u).value), ParsePrimary(u).rest)
    decreases |u|, 2
  {
    if u != [] && u[0] == '(' {
      StepScan(u);
      OrScan(u[1..]);
      var rest := ParseOr(u[1..]).rest;
      BlanksSkipped(rest);
      StepScan(SkipWs(rest));
    } else if u != [] {
      LiteralStep(u);
      if StartsWithKeyword(u, "true") {
        KeywordScan(u, "true");
      } else if StartsWithKeyword(u, "false") {
        KeywordScan(u, "false");
      } else {
        AtomScan(u);
      }
    }
  }

  lemma {:induction false} AtomScan(u: string)
    requires IsAtom(u) && ParsePrimary(u).Got?
    ensures ReadFrom(u, Literals(ParsePrimary(u).value), ParsePrimary(u).rest)
    decreases |u|, 2, 0
  {
    AtomStep(u);
    if StartsCall(u, "any_of") {
      CallScan(u, "any_of");
    } else if StartsCall(u, "all_of") {
      CallScan(u, "all_of");
    } else if StartsCall(u, "exactly_one_of") {
      CallScan(u, "exactly_one_of");
    } else {
      PredicateScan(u);
    }
  }

  lemma {:induction false} CallScan(t: string, kw: string)
    requires StartsCall(t, kw) && Plain(kw) && ParseCall(t, kw).Got?
    ensures ReadFrom(t, Literals(ParseCall(t, kw).value), ParseCall(t, kw).rest)
    decreases |t|, 1
  {
    KeywordScan(t, kw);
    BlanksSkipped(t[|kw|..]);
    var peek := SkipWs(t[|kw|..]);
    StepScan(peek);
    ArgsScan(peek[1..]);
  }

  lemma {:induction false} ArgsScan(t: string)
    requires ParseArgs(t).Got?
    ensures ReadFrom(t, LiteralsOfEach(ParseArgs(t).value), ParseArgs(t).rest)
    decreases |t|, 6
  {
    OrScan(t);
    var e, rest := ParseOr(t).value, ParseOr(t).rest;
    BlanksSkipped(rest);
    var u := SkipWs(rest);
    StepScan(u);
    if u[0] == ')' {
      assert LiteralsOfEach([e]) == Literals(e);
    } else {
      BlanksSkipped(u[1..]);
      var v := SkipWs(u[1..]);
      ArgsScan(v);
      var es := ParseArgs(v).value;
      assert ([e] + es)[1..] == es;
    }
  }

  lemma ConditionScan(t: string)
    requires ParseCondition(t).Got?
    ensures Scan(t) == Literals(ParseCondition(t).value)
  {
    OrScan(t);
    BlanksSkipped(ParseOr(t).rest);
  }

  // ----- the serializer puts them in single quotes -----

  predicate Clean(lits: seq<string>) {
    forall v | v in lits :: '\'' !in v
  }

  /** The two lists differ at some place. */
  predicate Differ(xs: seq<string>, ys: seq<string>) {
    exists i :: 0 <= i < |xs| && i < |ys| && xs[i] != ys[i]
  }

  /** What the scan finds where literals were written in front of `rest`: those literals, or
      from the first that holds a single quote on something else. */
  predicate Written(found: seq<string>, lits: seq<string>, rest: string) {
    if Clean(lits) then found == lits + Scan(rest) else Differ(found, lits)
  }

  lemma {:induction false} TakeUntilQuote(v: string, rest: string)
    ensures var r := TakeUntil(v + (['\''] + rest), '\'');
            r.Got? && ('\'' !in v ==> r == Got(v, rest)) && ('\'' in v ==> r.value != v)
  {
    var t := v + (['\''] + rest);
    if v == [] {
      assert t == ['\''] + rest && t[1..] == rest;
    } else {
      assert t[0] == v[0] && t[1..] == v[1..] + (['\''] + rest);
      if v[0] != '\'' {
        TakeUntilQuote(v[1..], rest);
        assert v == [v[0]] + v[1..];
        var r := TakeUntil(t[1..], '\'');
        assert ([v[0]] + r.value)[1..] == r.value;
      }
    }
  }

  lemma LiteralWritten(head: string, v: string, rest: string)
    requires Plain(head)
    ensures Written(Scan(head + (['\''] + (v + (['\''] + rest)))), [v], rest)
  {
    var t := ['\''] + (v + (['\''] + rest));
    PlainSkipped(head, t);
    TakeUntilQuote(v, rest);
    assert t[1..] == v + (['\''] + rest);
    assert v in [v];
    if '\'' in v {
      assert Scan(t)[0] != [v][0];
    }
  }

  lemma WrittenJoin(found: seq<string>, xs: seq<string>, mid: string, ys: seq<string>, rest: string)
    requires Written(found, xs, mid) && Written(Scan(mid), ys, rest)
    ensures Written(found, xs + ys, rest)
  {
    if Clean(xs) {
      if Clean(ys) {
        assert Clean(xs + ys) && xs + (ys + Scan(rest)) == xs + ys + Scan(rest);
      } else {
        var v :| v in ys && '\'' in v;
        assert v in xs + ys;
        var i :| 0 <= i < |Scan(mid)| && i < |ys| && Scan(mid)[i] != ys[i];
        assert found[|xs| + i] != (xs + ys)[|xs| + i];
      }
    } else {
      var v :| v in xs && '\'' in v;
      assert v in xs + ys;
      var i :| 0 <= i < |found| && i < |xs| && found[i] != xs[i];
      assert (xs + ys)[i] == xs[i];
    }
  }

  lemma WrittenPlain(head: string, t: string, lits: seq<string>, rest: string)
    requires Plain(head) && Written(Scan(t), lits, rest)
    ensures Written(Scan(head + t), lits, rest)
  {
    PlainSkipped(head, t);
  }

  lemma NothingWritten(head: string, rest: string)
    requires Plain(head)
    ensures Written(Scan(head + rest), [], rest)
  {
    PlainSkipped(head, rest);
    assert [] + Scan(rest) == Scan(rest);
  }

  lemma IdentIsPlain(tag: string)
    requires IsIdent(tag)
    ensures Plain(tag)
  {
    forall c | c in tag ensures !IsQuote(c) { assert IsIdentChar(c); }
  }

  lemma PredicateWritten(tag: string, op: Op, value: string, rest: string)
    requires IsIdent(tag)
    ensures Written(Scan(tag + " " + OpText(op) + " '" + value + "'" + rest), [value], rest)
  {
    IdentIsPlain(tag);
    var head := tag + " " + OpText(op) + " ";
    assert Plain(head);
    LiteralWritten(head, value, rest);
    assert tag + " " + OpText(op) + " '" + value + "'" + rest == head + (['\''] + (value + (['\''] + rest)));
  }

  lemma CompareWritten(l: string, op: Op, r: string, rest: string)
    requires IsIdent(l) && IsIdent(r)
    ensures Written(Scan(l + " " + OpText(op) + " " + r + rest), [], rest)
  {
    IdentIsPlain(l);
    IdentIsPlain(r);
    NothingWritten(l + " " + OpText(op) + " " + r, rest);
  }

  lemma {:induction false} PrintWritten(e: Expr, parent: Strength, rest: string)
    requires Spellable(e)
    ensures Written(Scan(Print(e, parent) + rest), Literals(e), rest)
    decreases e, 1
  {
    match e
    case Bool(b) => NothingWritten(if b then "true" else "false", rest);
    case Predicate(tag, op, value) => PredicateWritten(tag, op, value, rest);
    case Not(x) =>
      PrintWritten(x, UnaryStrength, rest);
      WrittenPlain("!", Print(x, UnaryStrength) + rest, Literals(x), rest);
      assert Print(e, parent) + rest == "!" + (Print(x, UnaryStrength) + rest);
    case And(x, y) => PairWritten(e, x, y, AndStrength, " && ", parent == UnaryStrength, rest);
    case Or(x, y) => PairWritten(e, x, y, OrStrength, " || ", parent != OrStrength, rest);
    case AnyOf(es) => CallWritten("any_of(", es, rest);
    case AllOf(es) => CallWritten("all_of(", es, rest);
    case ExactlyOneOf(es) => CallWritten("exactly_one_of(", es, rest);
    case FacetCompare(l, op, r) => CompareWritten(l, op, r, rest);
  }

  lemma {:induction false} PairWritten(e: Expr, x: Expr, y: Expr, strength: Strength, glue: string, wrapped: bool,
                                       rest: string)
    requires (e == And(x, y) || e == Or(x, y)) && Spellable(x) && Spellable(y) && Plain(glue)
    ensures var inner := Print(x, strength) + glue + Print(y, strength);
            Written(Scan((if wrapped then "(" + inner + ")" else inner) + rest), Literals(x) + Literals(y), rest)
    decreases e, 0
  {
    var px, py := Print(x, strength), Print(y, strength);
    var after := if wrapped then ")" + rest else rest;
    PrintWritten(x, strength, glue + (py + after));
    PrintWritten(y, strength, after);
    GluedWritten(px, py, Literals(x), Literals(y), glue, after);
    if wrapped { WrappedWritten(px + glue + py, Literals(x) + Literals(y), rest); }
  }

  lemma GluedWritten(px: string, py: string, xs: seq<string>, ys: seq<string>, glue: string, after: string)
    requires Plain(glue) && Written(Scan(px + (glue + (py + after))), xs, glue + (py + after)) &&
             Written(Scan(py + after), ys, after)
    ensures Written(Scan(px + glue + py + after), xs + ys, after)
  {
    WrittenPlain(glue, py + after, ys, after);
    WrittenJoin(Scan(px + (glue + (py + after))), xs, glue + (py + after), ys, after);
    assert px + glue + py + after == px + (glue + (py + after));
  }

  lemma WrappedWritten(inner: string, lits: seq<string>, rest: string)
    requires Written(Scan(inner + (")" + rest)), lits, ")" + rest)
    ensures Written(Scan("(" + inner + ")" + rest), lits, rest)
  {
    WrittenPlain("(", inner + (")" + rest), lits, ")" + rest);
    PlainSkipped(")", rest);
    assert "(" + inner + ")" + rest == "(" + (inner + (")" + rest));
  }

  lemma {:induction false} CallWritten(head: string, es: seq<Expr>, rest: string)
    requires SpellableEach(es) && Plain(head)
    ensures Written(Scan(head + PrintArgs(es) + ")" + rest), LiteralsOfEach(es), rest)
    decreases es, 1
  {
    ArgsWritten(es, ")" + rest);
    WrittenPlain(head, PrintArgs(es) + (")" + rest), LiteralsOfEach(es), ")" + rest);
    PlainSkipped(")", rest);
    assert head + PrintArgs(es) + ")" + rest == head + (PrintArgs(es) + (")" + rest));
  }

  lemma {:induction false} ArgsWritten(es: seq<Expr>, rest: string)
    requires SpellableEach(es)
    ensures Written(Scan(PrintArgs(es) + rest), LiteralsOfEach(es), rest)
    decreases es, 0
  {
    if es == [] {
      NothingWritten("", rest);
    } else if |es| == 1 {
      PrintWritten(es[0], OrStrength, rest);
      assert LiteralsOfEach(es) == Literals(es[0]);
    } else {
      var first := Print(es[0], OrStrength);
      PrintWritten(es[0], OrStrength, ", " + (PrintArgs(es[1..]) + rest));
      ArgsWritten(es[1..], rest);
      GluedWritten(first, PrintArgs(es[1..]), Literals(es[0]), LiteralsOfEach(es[1..]), ", ", rest);
    }
  }

  // ----- so exactly the printable come back -----

  lemma {:induction false} CleanIsPrintable(e: Expr)
    requires Spellable(e)
    ensures Printable(e) <==> Clean(Literals(e))
    decreases e, 1
  {
    match e
    case Not(x) => CleanIsPrintable(x);
    case And(x, y) =>
      CleanIsPrintable(x);
      CleanIsPrintable(y);
      CleanJoin(Literals(x), Literals(y));
    case Or(x, y) =>
      CleanIsPrintable(x);
      CleanIsPrintable(y);
      CleanJoin(Literals(x), Literals(y));
    case AnyOf(es) => CleanEach(es);
    case AllOf(es) => CleanEach(es);
    case ExactlyOneOf(es) => CleanEach(es);
    case Predicate(_, _, value) => assert value in [value];
    case _ =>
  }

  lemma {:induction false} CleanEach(es: seq<Expr>)
    requires SpellableEach(es)
    ensures PrintableEach(es) <==> Clean(LiteralsOfEach(es))
    decreases es, 0
  {
    if es != [] {
      CleanIsPrintable(es[0]);
      CleanEach(es[1..]);
      CleanJoin(Literals(es[0]), LiteralsOfEach(es[1..]));
    }
  }

  lemma CleanJoin(xs: seq<string>, ys: seq<string>)
    ensures Clean(xs + ys) <==> Clean(xs) && Clean(ys)
  {
    if Clean(xs + ys) {
      forall v | v in xs ensures '\'' !in v { assert v in xs + ys; }
      forall v | v in ys ensures '\'' !in v { assert v in xs + ys; }
    }
  }

  /** An expression whose literals are those of `e` is read back only if `e` is printable. */
  lemma OnlyPrintable(e: Expr, e': Expr)
    requires Spellable(e) && Literals(e') == Literals(e) && ParseCondition(Print(e, OrStrength)) == Got(e', [])
    ensures Printable(e)
  {
    var t := Print(e, OrStrength);
    ConditionScan(t);
    PrintWritten(e, OrStrength, []);
    assert t + [] == t;
    CleanIsPrintable(e);
  }

  /** The condition read back is the condition that was written exactly when it is printable and
      its chains were nested to the left. */
  lemma RoundTripExactly(e: Expr)
    ensures ParseCondition(Print(e, OrStrength)) == Got(e, []) <==> Printable(e) && LeftNested(e)
  {
    if ParseCondition(Print(e, OrStrength)) == Got(e, []) { OnlyPrintable(e, e); }
    if Printable(e) {
      SerializeThenParse(e);
      NormalFixesLeftNested(e);
    }
  }

  lemma {:induction false} AppendKeeps(x: Expr, y: Expr)
    ensures Literals(AndAppend(x, y)) == Literals(x) + Literals(y) &&
            Literals(OrAppend(x, y)) == Literals(x) + Literals(y)
    ensures Spellable(AndAppend(x, y)) <==> Spellable(x) && Spellable(y)
    ensures Spellable(OrAppend(x, y)) <==> Spellable(x) && Spellable(y)
    decreases y
  {
    if y.And? || y.Or? {
      AppendKeeps(x, y.left);
      assert Literals(x) + Literals(y.left) + Literals(y.right) == Literals(x) + Literals(y);
    }
  }

  lemma {:induction false} NormalKeeps(e: Expr)
    ensures Literals(Normal(e)) == Literals(e) && (Spellable(Normal(e)) <==> Spellable(e))
    decreases e, 1
  {
    match e
    case Not(x) => NormalKeeps(x);
    case And(x, y) =>
      NormalKeeps(x);
      NormalKeeps(y);
      AppendKeeps(Normal(x), Normal(y));
    case Or(x, y) =>
      NormalKeeps(x);
      NormalKeeps(y);
      AppendKeeps(Normal(x), Normal(y));
    case AnyOf(es) => NormalKeepsEach(es);
    case AllOf(es) => NormalKeepsEach(es);
    case ExactlyOneOf(es) => NormalKeepsEach(es);
    case _ =>
  }

  lemma {:induction false} NormalKeepsEach(es: seq<Expr>)
    ensures LiteralsOfEach(NormalEach(es)) == LiteralsOfEach(es) &&
            (SpellableEach(NormalEach(es)) <==> SpellableEach(es))
    decreases es, 0
  {
    if es != [] {
      NormalKeeps(es[0]);
      NormalKeepsEach(es[1..]);
      assert NormalEach(es)[1..] == NormalEach(es[1..]);
    }
  }

  /** The left-nested spelling, and with it the meaning, comes back exactly when the condition is
      printable. */
  lemma ReadsBackIff(e: Expr)
    ensures ParseCondition(Print(e, OrStrength)) == Got(Normal(e), []) <==> Printable(e)
  {
    NormalKeeps(e);
    if ParseCondition(Print(e, OrStrength)) == Got(Normal(e), []) { OnlyPrintable(e, Normal(e)); }
    if Printable(e) { SerializeThenParse(e); }
  }

  // ----- inputs that do not come back -----

  /** A tag spelled like a Boolean literal: left-nested, and unreadable once written. */
  lemma BooleanTagLost(value: string)
    ensures LeftNested(Predicate("true", Eq, value))
    ensures ParseCondition(Print(Predicate("true", Eq, value), OrStrength)) == Fail
  {
    var y := "== '" + value + "'";
    BooleanTagFails("true", y);
    assert Print(Predicate("true", Eq, value), OrStrength) == "true" + ([' '] + y);
  }

  /** A literal in double quotes may hold single quotes. Written back in single quotes it can
      even read as another condition: `a == "x' || b == 'y"` becomes a disjunction. */
  lemma QuotedLiteralLost(x: string, y: string)
    requires Plain(x) && Plain(y)
    ensures var e := Predicate("a", Eq, x + "' || b == '" + y);
            && ParseCondition(Spell("a", Eq, e.literal)) == Got(e, []) && LeftNested(e)
            && ParseCondition(Print(e, OrStrength)) == Got(Or(Predicate("a", Eq, x), Predicate("b", Eq, y)), [])
  {
    var v := x + "' || b == '" + y;
    DoubleQuoted(x, y);
    SpelledAlone("a", Eq, v);
    SpelledOr("a", Eq, x, "b", Eq, y);
    ReadsAsTwo(x, y);
  }

  lemma DoubleQuoted(x: string, y: string)
    requires Plain(x) && Plain(y)
    ensures var v := x + "' || b == '" + y; QuoteFor(v) !in v && QuoteFor(x) !in x && QuoteFor(y) !in y
  {
    var glue := "' || b == '";
    assert glue[0] == '\'' && (x + glue + y)[|x|] == '\'';
    assert '"' !in glue;
  }

  lemma ReadsAsTwo(x: string, y: string)
    requires Plain(x) && Plain(y)
    ensures Print(Predicate("a", Eq, x + "' || b == '" + y), OrStrength) ==
            Spell("a", Eq, x) + " || " + Spell("b", Eq, y)
  {
    assert QuoteFor(x) == '\'' && QuoteFor(y) == '\'';
    assert Spell("a", Eq, x) == "a == '" + x + "'";
    assert Spell("b", Eq, y) == "b == '" + y + "'";
    assert Print(Predicate("a", Eq, x + "' || b == '" + y), OrStrength) == "a == '" + (x + "' || b == '" + y) + "'";
    Regrouped("a == '", x, y);
  }

  lemma Regrouped(head: string, x: string, y: string)
    ensures head + (x + "' || b == '" + y) + "'" == (head + x + "'") + " || " + ("b == '" + y + "'")
  {
  }
}
