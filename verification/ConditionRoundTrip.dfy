/** Serialising a condition and parsing it back. */
module ConditionRoundTrip {
  import opened Conditions
  import opened ConditionText

  /** What follows an expression in a serialized text. */
  predicate AtomEnd(rest: string) {
    rest == [] || rest[0] == ' ' || rest[0] == ')' || rest[0] == ','
  }

  predicate AllIdent(t: string) {
    forall c | c in t :: IsIdentChar(c)
  }

  predicate NoIdentAhead(x: string) {
    x == [] || !IsIdentChar(x[0])
  }

  // ----- tokens -----

  lemma {:induction false} TakeIdentOf(name: string, x: string)
    requires AllIdent(name) && NoIdentAhead(x)
    ensures TakeIdent(name + x) == name
  {
    if name == [] {
      assert name + x == x;
    } else {
      assert (name + x)[1..] == name[1..] + x;
      TakeIdentOf(name[1..], x);
      assert [name[0]] + name[1..] == name;
    }
  }

  lemma IdentText(name: string, x: string)
    requires IsIdent(name) && NoIdentAhead(x)
    ensures ParseIdent(name + x) == Got(name, x)
  {
    TakeIdentOf(name, x);
    assert (name + x)[|name|..] == x;
  }

  lemma {:induction false} TakeUntilOf(value: string, quote: char, x: string)
    requires quote !in value
    ensures TakeUntil(value + [quote] + x, quote) == Got(value, x)
  {
    var t := value + [quote] + x;
    if value == [] {
      assert t[1..] == x;
    } else {
      assert t[1..] == value[1..] + [quote] + x;
      TakeUntilOf(value[1..], quote, x);
      assert [value[0]] + value[1..] == value;
    }
  }

  /** A keyword is found at a name exactly when it is that name. */
  lemma KeywordAtName(name: string, x: string, kw: string)
    requires AllIdent(name) && NoIdentAhead(x) && AllIdent(kw)
    ensures StartsWithKeyword(name + x, kw) <==> name == kw
  {
    var t := name + x;
    if kw <= t && |kw| <= |name| {
      assert t[..|kw|] == name[..|kw|];
      if |kw| < |name| { assert t[|kw|] in name; }
    } else if |name| < |kw| <= |t| {
      assert t[|name|] == x[0] && kw[|name|] in kw;
      assert kw[|name|] != t[|name|];
    }
  }

  lemma KeywordsAreIdents()
    ensures AllIdent("true") && AllIdent("false") && AllIdent("any_of") && AllIdent("all_of") &&
            AllIdent("exactly_one_of")
  {
  }

  lemma BlankSkipped(t: string)
    ensures SkipWs([' '] + t) == SkipWs(t)
  {
  }

  lemma {:induction false} SkipWsIdempotent(t: string)
    ensures SkipWs(SkipWs(t)) == SkipWs(t)
  {
  }

  // ----- leaves -----

  lemma OperatorText(op: Op, rhs: string)
    ensures var y := OpText(op) + [' '] + rhs;
            SkipWs(y) == y && ParseOperator(y) == Got(op, [' '] + rhs)
  {
  }

  /** After a tag and its operator: what `parse_predicate` makes of the right-hand side. */
  lemma PredicateParts(tag: string, op: Op, rhs: string)
    requires IsIdent(tag) && rhs != [] && !IsWs(rhs[0])
    ensures var t := tag + [' '] + OpText(op) + [' '] + rhs;
            var quoted, name := ParseQuoted(rhs), ParseIdent(rhs);
            ParsePredicate(t) ==
              if quoted.Got? then Got(Predicate(tag, op, quoted.value), quoted.rest)
              else if name.Got? then Got(FacetCompare(tag, op, name.value), name.rest)
              else Fail
  {
    var y := OpText(op) + [' '] + rhs;
    var x := [' '] + y;
    assert tag + [' '] + OpText(op) + [' '] + rhs == tag + x;
    IdentText(tag, x);
    assert SkipWs(tag + x) == tag + x;
    OperatorText(op, rhs);
    BlankSkipped(y);
    BlankSkipped(rhs);
  }

  /** A text that begins with a tag is neither a literal nor a call nor parenthesised. */
  lemma TagIsPredicate(tag: string, y: string)
    requires IsTag(tag) && y != [] && !IsIdentChar(y[0]) && !IsWs(y[0]) && y[0] != '('
    ensures ParseUnary(tag + [' '] + y) == ParsePredicate(tag + [' '] + y)
  {
    var t := tag + [' '] + y;
    var x := [' '] + y;
    assert t == tag + x && t[0] == tag[0];
    KeywordsAreIdents();
    KeywordAtName(tag, x, "true");
    KeywordAtName(tag, x, "false");
    KeywordAtName(tag, x, "any_of");
    KeywordAtName(tag, x, "all_of");
    KeywordAtName(tag, x, "exactly_one_of");
    BlankSkipped(y);
    assert t[|tag|..] == x;
    assert SkipWs(t) == t;
  }

  lemma LeafText(tag: string, op: Op, rhs: string)
    requires IsTag(tag) && rhs != [] && !IsWs(rhs[0])
    ensures var t := tag + [' '] + OpText(op) + [' '] + rhs;
            ParseUnary(t) == ParsePredicate(t)
  {
    var y := OpText(op) + [' '] + rhs;
    assert tag + [' '] + OpText(op) + [' '] + rhs == tag + [' '] + y;
    TagIsPredicate(tag, y);
  }

  lemma QuotedText(value: string, rest: string)
    requires QuoteFor(value) !in value
    ensures ParseQuoted([QuoteFor(value)] + value + [QuoteFor(value)] + rest) == Got(value, rest)
  {
    var q := QuoteFor(value);
    assert ([q] + value + [q] + rest)[1..] == value + [q] + rest;
    TakeUntilOf(value, q, rest);
  }

  lemma Regroup(a: string, b: string, c: string, rest: string)
    ensures a + b + c + rest == a + (b + (c + rest))
  {
  }

  lemma SpellParts(tag: string, op: Op, value: string, rest: string)
    ensures Spell(tag, op, value) + rest ==
            tag + [' '] + OpText(op) + [' '] + ([QuoteFor(value)] + value + [QuoteFor(value)] + rest)
  {
  }

  /** A spelled predicate parses to itself, in either kind of quotes. */
  lemma SpellText(tag: string, op: Op, value: string, rest: string)
    requires IsTag(tag) && QuoteFor(value) !in value
    ensures ParseUnary(Spell(tag, op, value) + rest) == Got(Predicate(tag, op, value), rest)
  {
    QuotedText(value, rest);
    var rhs := [QuoteFor(value)] + value + [QuoteFor(value)] + rest;
    LeafText(tag, op, rhs);
    PredicateParts(tag, op, rhs);
    SpellParts(tag, op, value, rest);
  }

  lemma PrintIsSpell(tag: string, op: Op, value: string, p: Strength)
    requires '\'' !in value
    ensures Print(Predicate(tag, op, value), p) == Spell(tag, op, value)
  {
  }

  lemma ComparisonText(l: string, op: Op, r: string, rest: string)
    requires IsTag(l) && IsIdent(r) && AtomEnd(rest)
    ensures ParseUnary(Print(FacetCompare(l, op, r), UnaryStrength) + rest) == Got(FacetCompare(l, op, r), rest)
  {
    var rhs := r + rest;
    assert Print(FacetCompare(l, op, r), UnaryStrength) == l + [' '] + OpText(op) + [' '] + r;
    assert Print(FacetCompare(l, op, r), UnaryStrength) + rest == l + [' '] + OpText(op) + [' '] + rhs;
    LeafText(l, op, rhs);
    PredicateParts(l, op, rhs);
    IdentText(r, rest);
  }

  lemma BoolText(b: bool, rest: string)
    requires AtomEnd(rest)
    ensures ParseUnary(Print(Bool(b), UnaryStrength) + rest) == Got(Bool(b), rest)
  {
  }

  // ----- single parser steps -----

  lemma NotStep(text: string)
    requires text != [] && text[0] != '='
    ensures var r := ParseUnary(text);
            ParseUnary(['!'] + text) == if r.Fail? then Fail else Got(Not(r.value), r.rest)
  {
  }

  lemma BlankBeforeUnary(text: string)
    ensures ParseUnary([' '] + text) == ParseUnary(text)
  {
  }

  lemma AndStep(acc: Expr, text: string)
    ensures var r := ParseUnary(text);
            AndRest(acc, [' ', '&', '&', ' '] + text) == if r.Fail? then Fail else AndRest(And(acc, r.value), r.rest)
  {
    var t := [' ', '&', '&', ' '] + text;
    var u := ['&', '&', ' '] + text;
    assert t == [' '] + u;
    BlankSkipped(u);
    assert u[2..] == [' '] + text;
    BlankBeforeUnary(text);
  }

  lemma OrStep(acc: Expr, text: string)
    ensures var r := ParseAnd(text);
            OrRest(acc, [' ', '|', '|', ' '] + text) == if r.Fail? then Fail else OrRest(Or(acc, r.value), r.rest)
  {
    var t := [' ', '|', '|', ' '] + text;
    var u := ['|', '|', ' '] + text;
    assert t == [' '] + u;
    BlankSkipped(u);
    assert u[2..] == [' '] + text;
    BlankBeforeUnary(text);
  }

  lemma OrRestSkips(acc: Expr, t: string)
    ensures OrRest(acc, SkipWs(t)) == OrRest(acc, t)
  {
  }

  lemma CallStep(kw: string, body: string)
    requires kw in {"any_of", "all_of", "exactly_one_of"}
    ensures var r := ParseArgs(body);
            ParseUnary(kw + ['('] + body) ==
              if r.Fail? || |r.value| < 2 then Fail else Got(CallOf(kw, r.value), r.rest)
  {
    var x := ['('] + body;
    var t := kw + ['('] + body;
    assert t == kw + x && t[|kw|..] == x && x[1..] == body;
    KeywordsAreIdents();
    KeywordAtName(kw, x, "true");
    KeywordAtName(kw, x, "false");
    KeywordAtName(kw, x, "any_of");
    KeywordAtName(kw, x, "all_of");
    KeywordAtName(kw, x, "exactly_one_of");
    assert SkipWs(t) == t && SkipWs(x) == x;
    assert ParseUnary(t) == ParsePrimary(t);
    assert ParsePrimary(t) == ParseCall(t, kw);
  }

  /** One argument, followed by a comma and a further argument. */
  lemma ArgStep(first: string, more: string, e: Expr)
    requires ParseOr(first + [',', ' '] + more) == Got(e, [',', ' '] + more)
    requires more != [] && !IsWs(more[0]) && more[0] != ')'
    ensures var r := ParseArgs(more);
            ParseArgs(first + [',', ' '] + more) == if r.Fail? then Fail else Got([e] + r.value, r.rest)
  {
    var tail := [',', ' '] + more;
    assert tail[1..] == [' '] + more;
    BlankSkipped(more);
    CommaStep(first + [',', ' '] + more, e, tail, more);
  }

  lemma CommaStep(t: string, e: Expr, tail: string, more: string)
    requires ParseOr(t) == Got(e, tail) && tail != [] && tail[0] == ',' && SkipWs(tail[1..]) == more
    requires more != [] && more[0] != ')'
    ensures var r := ParseArgs(more); ParseArgs(t) == if r.Fail? then Fail else Got([e] + r.value, r.rest)
  {
    assert SkipWs(tail) == tail;
  }

  // ----- expressions -----

  /** The order in which the levels of one expression are established: an
      expression that is parenthesised at a level is parsed afresh inside. */
  function Rank(level: Strength, e: Expr): nat {
    match level
    case UnaryStrength => if e.And? then 3 else if e.Or? then 2 else 1
    case AndStrength => if e.And? then 1 else if e.Or? then 3 else 2
    case OrStrength => if e.And? then 2 else if e.Or? then 1 else 3
  }

  lemma {:induction false} PrintStarts(e: Expr, p: Strength)
    requires Printable(e)
    ensures Print(e, p) != [] && !IsWs(Print(e, p)[0]) && Print(e, p)[0] != ')'
  {
    match e
    case And(x, _) => PrintStarts(x, AndStrength);
    case Or(x, _) => PrintStarts(x, OrStrength);
    case _ =>
  }

  lemma {:induction false} AndAppendAssociative(x: Expr, y: Expr, z: Expr)
    ensures AndAppend(AndAppend(x, y), z) == AndAppend(x, AndAppend(y, z))
  {
    if z.And? { AndAppendAssociative(x, y, z.left); }
  }

  lemma {:induction false} OrAppendAssociative(x: Expr, y: Expr, z: Expr)
    ensures OrAppend(OrAppend(x, y), z) == OrAppend(x, OrAppend(y, z))
  {
    if z.Or? { OrAppendAssociative(x, y, z.left); }
  }

  lemma NormalKind(e: Expr)
    ensures Normal(e).And? <==> e.And?
    ensures Normal(e).Or? <==> e.Or?
  {
  }

  lemma {:induction false} UnaryText(e: Expr, rest: string)
    requires Printable(e) && AtomEnd(rest)
    ensures ParseUnary(Print(e, UnaryStrength) + rest) == Got(Normal(e), rest)
    decreases e, Rank(UnaryStrength, e)
  {
    match e
    case Bool(b) => BoolText(b, rest);
    case Predicate(tag, op, value) =>
      PrintIsSpell(tag, op, value, UnaryStrength);
      SpellText(tag, op, value, rest);
    case FacetCompare(l, op, r) => ComparisonText(l, op, r, rest);
    case Not(x) =>
      UnaryText(x, rest);
      NotText(x, rest);
    case And(_, _) => ParenthesisText(e, rest);
    case Or(_, _) => ParenthesisText(e, rest);
    case AnyOf(es) => CallText("any_of", es, rest);
    case AllOf(es) => CallText("all_of", es, rest);
    case ExactlyOneOf(es) => CallText("exactly_one_of", es, rest);
  }

  lemma NotText(x: Expr, rest: string)
    requires Printable(x) && ParseUnary(Print(x, UnaryStrength) + rest) == Got(Normal(x), rest)
    ensures ParseUnary(Print(Not(x), UnaryStrength) + rest) == Got(Not(Normal(x)), rest)
  {
    var text := Print(x, UnaryStrength) + rest;
    assert Print(Not(x), UnaryStrength) + rest == ['!'] + text;
    NotStep(text);
  }

  lemma {:induction false} ParenthesisText(e: Expr, rest: string)
    requires Printable(e) && (e.And? || e.Or?)
    ensures ParseUnary(Print(e, UnaryStrength) + rest) == Got(Normal(e), rest)
    decreases e, Rank(UnaryStrength, e), 0
  {
    var inner := Print(e, OrStrength);
    var t := Print(e, UnaryStrength) + rest;
    assert t == ['('] + inner + [')'] + rest;
    assert t[1..] == inner + ([')'] + rest);
    OrText(e, [')'] + rest);
    assert OrRest(Normal(e), [')'] + rest) == Got(Normal(e), [')'] + rest);
    assert ([')'] + rest)[1..] == rest;
  }

  lemma {:induction false} AndText(e: Expr, rest: string)
    requires Printable(e) && AtomEnd(rest)
    ensures ParseAnd(Print(e, AndStrength) + rest) == AndRest(Normal(e), rest)
    decreases e, Rank(AndStrength, e)
  {
    if e.And? {
      var tail := [' ', '&', '&', ' '] + Print(e.right, AndStrength) + rest;
      ChainParts([' ', '&', '&', ' '], Print(e.left, AndStrength), Print(e.right, AndStrength), rest);
      AndText(e.left, tail);
      AndChain(e.right, Normal(e.left), rest);
    } else {
      assert Print(e, AndStrength) == Print(e, UnaryStrength);
      UnaryText(e, rest);
    }
  }

  lemma {:induction false} AndChain(e: Expr, acc: Expr, rest: string)
    requires Printable(e) && AtomEnd(rest)
    ensures AndRest(acc, [' ', '&', '&', ' '] + Print(e, AndStrength) + rest) ==
            AndRest(AndAppend(acc, Normal(e)), rest)
    decreases e, Rank(AndStrength, e)
  {
    if e.And? {
      var tail := [' ', '&', '&', ' '] + Print(e.right, AndStrength) + rest;
      ChainParts([' ', '&', '&', ' '], Print(e.left, AndStrength), Print(e.right, AndStrength), rest);
      assert Print(e, AndStrength) == Print(e.left, AndStrength) + [' ', '&', '&', ' '] + Print(e.right, AndStrength);
      AndChain(e.left, acc, tail);
      AndChain(e.right, AndAppend(acc, Normal(e.left)), rest);
      AndAppendAssociative(acc, Normal(e.left), Normal(e.right));
    } else {
      AndChainEnd(e, acc, rest);
    }
  }

  lemma ChainParts(sep: string, x: string, y: string, rest: string)
    ensures sep + (x + sep + y) + rest == sep + x + (sep + y + rest)
    ensures (x + sep + y) + rest == x + (sep + y + rest)
  {
  }

  lemma {:induction false} AndChainEnd(e: Expr, acc: Expr, rest: string)
    requires Printable(e) && AtomEnd(rest) && !e.And?
    ensures AndRest(acc, [' ', '&', '&', ' '] + Print(e, AndStrength) + rest) ==
            AndRest(AndAppend(acc, Normal(e)), rest)
    decreases e, Rank(AndStrength, e), 0
  {
    var text := Print(e, UnaryStrength) + rest;
    assert Print(e, AndStrength) == Print(e, UnaryStrength);
    assert [' ', '&', '&', ' '] + Print(e, AndStrength) + rest == [' ', '&', '&', ' '] + text;
    AndStep(acc, text);
    UnaryText(e, rest);
    NormalKind(e);
  }

  predicate NoAndAhead(rest: string) {
    !At2(SkipWs(rest), '&')
  }

  lemma {:induction false} OrText(e: Expr, rest: string)
    requires Printable(e) && AtomEnd(rest) && NoAndAhead(rest)
    ensures ParseOr(Print(e, OrStrength) + rest) == OrRest(Normal(e), rest)
    decreases e, Rank(OrStrength, e)
  {
    if e.Or? {
      var tail := [' ', '|', '|', ' '] + Print(e.right, OrStrength) + rest;
      ChainParts([' ', '|', '|', ' '], Print(e.left, OrStrength), Print(e.right, OrStrength), rest);
      BarsAhead(Print(e.right, OrStrength) + rest);
      assert tail == [' ', '|', '|', ' '] + (Print(e.right, OrStrength) + rest);
      OrText(e.left, tail);
      OrChain(e.right, Normal(e.left), rest);
    } else {
      assert Print(e, OrStrength) == Print(e, AndStrength);
      AndText(e, rest);
      OrRestSkips(Normal(e), rest);
    }
  }

  lemma BarsAhead(text: string)
    ensures NoAndAhead([' ', '|', '|', ' '] + text)
  {
  }

  lemma {:induction false} OrChain(e: Expr, acc: Expr, rest: string)
    requires Printable(e) && AtomEnd(rest) && NoAndAhead(rest)
    ensures OrRest(acc, [' ', '|', '|', ' '] + Print(e, OrStrength) + rest) == OrRest(OrAppend(acc, Normal(e)), rest)
    decreases e, Rank(OrStrength, e)
  {
    if e.Or? {
      var text := Print(e.right, OrStrength) + rest;
      var tail := [' ', '|', '|', ' '] + text;
      ChainParts([' ', '|', '|', ' '], Print(e.left, OrStrength), Print(e.right, OrStrength), rest);
      assert Print(e, OrStrength) == Print(e.left, OrStrength) + [' ', '|', '|', ' '] + Print(e.right, OrStrength);
      BarsAhead(text);
      assert tail == [' ', '|', '|', ' '] + Print(e.right, OrStrength) + rest;
      OrChain(e.left, acc, tail);
      OrChain(e.right, OrAppend(acc, Normal(e.left)), rest);
      OrAppendAssociative(acc, Normal(e.left), Normal(e.right));
    } else {
      OrChainEnd(e, acc, rest);
    }
  }

  lemma {:induction false} OrChainEnd(e: Expr, acc: Expr, rest: string)
    requires Printable(e) && AtomEnd(rest) && NoAndAhead(rest) && !e.Or?
    ensures OrRest(acc, [' ', '|', '|', ' '] + Print(e, OrStrength) + rest) == OrRest(OrAppend(acc, Normal(e)), rest)
    decreases e, Rank(OrStrength, e), 0
  {
    var text := Print(e, AndStrength) + rest;
    assert Print(e, OrStrength) == Print(e, AndStrength);
    assert [' ', '|', '|', ' '] + Print(e, OrStrength) + rest == [' ', '|', '|', ' '] + text;
    OrStep(acc, text);
    AndText(e, rest);
    OrRestSkips(Or(acc, Normal(e)), rest);
    NormalKind(e);
  }

  lemma {:induction false} CallText(kw: string, es: seq<Expr>, rest: string)
    requires kw in {"any_of", "all_of", "exactly_one_of"} && |es| >= 2 && PrintableEach(es)
    ensures ParseUnary(Print(CallOf(kw, es), UnaryStrength) + rest) == Got(CallOf(kw, NormalEach(es)), rest)
    decreases es, 1
  {
    var body := PrintArgs(es) + ([')'] + rest);
    CallPrint(kw, es);
    assert kw + ['('] + PrintArgs(es) + [')'] + rest == kw + ['('] + body;
    CallStep(kw, body);
    ArgsText(es, rest);
  }

  lemma CallPrint(kw: string, es: seq<Expr>)
    requires kw in {"any_of", "all_of", "exactly_one_of"}
    ensures Print(CallOf(kw, es), UnaryStrength) == kw + ['('] + PrintArgs(es) + [')']
  {
  }

  lemma {:induction false} ArgsText(es: seq<Expr>, rest: string)
    requires |es| >= 1 && PrintableEach(es)
    ensures ParseArgs(PrintArgs(es) + ([')'] + rest)) == Got(NormalEach(es), rest)
    decreases es, 0
  {
    if |es| == 1 {
      var tail := [')'] + rest;
      OrText(es[0], tail);
      assert OrRest(Normal(es[0]), tail) == Got(Normal(es[0]), tail);
      assert tail[1..] == rest && NormalEach(es) == [Normal(es[0])];
    } else {
      var more := PrintArgs(es[1..]) + ([')'] + rest);
      var first := Print(es[0], OrStrength);
      var tail := [',', ' '] + more;
      assert PrintArgs(es) + ([')'] + rest) == first + [',', ' '] + more == first + tail;
      OrText(es[0], tail);
      assert OrRest(Normal(es[0]), tail) == Got(Normal(es[0]), tail);
      PrintStarts(es[1], OrStrength);
      assert more[0] == Print(es[1], OrStrength)[0];
      ArgStep(first, more, Normal(es[0]));
      ArgsText(es[1..], rest);
    }
  }

  // ----- the round trip -----

  /** A printable condition is read back in its left-nested spelling. */
  lemma SerializeThenParse(e: Expr)
    requires Printable(e)
    ensures ParseCondition(Print(e, OrStrength)) == Got(Normal(e), [])
  {
    OrText(e, []);
    assert Print(e, OrStrength) + [] == Print(e, OrStrength);
  }

  /** No `&&` to the right of `&&`, no `||` to the right of `||`. */
  predicate LeftNested(e: Expr)
    decreases e, 1
  {
    match e
    case Bool(_) => true
    case Predicate(_, _, _) => true
    case Not(x) => LeftNested(x)
    case And(x, y) => LeftNested(x) && LeftNested(y) && !y.And?
    case Or(x, y) => LeftNested(x) && LeftNested(y) && !y.Or?
    case AnyOf(es) => LeftNestedEach(es)
    case AllOf(es) => LeftNestedEach(es)
    case ExactlyOneOf(es) => LeftNestedEach(es)
    case FacetCompare(_, _, _) => true
  }

  predicate LeftNestedEach(es: seq<Expr>)
    decreases es, 0
  {
    es == [] || (LeftNested(es[0]) && LeftNestedEach(es[1..]))
  }

  lemma {:induction false} AppendRight(x: Expr, y: Expr)
    ensures AndAppend(x, y).right == if y.And? then y.right else y
    ensures OrAppend(x, y).right == if y.Or? then y.right else y
  {
  }

  lemma {:induction false} NormalRight(e: Expr)
    ensures Normal(e).And? ==> !Normal(e).right.And?
    ensures Normal(e).Or? ==> !Normal(e).right.Or?
  {
    NormalKind(e);
    if e.And? || e.Or? {
      NormalRight(e.right);
      NormalKind(e.right);
      AppendRight(Normal(e.left), Normal(e.right));
    }
  }

  lemma {:induction false} NormalFixesLeftNested(e: Expr)
    ensures Normal(e) == e <==> LeftNested(e)
    decreases e, 1
  {
    match e
    case Not(x) => NormalFixesLeftNested(x);
    case And(x, y) =>
      NormalFixesLeftNested(x);
      NormalFixesLeftNested(y);
      NormalKind(y);
      NormalRight(e);
    case Or(x, y) =>
      NormalFixesLeftNested(x);
      NormalFixesLeftNested(y);
      NormalKind(y);
      NormalRight(e);
    case AnyOf(es) => NormalFixesEach(es);
    case AllOf(es) => NormalFixesEach(es);
    case ExactlyOneOf(es) => NormalFixesEach(es);
    case _ =>
  }

  lemma {:induction false} NormalFixesEach(es: seq<Expr>)
    ensures NormalEach(es) == es <==> LeftNestedEach(es)
    decreases es, 0
  {
    if es != [] {
      NormalFixesLeftNested(es[0]);
      NormalFixesEach(es[1..]);
      assert es == [es[0]] + es[1..];
    }
  }

  lemma {:induction false} AndAppendMeans(x: Expr, y: Expr, w: World)
    ensures Eval(AndAppend(x, y), w) == (Eval(x, w) && Eval(y, w))
  {
    if y.And? { AndAppendMeans(x, y.left, w); }
  }

  lemma {:induction false} OrAppendMeans(x: Expr, y: Expr, w: World)
    ensures Eval(OrAppend(x, y), w) == (Eval(x, w) || Eval(y, w))
  {
    if y.Or? { OrAppendMeans(x, y.left, w); }
  }

  lemma AppendMeans(x: Expr, y: Expr, w: World)
    ensures Eval(AndAppend(x, y), w) == (Eval(x, w) && Eval(y, w))
    ensures Eval(OrAppend(x, y), w) == (Eval(x, w) || Eval(y, w))
  {
    AndAppendMeans(x, y, w);
    OrAppendMeans(x, y, w);
  }

  /** Re-nesting never changes the meaning. */
  lemma {:induction false} NormalMeans(e: Expr, w: World)
    ensures Eval(Normal(e), w) == Eval(e, w)
    decreases e, 1
  {
    match e
    case Not(x) => NormalMeans(x, w);
    case And(x, y) =>
      NormalMeans(x, w);
      NormalMeans(y, w);
      AppendMeans(Normal(x), Normal(y), w);
    case Or(x, y) =>
      NormalMeans(x, w);
      NormalMeans(y, w);
      AppendMeans(Normal(x), Normal(y), w);
    case AnyOf(es) => NormalMeansEach(es, w);
    case AllOf(es) => NormalMeansEach(es, w);
    case ExactlyOneOf(es) => NormalMeansEach(es, w);
    case _ =>
  }

  lemma {:induction false} NormalMeansEach(es: seq<Expr>, w: World)
    ensures EvalEach(NormalEach(es), w) == EvalEach(es, w)
    decreases es, 0
  {
    if es != [] {
      NormalMeans(es[0], w);
      NormalMeansEach(es[1..], w);
      assert NormalEach(es)[1..] == NormalEach(es[1..]);
    }
  }

  /** The documented guarantee, that re-parsing yields the same tree, fails:
      `a && (b && c)` is written without its parentheses. */
  lemma RoundTripCounterexample()
    ensures var p, q, r := Predicate("a", Eq, "x"), Predicate("b", Eq, "x"), Predicate("c", Eq, "x");
            var e := And(p, And(q, r));
            Printable(e) && ParseCondition(Print(e, OrStrength)) == Got(And(And(p, q), r), [])
  {
    var p, q, r := Predicate("a", Eq, "x"), Predicate("b", Eq, "x"), Predicate("c", Eq, "x");
    SerializeThenParse(And(p, And(q, r)));
  }

  lemma BooleanUnary(tag: string, y: string)
    requires tag == "true" || tag == "false"
    ensures ParseUnary(tag + ([' '] + y)) == Got(Bool(tag == "true"), [' '] + y)
  {
  }

  /** A text that begins with a tag spelled like a Boolean literal cannot be read at all. */
  lemma BooleanTagFails(tag: string, y: string)
    requires (tag == "true" || tag == "false") && y != [] && (y[0] == '=' || y[0] == '!')
    ensures ParseCondition(tag + ([' '] + y)) == Fail
  {
    var t, x, e := tag + ([' '] + y), [' '] + y, Bool(tag == "true");
    BooleanUnary(tag, y);
    BlankSkipped(y);
    assert SkipWs(y) == y;
    assert AndRest(e, x) == Got(e, y);
    assert OrRest(e, y) == Got(e, y);
    assert ParseAnd(t) == Got(e, y) && ParseOr(t) == Got(e, y);
  }

  lemma AloneStep(text: string, e: Expr)
    requires ParseUnary(text) == Got(e, [])
    ensures ParseAnd(text) == Got(e, []) && ParseCondition(text) == Got(e, [])
  {
    assert AndRest(e, []) == Got(e, []) && OrRest(e, []) == Got(e, []);
  }

  lemma OrPairStep(a: string, x: Expr, b: string, y: Expr)
    requires ParseUnary(a + ([' ', '|', '|', ' '] + b)) == Got(x, [' ', '|', '|', ' '] + b) &&
             ParseUnary(b) == Got(y, [])
    ensures ParseCondition(a + ([' ', '|', '|', ' '] + b)) == Got(Or(x, y), [])
  {
    var tail := [' ', '|', '|', ' '] + b;
    BarsAhead(b);
    assert AndRest(x, tail) == Got(x, SkipWs(tail));
    OrRestSkips(x, tail);
    OrStep(x, b);
    AloneStep(b, y);
    assert OrRest(Or(x, y), []) == Got(Or(x, y), []);
    assert ParseOr(a + tail) == Got(Or(x, y), []);
  }

  /** Two spelled predicates joined by `||`, as the compiler synthesizes them. */
  lemma SpelledOr(tag: string, op: Op, value: string, tag': string, op': Op, value': string)
    requires IsTag(tag) && QuoteFor(value) !in value && IsTag(tag') && QuoteFor(value') !in value'
    ensures ParseCondition(Spell(tag, op, value) + " || " + Spell(tag', op', value')) ==
            Got(Or(Predicate(tag, op, value), Predicate(tag', op', value')), [])
  {
    var a, b := Spell(tag, op, value), Spell(tag', op', value');
    assert a + " || " + b == a + ([' ', '|', '|', ' '] + b) && b + [] == b;
    SpellText(tag, op, value, [' ', '|', '|', ' '] + b);
    SpellText(tag', op', value', []);
    OrPairStep(a, Predicate(tag, op, value), b, Predicate(tag', op', value'));
  }

  lemma SpelledAlone(tag: string, op: Op, value: string)
    requires IsTag(tag) && QuoteFor(value) !in value
    ensures ParseCondition(Spell(tag, op, value)) == Got(Predicate(tag, op, value), [])
  {
    assert Spell(tag, op, value) + [] == Spell(tag, op, value);
    SpellText(tag, op, value, []);
    AloneStep(Spell(tag, op, value), Predicate(tag, op, value));
  }
}
