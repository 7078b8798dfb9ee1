/** What the symbols of the condition language stand for (compiler/src/conditions/ast.rs): every
    operator, keyword and precedence by its spelling, whatever its operands are. */
module Grammar {
  import opened Conditions
  import opened ConditionText
  import opened ConditionRoundTrip
  import ParserExtension

  // ----- leaves -----

  lemma LiteralsRead()
    ensures ParseCondition("true") == Got(Bool(true), []) && ParseCondition("false") == Got(Bool(false), [])
  {
    BoolText(true, []);
    BoolText(false, []);
    assert Print(Bool(true), UnaryStrength) + [] == "true" && Print(Bool(false), UnaryStrength) + [] == "false";
    AloneStep("true", Bool(true));
    AloneStep("false", Bool(false));
  }

  lemma QuotedReads(tag: string, op: Op, mid: string, value: string)
    requires IsTag(tag) && QuoteFor(value) !in value && mid == if op == Eq then " == " else " != "
    ensures ParseCondition(tag + mid + ([QuoteFor(value)] + value + [QuoteFor(value)])) ==
            Got(Predicate(tag, op, value), [])
  {
    var quoted := [QuoteFor(value)] + value + [QuoteFor(value)];
    SpelledAlone(tag, op, value);
    assert [' '] + OpText(op) + [' '] == mid;
    assert Spell(tag, op, value) == tag + ([' '] + OpText(op) + [' ']) + quoted;
  }

  /** A facet against a value in single quotes. */
  lemma PredicateReads(tag: string, value: string)
    requires IsTag(tag) && '\'' !in value
    ensures ParseCondition(tag + " == '" + value + "'") == Got(Predicate(tag, Eq, value), [])
    ensures ParseCondition(tag + " != '" + value + "'") == Got(Predicate(tag, NotEq, value), [])
  {
    QuotedReads(tag, Eq, " == ", value);
    QuotedReads(tag, NotEq, " != ", value);
    var quoted := ['\''] + value + ['\''];
    assert tag + " == '" + value + "'" == tag + " == " + quoted;
    assert tag + " != '" + value + "'" == tag + " != " + quoted;
  }

  /** A value that holds a single quote goes in double quotes. */
  lemma DoubleQuotedReads(tag: string, value: string)
    requires IsTag(tag) && '\'' in value && '"' !in value
    ensures ParseCondition(tag + " == \"" + value + "\"") == Got(Predicate(tag, Eq, value), [])
    ensures ParseCondition(tag + " != \"" + value + "\"") == Got(Predicate(tag, NotEq, value), [])
  {
    QuotedReads(tag, Eq, " == ", value);
    QuotedReads(tag, NotEq, " != ", value);
    var quoted := ['"'] + value + ['"'];
    assert tag + " == \"" + value + "\"" == tag + " == " + quoted;
    assert tag + " != \"" + value + "\"" == tag + " != " + quoted;
  }

  lemma ComparedWritten(l: string, op: Op, mid: string, r: string)
    requires mid == if op == Eq then " == " else " != "
    ensures Print(FacetCompare(l, op, r), UnaryStrength) == l + mid + r
  {
    var gap := " " + OpText(op) + " ";
    assert gap == mid;
    assert Print(FacetCompare(l, op, r), UnaryStrength) == l + gap + r;
  }

  lemma ComparedReads(l: string, op: Op, t: string, r: string)
    requires IsTag(l) && IsIdent(r) && t == Print(FacetCompare(l, op, r), UnaryStrength)
    ensures ParseCondition(t) == Got(FacetCompare(l, op, r), [])
  {
    ComparisonText(l, op, r, []);
    assert t + [] == t;
    AloneStep(t, FacetCompare(l, op, r));
  }

  /** One facet against another. */
  lemma ComparisonReads(l: string, r: string)
    requires IsTag(l) && IsIdent(r)
    ensures ParseCondition(l + " == " + r) == Got(FacetCompare(l, Eq, r), [])
    ensures ParseCondition(l + " != " + r) == Got(FacetCompare(l, NotEq, r), [])
  {
    ComparedWritten(l, Eq, " == ", r);
    ComparedReads(l, Eq, l + " == " + r, r);
    ComparedWritten(l, NotEq, " != ", r);
    ComparedReads(l, NotEq, l + " != " + r, r);
  }

  // ----- operators -----

  function Group(c: string): string {
    "(" + c + ")"
  }

  /** What a text that parses stands for. */
  function Read(c: string): Expr
    requires ParseCondition(c).Got?
  {
    ParseCondition(c).value
  }

  lemma GroupThen(c: string, rest: string)
    requires ParseCondition(c).Got?
    ensures ParseUnary(Group(c) + rest) == Got(Read(c), rest)
    ensures ParseUnary("!" + Group(c) + rest) == Got(Not(Read(c)), rest)
  {
    ParserExtension.Parenthesized(c, rest);
    var t := Group(c) + rest;
    assert "!" + Group(c) + rest == ['!'] + t;
    NotStep(t);
  }

  /** Parentheses group, and an exclamation mark negates. */
  lemma GroupReads(c: string)
    requires ParseCondition(c).Got?
    ensures ParseCondition(Group(c)) == Got(Read(c), [])
    ensures ParseCondition("!" + Group(c)) == Got(Not(Read(c)), [])
  {
    GroupThen(c, []);
    assert Group(c) + [] == Group(c) && "!" + Group(c) + [] == "!" + Group(c);
    AloneStep(Group(c), Read(c));
    AloneStep("!" + Group(c), Not(Read(c)));
  }

  lemma AndEnds(acc: Expr, c: string, rest: string)
    requires ParseCondition(c).Got?
    ensures AndRest(acc, " && " + Group(c) + rest) == AndRest(And(acc, Read(c)), rest)
  {
    assert " && " + Group(c) + rest == [' ', '&', '&', ' '] + (Group(c) + rest);
    AndStep(acc, Group(c) + rest);
    GroupThen(c, rest);
  }

  lemma AndAfter(head: string, x: Expr, tail: string, e: Expr)
    requires ParseUnary(head + tail) == Got(x, tail) && AndRest(x, tail) == Got(e, [])
    ensures ParseAnd(head + tail) == Got(e, []) && ParseCondition(head + tail) == Got(e, [])
  {
    assert OrRest(e, []) == Got(e, []);
  }

  /** Two ampersands conjoin, after negation. */
  lemma AndReads(a: string, b: string)
    requires ParseCondition(a).Got? && ParseCondition(b).Got?
    ensures ParseAnd(Group(a) + " && " + Group(b)) == Got(And(Read(a), Read(b)), [])
    ensures ParseCondition(Group(a) + " && " + Group(b)) == Got(And(Read(a), Read(b)), [])
    ensures ParseCondition("!" + Group(a) + " && " + Group(b)) == Got(And(Not(Read(a)), Read(b)), [])
  {
    var tail := " && " + Group(b);
    GroupThen(a, tail);
    AndPairReads(Read(a), b, b);
    AndPairReads(Not(Read(a)), b, b);
    AndAfter(Group(a), Read(a), tail, And(Read(a), Read(b)));
    AndAfter("!" + Group(a), Not(Read(a)), tail, And(Not(Read(a)), Read(b)));
    assert Group(a) + " && " + Group(b) == Group(a) + tail;
    assert "!" + Group(a) + " && " + Group(b) == "!" + Group(a) + tail;
  }

  /** A chain is read from the left. */
  lemma AndChainReads(a: string, b: string, c: string)
    requires ParseCondition(a).Got? && ParseCondition(b).Got? && ParseCondition(c).Got?
    ensures ParseCondition(Group(a) + " && " + Group(b) + " && " + Group(c)) ==
            Got(And(And(Read(a), Read(b)), Read(c)), [])
  {
    var tail := " && " + Group(b) + (" && " + Group(c));
    GroupThen(a, tail);
    AndPairReads(Read(a), b, c);
    AndAfter(Group(a), Read(a), tail, And(And(Read(a), Read(b)), Read(c)));
    assert Group(a) + " && " + Group(b) + " && " + Group(c) == Group(a) + tail;
  }

  lemma AndPairReads(acc: Expr, b: string, c: string)
    requires ParseCondition(b).Got? && ParseCondition(c).Got?
    ensures AndRest(acc, " && " + Group(b)) == Got(And(acc, Read(b)), [])
    ensures AndRest(acc, " && " + Group(b) + (" && " + Group(c))) == Got(And(And(acc, Read(b)), Read(c)), [])
  {
    AndEnds(acc, b, []);
    AndEnds(acc, b, " && " + Group(c));
    AndEnds(And(acc, Read(b)), c, []);
    assert " && " + Group(b) + [] == " && " + Group(b) && " && " + Group(c) + [] == " && " + Group(c);
  }

  lemma OrPair(a: string, b: string, x: Expr, y: Expr)
    requires ParseUnary(a + (" || " + b)) == Got(x, " || " + b) && ParseAnd(b) == Got(y, [])
    ensures ParseCondition(a + (" || " + b)) == Got(Or(x, y), [])
  {
    var tail := " || " + b;
    assert tail == [' ', '|', '|', ' '] + b;
    BarsAhead(b);
    assert AndRest(x, tail) == Got(x, SkipWs(tail));
    OrRestSkips(x, tail);
    OrStep(x, b);
    assert OrRest(Or(x, y), []) == Got(Or(x, y), []);
    assert ParseOr(a + tail) == Got(Or(x, y), []);
  }

  /** Two bars disjoin. */
  lemma OrReads(a: string, b: string)
    requires ParseCondition(a).Got? && ParseCondition(b).Got?
    ensures ParseCondition(Group(a) + " || " + Group(b)) == Got(Or(Read(a), Read(b)), [])
  {
    GroupThen(a, " || " + Group(b));
    GroupThen(b, []);
    assert Group(b) + [] == Group(b);
    AloneStep(Group(b), Read(b));
    OrPair(Group(a), Group(b), Read(a), Read(b));
    assert Group(a) + " || " + Group(b) == Group(a) + (" || " + Group(b));
  }

  /** Two bars bind less than two ampersands. */
  lemma OrOfAndReads(a: string, b: string, c: string)
    requires ParseCondition(a).Got? && ParseCondition(b).Got? && ParseCondition(c).Got?
    ensures ParseCondition(Group(a) + " || " + (Group(b) + " && " + Group(c))) ==
            Got(Or(Read(a), And(Read(b), Read(c))), [])
  {
    var two := Group(b) + " && " + Group(c);
    GroupThen(a, " || " + two);
    AndReads(b, c);
    OrPair(Group(a), two, Read(a), And(Read(b), Read(c)));
    assert Group(a) + " || " + two == Group(a) + (" || " + two);
  }

  // ----- calls -----

  predicate AllRead(cs: seq<string>) {
    forall c | c in cs :: ParseCondition(c).Got?
  }

  function ReadEach(cs: seq<string>): (es: seq<Expr>)
    requires AllRead(cs)
  {
    seq(|cs|, i requires 0 <= i < |cs| => assert cs[i] in cs; Read(cs[i]))
  }

  /** Arguments with commas between them. */
  function Arguments(cs: seq<string>): string
    requires cs != []
  {
    if |cs| == 1 then Group(cs[0]) else Group(cs[0]) + ", " + Arguments(cs[1..])
  }

  lemma ArgumentAlone(c: string, rest: string)
    requires ParseCondition(c).Got? && rest != [] && (rest[0] == ')' || rest[0] == ',')
    ensures ParseOr(Group(c) + rest) == Got(Read(c), rest)
  {
    GroupThen(c, rest);
    assert SkipWs(rest) == rest;
    assert AndRest(Read(c), rest) == Got(Read(c), rest);
    assert OrRest(Read(c), rest) == Got(Read(c), rest);
  }

  lemma {:induction false} ArgumentsRead(cs: seq<string>)
    requires cs != [] && AllRead(cs)
    ensures ParseArgs(Arguments(cs) + ")") == Got(ReadEach(cs), [])
    decreases |cs|
  {
    assert cs[0] in cs;
    if |cs| == 1 {
      ArgumentAlone(cs[0], ")");
      var close := ")";
      assert SkipWs(close) == close && close[1..] == [];
      assert ReadEach(cs) == [Read(cs[0])];
    } else {
      var more := Arguments(cs[1..]) + ")";
      ArgumentsRead(cs[1..]);
      assert [',', ' '] + more == ", " + more;
      ArgumentAlone(cs[0], ", " + more);
      assert Group(cs[0]) + [',', ' '] + more == Group(cs[0]) + (", " + more) == Arguments(cs) + ")";
      assert more[0] == '(';
      ArgStep(Group(cs[0]), more, Read(cs[0]));
      assert [Read(cs[0])] + ReadEach(cs[1..]) == ReadEach(cs);
    }
  }

  lemma CallAlone(kw: string, body: string, es: seq<Expr>)
    requires kw in {"any_of", "all_of", "exactly_one_of"} && ParseArgs(body) == Got(es, [])
    ensures ParseCondition(kw + ['('] + body) == if |es| < 2 then Fail else Got(CallOf(kw, es), [])
  {
    CallStep(kw, body);
    var t := kw + ['('] + body;
    if |es| < 2 { UnaryFails(t); } else { AloneStep(t, CallOf(kw, es)); }
  }

  lemma UnaryFails(t: string)
    requires ParseUnary(t).Fail?
    ensures ParseCondition(t).Fail?
  {
    assert ParseAnd(t).Fail?;
    assert ParseOr(t).Fail?;
  }

  lemma CallSplit(kw: string, head: string, args: string)
    requires head == kw + ['(']
    ensures head + args + ")" == kw + ['('] + (args + ")")
  {
  }

  lemma CallReads(kw: string, head: string, cs: seq<string>)
    requires kw in {"any_of", "all_of", "exactly_one_of"} && head == kw + ['('] && cs != [] && AllRead(cs)
    ensures ParseCondition(head + Arguments(cs) + ")") ==
            if |cs| < 2 then Fail else Got(CallOf(kw, ReadEach(cs)), [])
  {
    ArgumentsRead(cs);
    CallAlone(kw, Arguments(cs) + ")", ReadEach(cs));
    CallSplit(kw, head, Arguments(cs));
  }

  lemma CallKinds(es: seq<Expr>)
    ensures CallOf("any_of", es) == AnyOf(es) && CallOf("all_of", es) == AllOf(es)
    ensures CallOf("exactly_one_of", es) == ExactlyOneOf(es)
  {
  }

  lemma CallHeads()
    ensures "any_of(" == "any_of" + ['('] && "all_of(" == "all_of" + ['(']
    ensures "exactly_one_of(" == "exactly_one_of" + ['(']
  {
  }

  /** `any_of`, with any number of arguments from two on. */
  lemma AnyOfReads(cs: seq<string>)
    requires cs != [] && AllRead(cs)
    ensures ParseCondition("any_of(" + Arguments(cs) + ")") == if |cs| < 2 then Fail else Got(AnyOf(ReadEach(cs)), [])
  {
    CallHeads();
    CallKinds(ReadEach(cs));
    CallReads("any_of", "any_of(", cs);
  }

  /** `all_of`. */
  lemma AllOfReads(cs: seq<string>)
    requires cs != [] && AllRead(cs)
    ensures ParseCondition("all_of(" + Arguments(cs) + ")") == if |cs| < 2 then Fail else Got(AllOf(ReadEach(cs)), [])
  {
    CallHeads();
    CallKinds(ReadEach(cs));
    CallReads("all_of", "all_of(", cs);
  }

  /** `exactly_one_of`. */
  lemma ExactlyOneOfReads(cs: seq<string>)
    requires cs != [] && AllRead(cs)
    ensures ParseCondition("exactly_one_of(" + Arguments(cs) + ")") ==
            if |cs| < 2 then Fail else Got(ExactlyOneOf(ReadEach(cs)), [])
  {
    CallHeads();
    CallKinds(ReadEach(cs));
    CallReads("exactly_one_of", "exactly_one_of(", cs);
  }
}
