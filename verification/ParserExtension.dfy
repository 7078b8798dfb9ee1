/** What may follow a parsed text without reaching into it: a closing parenthesis, or white
    space (compiler/src/conditions/ast.rs). */
module ParserExtension {
  import opened Conditions
  import opened ConditionText
  import opened ConditionRoundTrip

  /** A continuation the parser stops at, skipping at most the white space it starts with. */
  predicate Stops(s: string) {
    s != [] && !IsIdentChar(s[0]) && var u := SkipWs(s); u != [] ==> u[0] != '(' && u[0] != '|' && u[0] != '&'
  }

  /** What is left of `t + s` when `t` leaves `r`: the same and then `s`, whose leading white
      space may be gone if `r` is empty. */
  predicate Remains(r': string, r: string, s: string) {
    r' == r + s || (r == [] && r' == SkipWs(s))
  }

  /** The longer text gives the same value. */
  predicate Extends<T(==)>(longer: Parsed<T>, shorter: Parsed<T>, s: string) {
    shorter.Got? ==> longer.Got? && longer.value == shorter.value && Remains(longer.rest, shorter.rest, s)
  }

  /** White space skipped in `t + s`. */
  function Skipped(t: string, s: string): string {
    var u := SkipWs(t);
    if u == [] then SkipWs(s) else u + s
  }

  lemma {:induction false} SkipWsExtends(t: string, s: string)
    ensures SkipWs(t + s) == Skipped(t, s)
  {
    if t == [] {
      assert t + s == s;
    } else if IsWs(t[0]) {
      assert (t + s)[1..] == t[1..] + s;
      SkipWsExtends(t[1..], s);
    }
  }

  lemma SkipRemains(r': string, r: string, s: string)
    requires Remains(r', r, s)
    ensures SkipWs(r') == Skipped(r, s)
  {
    SkipWsExtends(r, s);
    SkipWsIdempotent(s);
  }

  lemma {:induction false} TakeIdentExtends(t: string, s: string)
    requires Stops(s)
    ensures TakeIdent(t + s) == TakeIdent(t)
  {
    if t == [] {
      assert t + s == s;
    } else if IsIdentChar(t[0]) {
      assert (t + s)[1..] == t[1..] + s;
      TakeIdentExtends(t[1..], s);
    }
  }

  lemma {:induction false} TakeUntilExtends(t: string, q: char, s: string)
    requires TakeUntil(t, q).Got?
    ensures TakeUntil(t + s, q) == Got(TakeUntil(t, q).value, TakeUntil(t, q).rest + s)
  {
    assert (t + s)[1..] == t[1..] + s;
    if t[0] != q {
      TakeUntilExtends(t[1..], q, s);
    }
  }

  lemma IdentExtends(t: string, s: string)
    requires Stops(s)
    ensures ParseIdent(t).Got? ==> ParseIdent(t + s) == Got(ParseIdent(t).value, ParseIdent(t).rest + s)
  {
    if ParseIdent(t).Got? {
      TakeIdentExtends(t, s);
      var name := TakeIdent(t);
      assert (t + s)[|name|..] == t[|name|..] + s;
    }
  }

  lemma OperatorExtends(t: string, s: string)
    requires Stops(s)
    ensures ParseOperator(t).Got? ==> ParseOperator(t + s) == Got(ParseOperator(t).value, ParseOperator(t).rest + s)
  {
  }

  lemma QuotedExtends(t: string, s: string)
    requires Stops(s)
    ensures ParseQuoted(t).Got? ==> ParseQuoted(t + s) == Got(ParseQuoted(t).value, ParseQuoted(t).rest + s)
    ensures ParseQuoted(t).Fail? && ParseIdent(t).Got? ==> ParseQuoted(t + s).Fail?
  {
    if t != [] {
      assert (t + s)[1..] == t[1..] + s;
      if ParseQuoted(t).Got? { TakeUntilExtends(t[1..], t[0], s); }
    }
  }

  lemma KeywordExtends(t: string, s: string, kw: string)
    requires Stops(s) && forall c | c in kw :: IsIdentChar(c)
    ensures StartsWithKeyword(t + s, kw) == StartsWithKeyword(t, kw)
  {
    if |kw| <= |t| {
      assert (t + s)[..|kw|] == t[..|kw|];
    } else {
      assert kw[|t|] in kw && kw[|t|] != (t + s)[|t|];
    }
  }

  lemma CallExtends(t: string, s: string, kw: string)
    requires Stops(s) && forall c | c in kw :: IsIdentChar(c)
    ensures StartsCall(t + s, kw) == StartsCall(t, kw)
  {
    KeywordExtends(t, s, kw);
    if StartsWithKeyword(t, kw) {
      assert (t + s)[|kw|..] == t[|kw|..] + s;
      SkipWsExtends(t[|kw|..], s);
    }
  }

  /** The choices `parse_primary` makes are made the same way. */
  lemma ChoicesExtend(u: string, s: string)
    requires Stops(s)
    ensures StartsWithKeyword(u + s, "true") == StartsWithKeyword(u, "true")
    ensures StartsWithKeyword(u + s, "false") == StartsWithKeyword(u, "false")
    ensures StartsCall(u + s, "any_of") == StartsCall(u, "any_of")
    ensures StartsCall(u + s, "all_of") == StartsCall(u, "all_of")
    ensures StartsCall(u + s, "exactly_one_of") == StartsCall(u, "exactly_one_of")
  {
    KeywordExtends(u, s, "true");
    KeywordExtends(u, s, "false");
    CallExtends(u, s, "any_of");
    CallExtends(u, s, "all_of");
    CallExtends(u, s, "exactly_one_of");
  }

  /** Neither a literal nor a group. */
  predicate IsAtom(u: string) {
    u != [] && u[0] != '(' && SkipWs(u) == u && !StartsWithKeyword(u, "true") && !StartsWithKeyword(u, "false")
  }

  lemma LiteralStep(u: string)
    requires u != [] && u[0] != '(' && SkipWs(u) == u
    ensures StartsWithKeyword(u, "true") ==> ParsePrimary(u) == Got(Bool(true), u[4..])
    ensures !StartsWithKeyword(u, "true") && StartsWithKeyword(u, "false") ==>
            ParsePrimary(u) == Got(Bool(false), u[5..])
  {
  }

  lemma AtomStep(u: string)
    requires IsAtom(u)
    ensures ParsePrimary(u) ==
            if StartsCall(u, "any_of") then ParseCall(u, "any_of")
            else if StartsCall(u, "all_of") then ParseCall(u, "all_of")
            else if StartsCall(u, "exactly_one_of") then ParseCall(u, "exactly_one_of")
            else ParsePredicate(u)
  {
  }

  lemma PredicateExtends(t: string, s: string)
    requires Stops(s) && SkipWs(t) != []
    ensures Extends(ParsePredicate(t + s), ParsePredicate(t), s)
  {
    SkipWsExtends(t, s);
    var u := SkipWs(t);
    IdentExtends(u, s);
    if ParseIdent(u).Got? {
      var afterTag := ParseIdent(u).rest;
      SkipWsExtends(afterTag, s);
      OperatorExtends(SkipWs(afterTag), s);
      if ParseOperator(SkipWs(afterTag)).Got? {
        ComparandExtends(ParseOperator(SkipWs(afterTag)).rest, s);
      }
    }
  }

  lemma ComparandExtends(afterOp: string, s: string)
    requires Stops(s)
    ensures var rhs := SkipWs(afterOp);
            var rhs' := SkipWs(afterOp + s);
            && (ParseQuoted(rhs).Got? ==> ParseQuoted(rhs') == Got(ParseQuoted(rhs).value, ParseQuoted(rhs).rest + s))
            && (ParseQuoted(rhs).Fail? && ParseIdent(rhs).Got? ==>
                  ParseQuoted(rhs').Fail? && ParseIdent(rhs') == Got(ParseIdent(rhs).value, ParseIdent(rhs).rest + s))
  {
    SkipWsExtends(afterOp, s);
    QuotedExtends(SkipWs(afterOp), s);
    IdentExtends(SkipWs(afterOp), s);
  }

  lemma {:induction false} OrExtends(t: string, s: string)
    requires Stops(s)
    ensures Extends(ParseOr(t + s), ParseOr(t), s)
    decreases |t|, 5
  {
    AndExtends(t, s);
    if ParseAnd(t).Got? {
      OrRestExtends(ParseAnd(t).value, ParseAnd(t).rest, ParseAnd(t + s).rest, s);
    }
  }

  lemma {:induction false} OrRestExtends(acc: Expr, t: string, t': string, s: string)
    requires Stops(s) && Remains(t', t, s)
    ensures Extends(OrRest(acc, t'), OrRest(acc, t), s)
    decreases |t|, 5
  {
    SkipRemains(t', t, s);
    var u := SkipWs(t);
    if At2(u, '|') {
      assert (u + s)[2..] == u[2..] + s;
      AndExtends(u[2..], s);
      var r, r' := ParseAnd(u[2..]), ParseAnd(u[2..] + s);
      if r.Got? { OrRestExtends(Or(acc, r.value), r.rest, r'.rest, s); }
    } else {
      NotAt2(u, s, '|');
    }
  }

  /** The continuation completes no operator. */
  lemma NotAt2(u: string, s: string, c: char)
    requires Stops(s) && (c == '|' || c == '&') && !At2(u, c)
    ensures !At2(u + s, c) && !At2(SkipWs(s), c)
  {
  }

  lemma {:induction false} AndExtends(t: string, s: string)
    requires Stops(s)
    ensures Extends(ParseAnd(t + s), ParseAnd(t), s)
    decreases |t|, 4
  {
    UnaryExtends(t, s);
    if ParseUnary(t).Got? {
      AndRestExtends(ParseUnary(t).value, ParseUnary(t).rest, ParseUnary(t + s).rest, s);
    }
  }

  lemma {:induction false} AndRestExtends(acc: Expr, t: string, t': string, s: string)
    requires Stops(s) && Remains(t', t, s)
    ensures Extends(AndRest(acc, t'), AndRest(acc, t), s)
    decreases |t|, 4
  {
    SkipRemains(t', t, s);
    var u := SkipWs(t);
    if At2(u, '&') {
      assert (u + s)[2..] == u[2..] + s;
      UnaryExtends(u[2..], s);
      var r, r' := ParseUnary(u[2..]), ParseUnary(u[2..] + s);
      if r.Got? { AndRestExtends(And(acc, r.value), r.rest, r'.rest, s); }
    } else {
      NotAt2(u, s, '&');
    }
  }

  lemma {:induction false} UnaryExtends(t: string, s: string)
    requires Stops(s)
    ensures Extends(ParseUnary(t + s), ParseUnary(t), s)
    decreases |t|, 3
  {
    SkipWsExtends(t, s);
    SkipWsIdempotent(t);
    var u := SkipWs(t);
    if u != [] && u[0] == '!' && !(|u| > 1 && u[1] == '=') {
      assert (u + s)[1..] == u[1..] + s;
      UnaryExtends(u[1..], s);
    } else if u != [] {
      PrimaryExtends(u, s);
    }
  }

  lemma {:induction false} PrimaryExtends(u: string, s: string)
    requires Stops(s) && u != [] && SkipWs(u) == u
    ensures Extends(ParsePrimary(u + s), ParsePrimary(u), s)
    decreases |u|, 2
  {
    if u[0] == '(' {
      GroupExtends(u, s);
    } else {
      AtomExtends(u, s);
    }
  }

  lemma {:induction false} GroupExtends(u: string, s: string)
    requires Stops(s) && u != [] && u[0] == '('
    ensures Extends(ParsePrimary(u + s), ParsePrimary(u), s)
    decreases |u|, 1
  {
    assert (u + s)[1..] == u[1..] + s;
    OrExtends(u[1..], s);
    var r, r' := ParseOr(u[1..]), ParseOr(u[1..] + s);
    if r.Got? {
      SkipRemains(r'.rest, r.rest, s);
      var v := SkipWs(r.rest);
      if v != [] { assert (v + s)[1..] == v[1..] + s; }
    }
  }

  lemma {:induction false} AtomExtends(u: string, s: string)
    requires Stops(s) && u != [] && u[0] != '(' && SkipWs(u) == u
    ensures Extends(ParsePrimary(u + s), ParsePrimary(u), s)
    decreases |u|, 1
  {
    SkipWsExtends(u, s);
    ChoicesExtend(u, s);
    LiteralStep(u);
    LiteralStep(u + s);
    if StartsWithKeyword(u, "true") {
      assert (u + s)[4..] == u[4..] + s;
    } else if StartsWithKeyword(u, "false") {
      assert (u + s)[5..] == u[5..] + s;
    } else {
      AtomStep(u);
      AtomStep(u + s);
      if StartsCall(u, "any_of") {
        ParseCallExtends(u, s, "any_of");
      } else if StartsCall(u, "all_of") {
        ParseCallExtends(u, s, "all_of");
      } else if StartsCall(u, "exactly_one_of") {
        ParseCallExtends(u, s, "exactly_one_of");
      } else {
        PredicateExtends(u, s);
      }
    }
  }

  lemma {:induction false} ParseCallExtends(t: string, s: string, kw: string)
    requires Stops(s) && StartsCall(t, kw) && StartsCall(t + s, kw)
    ensures Extends(ParseCall(t + s, kw), ParseCall(t, kw), s)
    decreases |t|, 0
  {
    assert (t + s)[|kw|..] == t[|kw|..] + s;
    SkipWsExtends(t[|kw|..], s);
    var peek := SkipWs(t[|kw|..]);
    assert (peek + s)[1..] == peek[1..] + s;
    ArgsExtend(peek[1..], s);
  }

  lemma {:induction false} ArgsExtend(t: string, s: string)
    requires Stops(s)
    ensures Extends(ParseArgs(t + s), ParseArgs(t), s)
    decreases |t|, 6
  {
    OrExtends(t, s);
    var r, r' := ParseOr(t), ParseOr(t + s);
    if r.Got? {
      SkipRemains(r'.rest, r.rest, s);
      var u := SkipWs(r.rest);
      if u != [] {
        assert (u + s)[1..] == u[1..] + s;
        if u[0] == ',' {
          SkipWsExtends(u[1..], s);
          if SkipWs(u[1..]) != [] { ArgsExtend(SkipWs(u[1..]), s); }
        }
      }
    }
  }

  /** A condition that parses on its own parses to the same expression in parentheses. */
  lemma Parenthesized(c: string, rest: string)
    requires ParseCondition(c).Got?
    ensures ParseUnary("(" + c + ")" + rest) == Got(ParseCondition(c).value, rest)
  {
    var s := ")" + rest;
    var t := "(" + c + ")" + rest;
    assert t == ['('] + (c + s) && t[1..] == c + s;
    OrExtends(c, s);
    SkipRemains(ParseOr(c + s).rest, ParseOr(c).rest, s);
    assert SkipWs(t) == t;
    assert SkipWs(s) == s && s[1..] == rest;
  }

  // ----- surrounding white space -----

  lemma {:induction false} AllSkipped(s: string)
    ensures SkipWs(s) == [] <==> forall c | c in s :: IsWs(c)
  {
    if s != [] && IsWs(s[0]) {
      AllSkipped(s[1..]);
      assert s == [s[0]] + s[1..];
    }
  }

  /** White space after a condition is harmless exactly when the grammar knows all of it. */
  lemma TrailingSpace(c: string, s: string)
    requires ParseCondition(c).Got? && Stops(s)
    ensures ParseCondition(c + s) == if forall x | x in s :: IsWs(x) then ParseCondition(c) else Fail
  {
    OrExtends(c, s);
    SkipRemains(ParseOr(c + s).rest, ParseOr(c).rest, s);
    AllSkipped(s);
  }

  /** White space before a condition is skipped when the grammar knows all of it. */
  lemma LeadingSpace(s: string, c: string)
    requires forall x | x in s :: IsWs(x)
    ensures ParseCondition(s + c) == ParseCondition(c)
  {
    SkipWsExtends(s, c);
    AllSkipped(s);
    assert ParseUnary(s + c) == ParseUnary(c);
    assert ParseAnd(s + c) == ParseAnd(c);
    assert ParseOr(s + c) == ParseOr(c);
  }

  /** No condition starts with a character the grammar does not know. */
  lemma ForeignStart(t: string)
    requires var u := SkipWs(t); u != [] && !IsIdentChar(u[0]) && u[0] != '!' && u[0] != '('
    ensures ParseCondition(t).Fail?
  {
    var u := SkipWs(t);
    SkipWsIdempotent(t);
    assert ParsePrimary(u) == ParsePredicate(u) == Fail;
    assert ParseUnary(t) == Fail;
    assert ParseAnd(t) == Fail;
    assert ParseOr(t) == Fail;
  }
}
