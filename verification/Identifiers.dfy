/** The authored symbol charset: facet, binding, catalogue and entry ids
    (compiler/src/link_verify.rs, `is_snake_id`), unit names
    (compiler/src/link_lock.rs, `check_unit_name`), facet values
    (`is_symbol_token`) and the symbol names built from them. */
module Identifiers {
  import opened Conditions
  import ConditionText

  // ----- the pattern, as written -----

  datatype Regex =
    | OneOf(chars: set<char>)
    | Then(first: Regex, second: Regex)
    | Either(left: Regex, right: Regex)
    | Star(body: Regex)
    | Maybe(body: Regex)

  ghost predicate Matches(re: Regex, s: string)
    decreases |s|, re
  {
    match re
    case OneOf(chars) => |s| == 1 && s[0] in chars
    case Then(a, b) => exists k :: 0 <= k <= |s| && Matches(a, s[..k]) && Matches(b, s[k..])
    case Either(a, b) => Matches(a, s) || Matches(b, s)
    case Star(a) => s == [] || exists k :: 0 < k <= |s| && Matches(a, s[..k]) && Matches(re, s[k..])
    case Maybe(a) => s == [] || Matches(a, s)
  }

  const LOWER: set<char> := set c: char | 'a' <= c <= 'z'
  const ALNUM: set<char> := set c: char | 'a' <= c <= 'z' || '0' <= c <= '9'

  const GLUED: Regex := Either(OneOf(ALNUM), Then(OneOf({'_'}), OneOf(ALNUM)))
  const TAIL: Regex := Then(Star(GLUED), Maybe(OneOf({'_'})))

  /** `^[a-z]([a-z0-9]|_[a-z0-9])*_?$` */
  const SNAKE_ID: Regex := Then(OneOf(LOWER), TAIL)

  // ----- what follows the first letter -----

  predicate IsTail(s: string) {
    || s == []
    || (s[0] in ALNUM && IsTail(s[1..]))
    || (s[0] == '_' && (|s| == 1 || (s[1] in ALNUM && IsTail(s[2..]))))
  }

  lemma GluedMatches(s: string)
    ensures Matches(GLUED, s) <==> (|s| == 1 && s[0] in ALNUM) || (|s| == 2 && s[0] == '_' && s[1] in ALNUM)
  {
    var pair := Then(OneOf({'_'}), OneOf(ALNUM));
    if |s| == 2 && s[0] == '_' && s[1] in ALNUM {
      assert Matches(OneOf({'_'}), s[..1]) && Matches(OneOf(ALNUM), s[1..]);
      assert Matches(pair, s);
    }
    if Matches(pair, s) {
      var k :| 0 <= k <= |s| && Matches(OneOf({'_'}), s[..k]) && Matches(OneOf(ALNUM), s[k..]);
      assert k == 1 && s[..k][0] == s[0] && s[k..][0] == s[1];
    }
    assert Matches(GLUED, s) <==> Matches(OneOf(ALNUM), s) || Matches(pair, s);
  }

  lemma {:induction false} TailMatches(s: string)
    requires IsTail(s)
    ensures Matches(TAIL, s)
  {
    if s == [] || (s[0] == '_' && |s| == 1) {
      assert s[..0] == [] && s[0..] == s;
      assert Matches(Star(GLUED), s[..0]) && Matches(Maybe(OneOf({'_'})), s[0..]);
    } else {
      var j := if s[0] == '_' then 2 else 1;
      TailMatches(s[j..]);
      GluedMatches(s[..j]);
      var k :| 0 <= k <= |s[j..]| && Matches(Star(GLUED), s[j..][..k]) && Matches(Maybe(OneOf({'_'})), s[j..][k..]);
      var run := s[..j + k];
      assert run[..j] == s[..j] && run[j..] == s[j..][..k] && s[j + k..] == s[j..][k..];
      assert Matches(Star(GLUED), run);
    }
  }

  lemma {:induction false} MatchesIsTail(s: string, k: nat)
    requires k <= |s| && Matches(Star(GLUED), s[..k]) && Matches(Maybe(OneOf({'_'})), s[k..])
    ensures IsTail(s)
  {
    if k > 0 {
      var run := s[..k];
      var j :| 0 < j <= |run| && Matches(GLUED, run[..j]) && Matches(Star(GLUED), run[j..]);
      GluedMatches(run[..j]);
      assert s[j..][..k - j] == run[j..] && s[j..][k - j..] == s[k..];
      MatchesIsTail(s[j..], k - j);
      assert run[0] == s[0] && (j == 2 ==> run[1] == s[1]);
    } else {
      assert s[k..] == s;
    }
  }

  lemma TailIsPattern(s: string)
    ensures IsTail(s) <==> Matches(TAIL, s)
  {
    if IsTail(s) { TailMatches(s); }
    if Matches(TAIL, s) {
      var k :| 0 <= k <= |s| && Matches(Star(GLUED), s[..k]) && Matches(Maybe(OneOf({'_'})), s[k..]);
      MatchesIsTail(s, k);
    }
  }

  lemma SnakeIdIsPattern(id: string)
    ensures Matches(SNAKE_ID, id) <==> id != [] && id[0] in LOWER && IsTail(id[1..])
  {
    if id != [] {
      TailIsPattern(id[1..]);
      assert id[..1] == [id[0]];
    }
    if id != [] && id[0] in LOWER && IsTail(id[1..]) {
      assert Matches(OneOf(LOWER), id[..1]) && Matches(TAIL, id[1..]);
    }
  }

  // ----- the two hand-written walks -----

  /** `is_snake_id`: a walk by index that jumps over a glued underscore. */
  method IsSnakeId(id: string) returns (ok: bool)
    ensures ok <==> Matches(SNAKE_ID, id)
  {
    SnakeIdIsPattern(id);
    if id == [] || id[0] !in LOWER {
      return false;
    }
    var at := 1;
    while at < |id|
      invariant 1 <= at <= |id|
      invariant IsTail(id[1..]) <==> IsTail(id[at..])
    {
      assert id[at..][1..] == id[at + 1..];
      if id[at] in ALNUM {
        at := at + 1;
      } else if id[at] == '_' {
        if at + 1 == |id| {
          return true;
        }
        if id[at + 1] !in ALNUM {
          return false;
        }
        assert id[at..][2..] == id[at + 2..];
        at := at + 2;
      } else {
        return false;
      }
    }
    return true;
  }

  /** What `check_unit_name` still accepts after an underscore, or not. */
  predicate UnitTail(s: string, afterUnderscore: bool) {
    || s == []
    || (s[0] in ALNUM && UnitTail(s[1..], false))
    || (s[0] == '_' && !afterUnderscore && UnitTail(s[1..], true))
  }

  lemma {:induction false} UnitTailIsTail(s: string)
    ensures UnitTail(s, false) <==> IsTail(s)
  {
    if s != [] {
      if s[0] == '_' {
        if |s| > 1 {
          assert s[1..][1..] == s[2..];
          UnitTailIsTail(s[2..]);
        }
      } else {
        UnitTailIsTail(s[1..]);
      }
    }
  }

  /** `check_unit_name`: a walk with a flag for the previous underscore. */
  method CheckUnitName(unit: string) returns (ok: bool)
    ensures ok <==> Matches(SNAKE_ID, unit)
  {
    SnakeIdIsPattern(unit);
    if unit == [] || unit[0] !in LOWER {
      return false;
    }
    UnitTailIsTail(unit[1..]);
    var previousWasUnderscore := false;
    for i := 1 to |unit|
      invariant UnitTail(unit[1..], false) <==> UnitTail(unit[i..], previousWasUnderscore)
    {
      assert unit[i..][1..] == unit[i + 1..];
      if unit[i] in ALNUM {
        previousWasUnderscore := false;
      } else if unit[i] == '_' {
        if previousWasUnderscore {
          return false;
        }
        previousWasUnderscore := true;
      } else {
        return false;
      }
    }
    return true;
  }

  predicate IsSymbolToken(value: string) {
    value != [] && forall c | c in value ::
      'a' <= c <= 'z' || 'A' <= c <= 'Z' || '0' <= c <= '9' || c == '.' || c == '_' || c == '-'
  }

  // ----- what the charset buys -----

  lemma {:induction false} TailChars(s: string)
    requires IsTail(s)
    ensures forall c | c in s :: ConditionText.IsIdentChar(c)
  {
    if s != [] && !(s[0] == '_' && |s| == 1) {
      var j := if s[0] == '_' then 2 else 1;
      TailChars(s[j..]);
      assert s == s[..j] + s[j..];
    }
  }

  /** Every snake id is an identifier of the condition grammar. */
  lemma SnakeIdIsIdent(id: string)
    requires Matches(SNAKE_ID, id)
    ensures ConditionText.IsIdent(id) && '.' !in id
  {
    SnakeIdIsPattern(id);
    TailChars(id[1..]);
    assert id == [id[0]] + id[1..];
  }

  /** Two symbols share a variable name only when they are one symbol: the tag is
      everything before the first dot. */
  lemma SymbolNameInjective(tag: string, value: string, tag': string, value': string)
    requires '.' !in tag && '.' !in tag'
    requires SymbolName(tag, value) == SymbolName(tag', value')
    ensures tag == tag' && value == value'
  {
    var n, n' := SymbolName(tag, value), SymbolName(tag', value');
    assert n[|tag|] == '.' && n'[|tag'|] == '.';
    assert forall i | 0 <= i < |tag| :: n[i] == tag[i] && tag[i] in tag;
    assert forall i | 0 <= i < |tag'| :: n'[i] == tag'[i] && tag'[i] in tag';
    assert n[..|tag|] == tag && n'[..|tag'|] == tag';
    assert n[|tag| + 1..] == value && n'[|tag'| + 1..] == value';
  }
}
