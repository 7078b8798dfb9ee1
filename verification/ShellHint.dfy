/** The `cfx explain` command line a rejection prints (cfx/src/main.rs), read back by
    sections 2.2.1, 2.2.2 and 2.3 of the POSIX Shell Command Language. */
module ShellHint {
  import opened Options

  // ----- printing -----

  /** Every single quote becomes close, escaped quote, reopen. */
  function Escape(term: string): string {
    if term == [] then [] else (if term[0] == '\'' then ['\'', '\\', '\'', '\''] else [term[0]]) + Escape(term[1..])
  }

  function ShellQuote(term: string): string {
    ['\''] + Escape(term) + ['\'']
  }

  /** A flag and its quoted argument, each after a blank. */
  function Flag(flag: string, term: string): string {
    [' '] + flag + [' '] + ShellQuote(term)
  }

  const MODEL_FLAG := "--model"
  const FILE_FLAG := "--selection-file"
  const SELECT_FLAG := "--select"
  const COMMAND := "cfx explain"

  function SelectsText(selects: seq<string>): string {
    if selects == [] then [] else SelectsText(selects[..|selects| - 1]) + Flag(SELECT_FLAG, selects[|selects| - 1])
  }

  function FileText(selectionFile: Option<string>): string {
    if selectionFile.Some? then Flag(FILE_FLAG, selectionFile.value) else []
  }

  function HintText(model: string, selectionFile: Option<string>, selects: seq<string>): string {
    COMMAND + Flag(MODEL_FLAG, model) + FileText(selectionFile) + SelectsText(selects)
  }

  method ExplainHint(model: string, selectionFile: Option<string>, selects: seq<string>) returns (hint: string)
    ensures hint == HintText(model, selectionFile, selects)
    ensures Words(hint, None) == Some(ExpectedWords(model, selectionFile, selects))
  {
    hint := COMMAND + Flag(MODEL_FLAG, model);
    if selectionFile.Some? {
      hint := hint + Flag(FILE_FLAG, selectionFile.value);
    }
    ghost var head := hint;
    for k := 0 to |selects|
      invariant hint == head + SelectsText(selects[..k])
    {
      SelectsStep(head, selects, k);
      hint := hint + Flag(SELECT_FLAG, selects[k]);
    }
    assert selects[..|selects|] == selects;
    HintReadsBack(model, selectionFile, selects);
  }

  lemma SelectsStep(head: string, selects: seq<string>, k: nat)
    requires k < |selects|
    ensures head + SelectsText(selects[..k]) + Flag(SELECT_FLAG, selects[k]) == head + SelectsText(selects[..k + 1])
  {
    assert selects[..k + 1][..k] == selects[..k];
  }

  // ----- reading -----

  /** Characters that stand for themselves and neither quote, separate nor operate. */
  predicate IsPlain(c: char) {
    'a' <= c <= 'z' || 'A' <= c <= 'Z' || '0' <= c <= '9' || c in {'-', '_', '.', '/', '=', ':', ',', '+', '@', '%'}
  }

  function Grow(word: Option<string>, s: string): Option<string> {
    Some((if word.Some? then word.value else []) + s)
  }

  function Finish(word: Option<string>): seq<string> {
    if word.Some? then [word.value] else []
  }

  function Prepend(ws: seq<string>, rest: Option<seq<string>>): Option<seq<string>> {
    if rest.Some? then Some(ws + rest.value) else None
  }

  /** The words of a command line, given the word read so far; `None` when it holds
      anything beyond blanks, plain characters, backslash and single quotes. */
  function Words(t: string, word: Option<string>): Option<seq<string>>
    decreases |t|
  {
    if t == [] then Some(Finish(word))
    else if t[0] == ' ' || t[0] == '\t' then Prepend(Finish(word), Words(t[1..], None))
    else if t[0] == '\'' then InQuotes(t[1..], if word.Some? then word.value else [])
    else if t[0] == '\\' then
      if |t| == 1 then None
      else if t[1] == '\n' then Words(t[2..], word)
      else Words(t[2..], Grow(word, [t[1]]))
    else if IsPlain(t[0]) then Words(t[1..], Grow(word, [t[0]]))
    else None
  }

  /** Inside single quotes nothing is special but the closing quote. */
  function InQuotes(t: string, word: string): Option<seq<string>>
    decreases |t|
  {
    if t == [] then None
    else if t[0] == '\'' then Words(t[1..], Some(word))
    else InQuotes(t[1..], word + [t[0]])
  }

  // ----- round trip -----

  lemma {:induction false} EscapedReads(term: string, rest: string, word: string)
    ensures InQuotes(Escape(term) + ['\''] + rest, word) == Words(rest, Some(word + term))
    decreases |term|
  {
    if term == [] {
      var t := Escape(term) + ['\''] + rest;
      assert t == ['\''] + rest && t[1..] == rest && word + term == word;
    } else {
      var more := Escape(term[1..]) + ['\''] + rest;
      EscapedReads(term[1..], rest, word + [term[0]]);
      assert word + [term[0]] + term[1..] == word + term;
      if term[0] == '\'' {
        EscapedQuote(more, word);
        assert Escape(term) + ['\''] + rest == ['\'', '\\', '\'', '\''] + more;
      } else {
        var t := [term[0]] + more;
        assert Escape(term) + ['\''] + rest == t && t[1..] == more;
      }
    }
  }

  lemma EscapedQuote(more: string, word: string)
    ensures InQuotes(['\'', '\\', '\'', '\''] + more, word) == InQuotes(more, word + ['\''])
  {
    var t := ['\'', '\\', '\'', '\''] + more;
    var a := ['\\', '\'', '\''] + more;
    var b := ['\''] + more;
    assert t[1..] == a && a[2..] == b && b[1..] == more;
    assert Words(a, Some(word)) == Words(b, Some(word + ['\'']));
  }

  /** A quoted term is read back as one unmodified word. */
  lemma QuotedReads(term: string, rest: string)
    ensures Words(ShellQuote(term) + rest, None) == Words(rest, Some(term))
  {
    var t := ShellQuote(term) + rest;
    assert t[1..] == Escape(term) + ['\''] + rest;
    EscapedReads(term, rest, []);
    assert [] + term == term;
  }

  predicate AllPlain(w: string) {
    forall c | c in w :: IsPlain(c)
  }

  lemma GrowJoin(word: Option<string>, a: string, b: string)
    ensures Grow(Grow(word, a), b) == Grow(word, a + b)
  {
    if word.Some? { assert word.value + a + b == word.value + (a + b); } else { assert [] + a + b == [] + (a + b); }
  }

  lemma {:induction false} PlainReads(w: string, rest: string, word: Option<string>)
    requires AllPlain(w) && w != []
    ensures Words(w + rest, word) == Words(rest, Grow(word, w))
    decreases |w|
  {
    var t, c, more := w + rest, w[0], w[1..];
    assert t[1..] == more + rest && w == [c] + more && c in w;
    assert Words(t, word) == Words(more + rest, Grow(word, [c]));
    if more == [] {
      assert more + rest == rest && w == [c];
    } else {
      PlainReads(more, rest, Grow(word, [c]));
      GrowJoin(word, [c], more);
    }
  }

  /** A blank ends the word before it. */
  lemma BlankReads(rest: string, word: Option<string>)
    ensures Words([' '] + rest, word) == Prepend(Finish(word), Words(rest, None))
  {
    assert ([' '] + rest)[1..] == rest;
  }

  /** One flag and its quoted argument, after some word. */
  lemma FlagReads(flag: string, term: string, rest: string, word: Option<string>)
    requires AllPlain(flag) && flag != []
    ensures Words(Flag(flag, term) + rest, word) == Prepend(Finish(word) + [flag], Words(rest, Some(term)))
  {
    var quoted := ShellQuote(term) + rest;
    var afterFlag := [' '] + quoted;
    assert Flag(flag, term) + rest == [' '] + (flag + afterFlag);
    BlankReads(flag + afterFlag, word);
    PlainReads(flag, afterFlag, None);
    BlankReads(quoted, Some(flag));
    QuotedReads(term, rest);
    assert [] + flag == flag;
    var r := Words(rest, Some(term));
    if r.Some? { assert Finish(word) + ([flag] + r.value) == Finish(word) + [flag] + r.value; }
  }

  function SelectWords(selects: seq<string>): seq<string> {
    if selects == [] then [] else [SELECT_FLAG, selects[0]] + SelectWords(selects[1..])
  }

  function FrontSelects(selects: seq<string>): string {
    if selects == [] then [] else Flag(SELECT_FLAG, selects[0]) + FrontSelects(selects[1..])
  }

  lemma {:induction false} SelectsFromFront(selects: seq<string>, last: string)
    ensures FrontSelects(selects + [last]) == FrontSelects(selects) + Flag(SELECT_FLAG, last)
    decreases |selects|
  {
    var all := selects + [last];
    if selects == [] {
      assert all[1..] == [] && FrontSelects(all) == Flag(SELECT_FLAG, last) + [];
    } else {
      assert all[0] == selects[0] && all[1..] == selects[1..] + [last];
      SelectsFromFront(selects[1..], last);
    }
  }

  lemma {:induction false} SelectsAgree(selects: seq<string>)
    ensures SelectsText(selects) == FrontSelects(selects)
    decreases |selects|
  {
    if selects != [] {
      var k := |selects| - 1;
      SelectsAgree(selects[..k]);
      SelectsFromFront(selects[..k], selects[k]);
      assert selects == selects[..k] + [selects[k]];
    }
  }

  lemma {:induction false} SelectsRead(selects: seq<string>, word: Option<string>)
    ensures Words(FrontSelects(selects), word) == Some(Finish(word) + SelectWords(selects))
    decreases |selects|
  {
    if selects == [] {
      assert Finish(word) + [] == Finish(word);
    } else {
      SelectsRead(selects[1..], Some(selects[0]));
      FlagReads(SELECT_FLAG, selects[0], FrontSelects(selects[1..]), word);
      assert Finish(word) + [SELECT_FLAG] + ([selects[0]] + SelectWords(selects[1..])) ==
          Finish(word) + SelectWords(selects);
    }
  }

  function FileWords(selectionFile: Option<string>): seq<string> {
    if selectionFile.Some? then [FILE_FLAG, selectionFile.value] else []
  }

  /** What the command line was made from, word by word. */
  function ExpectedWords(model: string, selectionFile: Option<string>, selects: seq<string>): seq<string> {
    ["cfx", "explain", MODEL_FLAG, model] + FileWords(selectionFile) + SelectWords(selects)
  }

  lemma FlagsArePlain()
    ensures AllPlain(MODEL_FLAG) && AllPlain(FILE_FLAG) && AllPlain(SELECT_FLAG)
  {
  }

  lemma FileReads(selectionFile: Option<string>, selects: seq<string>, word: string)
    ensures Words(FileText(selectionFile) + FrontSelects(selects), Some(word)) ==
            Some([word] + FileWords(selectionFile) + SelectWords(selects))
  {
    var front := FrontSelects(selects);
    if selectionFile.Some? {
      FlagsArePlain();
      SelectsRead(selects, Some(selectionFile.value));
      FlagReads(FILE_FLAG, selectionFile.value, front, Some(word));
      JoinWords([word], FILE_FLAG, selectionFile.value, SelectWords(selects));
    } else {
      SelectsRead(selects, Some(word));
      assert [] + front == front;
      assert [word] + [] == [word];
    }
  }

  lemma JoinWords(ws: seq<string>, flag: string, term: string, rest: seq<string>)
    ensures ws + [flag] + ([term] + rest) == ws + [flag, term] + rest
  {
  }

  lemma ModelReads(model: string, rest: string, words: seq<string>)
    requires Words(rest, Some(model)) == Some([model] + words)
    ensures Words(Flag(MODEL_FLAG, model) + rest, Some("explain")) == Some(["explain", MODEL_FLAG, model] + words)
  {
    FlagsArePlain();
    FlagReads(MODEL_FLAG, model, rest, Some("explain"));
    JoinWords(["explain"], MODEL_FLAG, model, words);
    assert ["explain"] + [MODEL_FLAG, model] + words == ["explain", MODEL_FLAG, model] + words;
  }

  /** Two plain words, then more of the second. */
  lemma TwoWordsRead(a: string, b: string, tail: string, words: seq<string>)
    requires AllPlain(a) && AllPlain(b) && a != [] && b != [] && Words(tail, Some(b)) == Some(words)
    ensures Words(a + [' '] + b + tail, None) == Some([a] + words)
  {
    var second := b + tail;
    assert a + [' '] + b + tail == a + ([' '] + second);
    PlainReads(a, [' '] + second, None);
    BlankReads(second, Some(a));
    PlainReads(b, tail, None);
    assert [] + a == a && [] + b == b;
  }

  lemma CommandReads(tail: string, words: seq<string>)
    requires Words(tail, Some("explain")) == Some(words)
    ensures Words(COMMAND + tail, None) == Some(["cfx"] + words)
  {
    assert AllPlain("cfx") && AllPlain("explain") && COMMAND == "cfx" + [' '] + "explain";
    TwoWordsRead("cfx", "explain", tail, words);
  }

  lemma ExpectedParts(model: string, selectionFile: Option<string>, selects: seq<string>)
    ensures ["cfx"] + (["explain", MODEL_FLAG, model] + (FileWords(selectionFile) + SelectWords(selects))) ==
            ExpectedWords(model, selectionFile, selects)
  {
    var a, b, c := ["explain", MODEL_FLAG, model], FileWords(selectionFile), SelectWords(selects);
    assert ["cfx"] + a == ["cfx", "explain", MODEL_FLAG, model];
    assert ["cfx"] + (a + (b + c)) == ["cfx"] + a + b + c;
  }

  lemma HintParts(model: string, selectionFile: Option<string>, selects: seq<string>)
    ensures HintText(model, selectionFile, selects) ==
            COMMAND + (Flag(MODEL_FLAG, model) + (FileText(selectionFile) + SelectsText(selects)))
  {
    Regroup(COMMAND, Flag(MODEL_FLAG, model), FileText(selectionFile), SelectsText(selects));
  }

  lemma Regroup(a: string, b: string, c: string, d: string)
    ensures a + b + c + d == a + (b + (c + d))
  {
  }

  /** Whatever the paths and pairs hold, the printed hint is read back as exactly the words
      it was made from. */
  lemma HintReadsBack(model: string, selectionFile: Option<string>, selects: seq<string>)
    ensures Words(HintText(model, selectionFile, selects), None) == Some(ExpectedWords(model, selectionFile, selects))
  {
    var rest := FileText(selectionFile) + SelectsText(selects);
    var words := FileWords(selectionFile) + SelectWords(selects);
    SelectsAgree(selects);
    FileReads(selectionFile, selects, model);
    assert [model] + FileWords(selectionFile) + SelectWords(selects) == [model] + words;
    ModelReads(model, rest, words);
    CommandReads(Flag(MODEL_FLAG, model) + rest, ["explain", MODEL_FLAG, model] + words);
    HintParts(model, selectionFile, selects);
    ExpectedParts(model, selectionFile, selects);
  }
}
