/** Where the parser raises: each of its errors, wherever it occurs in a text of otherwise any kind. */
module VdfBadText {
  import opened Outcomes
  import opened VdfTree
  import opened VdfStack
  import opened VdfText
  import opened VdfReading
  import opened VdfFreeText

  /** The state after well-written pieces. */
  function Read(opt: Options, ps: seq<Piece>): Stack<string> {
    Stack([], MergeInto(opt.mode, Meaning(opt, ps), []))
  }

  lemma AfterPieces(opt: Options, ps: seq<Piece>, rest: string)
    requires ArePieces(ps)
    ensures ParseText(opt, Text(ps) + rest) == ParseLines(opt, Lines(rest), ps == [], Read(opt, ps), false)
  {
    ParsePieces(opt, ps, rest, true, Stack([], []));
  }

  /** A closing bracket that closes nothing, whatever follows. */
  lemma ExtraBracket(opt: Options, ps: seq<Piece>, indent: string, after: string, rest: string)
    requires ArePieces(ps) && Spaces(indent) && OneLine(after)
    ensures ParseText(opt, Text(ps) + (indent + (['}'] + after + "\n") + rest)) == Err(ExtraClosing)
  {
    AfterPieces(opt, ps, indent + (['}'] + after + "\n") + rest);
    ParseBracket(opt, indent, '}', after, rest, ps == [], Read(opt, ps), false);
  }

  /** A section that is never closed. */
  lemma MissingBracket(opt: Options, ps: seq<Piece>, indent: string, key: Token, blanks: string, o: Opening,
                       body: seq<Piece>)
    requires ArePieces(ps) && ArePieces(body) && Spaces(indent) && IsKey(key) && Blanks(blanks)
    requires IsOpening(key, blanks, o)
    ensures ParseText(opt, Text(ps) + (indent + OpeningText(key, blanks, o) + Text(body))) == Err(Unclosed)
  {
    AfterPieces(opt, ps, indent + OpeningText(key, blanks, o) + Text(body));
    ParseOpening(opt, indent, key, blanks, o, Text(body), ps == [], Read(opt, ps));
    ParsePieces(opt, body, "", false, Enter(opt.mode, Read(opt, ps), Decoded(opt, key.text)));
    assert Text(body) + "" == Text(body);
  }

  /** A key alone on its line, after which comes anything but a comment or an opening bracket. */
  lemma NoBracket(opt: Options, ps: seq<Piece>, indent: string, key: Token, blanks: string, tail: string,
                  between: seq<Idle>, indent': string, line: string, rest: string)
    requires ArePieces(ps) && Spaces(indent) && IsKey(key) && Blanks(blanks) && IsEnd(key, blanks, tail)
    requires AreIdle(between) && Spaces(indent') && OneLine(line) && Begins(line) && line[0] != '/' && line[0] != '{'
    ensures ParseText(opt, Text(ps) + (indent + (Written(key) + (blanks + (tail + "\n"))) +
                                       (IdleText(between) + (indent' + (line + "\n") + rest)))) == Err(ExpectedBracket)
  {
    var more := indent' + (line + "\n") + rest;
    AfterPieces(opt, ps, indent + (Written(key) + (blanks + (tail + "\n"))) + (IdleText(between) + more));
    ParseAlone(opt, indent, key, blanks, tail, IdleText(between) + more, ps == [], Read(opt, ps));
    var s := Enter(opt.mode, Read(opt, ps), Decoded(opt, key.text));
    ParseIdle(opt, between, more, false, s, true);
    OnlyLine(indent', line, rest);
    HeadAfter(indent', line + "\n", false);
    NextTurn(opt, indent' + (line + "\n"), Lines(rest), false, s, true);
  }

  /** A key alone on the last line. */
  lemma NothingAfterKey(opt: Options, ps: seq<Piece>, indent: string, key: Token, blanks: string, tail: string,
                        between: seq<Idle>)
    requires ArePieces(ps) && Spaces(indent) && IsKey(key) && Blanks(blanks) && IsEnd(key, blanks, tail)
    requires AreIdle(between)
    ensures ParseText(opt, Text(ps) + (indent + (Written(key) + (blanks + (tail + "\n"))) + IdleText(between)))
            == Err(Unclosed)
  {
    AfterPieces(opt, ps, indent + (Written(key) + (blanks + (tail + "\n"))) + IdleText(between));
    ParseAlone(opt, indent, key, blanks, tail, IdleText(between), ps == [], Read(opt, ps));
    ParseIdle(opt, between, "", false, Enter(opt.mode, Read(opt, ps), Decoded(opt, key.text)), true);
    assert IdleText(between) + "" == IdleText(between);
  }

  // ---------- quotes that are not closed ----------

  lemma {:induction false} GatherFails(line: string, more: string)
    requires OneMatch(line, more) && !Complete(MatchKeyValue(line + more))
    ensures Gather(line, Lines(more)) == Err(if MatchKeyValue(line + more).None? then OpenKey else OpenValue)
    decreases |more|
  {
    if more == "" {
      assert line + more == line;
    } else {
      var n := LineLength(more);
      assert Unfinished(line, more, 0) && line + more[..0] == line;
      NextLine(more, "");
      assert more + "" == more && more[n..] + "" == more[n..];
      LineLengthOf(more, "");
      LaterMatch(line, more, n);
      GatherFails(line + more[..n], more[n..]);
    }
  }

  lemma FailedStep(opt: Options, line: string, more: seq<string>, s: Stack<string>, e: SyntaxError)
    requires line != "" && line[0] != '/' && line[0] != '{' && line[0] != '}' && Gather(line, more) == Err(e)
    ensures ParseLine(opt, line, more, s, false) == Err(e)
  {
  }

  lemma FailingText(opt: Options, ps: seq<Piece>, indent: string, text: string)
    requires ArePieces(ps) && Spaces(indent) && Begins(text) && text[0] != '/' && text[0] != '{' && text[0] != '}'
    requires text[|text| - 1] == '\n'
    requires forall n :: 0 < n <= |text| && text[n - 1] == '\n' ==> CutOpen(text, n)
    ensures ParseText(opt, Text(ps) + (indent + text))
            == Err(if MatchKeyValue(text).None? then OpenKey else OpenValue)
  {
    var n := LineLength(text);
    var e := if MatchKeyValue(text).None? then OpenKey else OpenValue;
    AfterPieces(opt, ps, indent + text);
    FirstOf(indent, text, "");
    assert indent + text + "" == indent + text && text[n..] + "" == text[n..];
    LineLengthOf(text, "");
    MatchesFrom(text, n);
    assert text[..|text|] == text && CutOpen(text, |text|);
    GatherFails(text[..n], text[n..]);
    HeadAfter(indent, text[..n], ps == []);
    FailedStep(opt, text[..n], Lines(text[n..]), Read(opt, ps), e);
    NextTurn(opt, indent + text[..n], Lines(text[n..]), ps == [], Read(opt, ps), false);
  }

  /** The quote of the last key is not closed before the text ends. */
  lemma OpenKeyAtEnd(opt: Options, ps: seq<Piece>, indent: string, text: string)
    requires ArePieces(ps) && Spaces(indent) && Quotable(text) && text != "" && text[|text| - 1] == '\n'
    ensures ParseText(opt, Text(ps) + (indent + (['\"'] + text))) == Err(OpenKey)
  {
    var all := ['\"'] + text;
    forall n | 0 < n <= |all| && all[n - 1] == '\n'
      ensures CutOpen(all, n)
    {
      QuotableCut(text, n - 1);
      assert all[..n] == ['\"'] + text[..n - 1];
      KeyOpen(text[..n - 1]);
    }
    KeyOpen(text);
    FailingText(opt, ps, indent, all);
  }

  lemma OpenValueCuts(key: Token, blanks: string, text: string, all: string, n: nat)
    requires IsKey(key) && Blanks(blanks) && Quotable(text) && all == Written(key) + (blanks + (['\"'] + text))
    requires 0 < n <= |all| && all[n - 1] == '\n'
    ensures CutOpen(all, n)
  {
    var b := |Written(key)| + |blanks|;
    var m := n - 1 - b;
    if n <= |Written(key)| {
      CutInKey(key, blanks + (['\"'] + text), n);
    } else if m >= 0 {
      assert all[n - 1] == (['\"'] + text)[m];
      assert ['\"'] + text + "" == ['\"'] + text;
      CutInValue(key, blanks, text, "", all, m);
    }
  }

  lemma EndsAlike(a: string, b: string, c: string)
    requires c != ""
    ensures var all := a + (b + (['\"'] + c)); all != "" && all[|all| - 1] == c[|c| - 1]
  {
  }

  lemma OpenValueUnmatched(key: Token, blanks: string, text: string)
    requires IsKey(key) && Blanks(blanks) && Quotable(text)
    ensures var all := Written(key) + (blanks + (['\"'] + text));
            forall n :: 0 < n <= |all| && all[n - 1] == '\n' ==> CutOpen(all, n)
  {
    var all := Written(key) + (blanks + (['\"'] + text));
    forall n | 0 < n <= |all| && all[n - 1] == '\n'
      ensures CutOpen(all, n)
    {
      OpenValueCuts(key, blanks, text, all, n);
    }
  }

  /** The quote of the last value is not closed before the text ends. */
  lemma OpenValueAtEnd(opt: Options, ps: seq<Piece>, indent: string, key: Token, blanks: string, text: string)
    requires ArePieces(ps) && Spaces(indent) && IsKey(key) && Blanks(blanks)
    requires Quotable(text) && text != "" && text[|text| - 1] == '\n'
    ensures ParseText(opt, Text(ps) + (indent + (Written(key) + (blanks + (['\"'] + text))))) == Err(OpenValue)
  {
    OpenValueUnmatched(key, blanks, text);
    ValueOpen(key, blanks, text);
    EndsAlike(Written(key), blanks, text);
    FailingText(opt, ps, indent, Written(key) + (blanks + (['\"'] + text)));
  }

  /** A line that begins with none of the characters that a line can begin with. */
  predicate NoStart(c: char) {
    !Space(c) && c != '\n' && !KeyChar(c) && c != '\"' && c != '#' && c != '/' && c != '{' && c != '}'
    && c != '\U{FFFE}' && c != '\U{FEFF}'
  }

  lemma {:induction false} NeverMatches(line: string, more: seq<string>)
    requires line != "" && NoStart(line[0])
    ensures Gather(line, more) == Err(OpenKey)
    decreases |more|
  {
    assert KeyEnd(line, 0) == 0;
    if more != [] {
      assert (line + more[0])[0] == line[0];
      NeverMatches(line + more[0], more[1..]);
    }
  }

  /** Whatever follows on that line or on later ones. */
  lemma BadStart(opt: Options, ps: seq<Piece>, indent: string, text: string)
    requires ArePieces(ps) && Spaces(indent) && text != "" && NoStart(text[0]) && text[|text| - 1] == '\n'
    ensures ParseText(opt, Text(ps) + (indent + text)) == Err(OpenKey)
  {
    var n := LineLength(text);
    AfterPieces(opt, ps, indent + text);
    LineLengthOf(text, "");
    FirstOf(indent, text, "");
    assert indent + text + "" == indent + text && text[n..] + "" == text[n..] && text[..n][0] == text[0];
    HeadAfter(indent, text[..n], ps == []);
    NeverMatches(text[..n], Lines(text[n..]));
    FailedStep(opt, text[..n], Lines(text[n..]), Read(opt, ps), OpenKey);
    NextTurn(opt, indent + text[..n], Lines(text[n..]), ps == [], Read(opt, ps), false);
  }

  // ---------- the ends of the text ----------

  /** A byte order mark in front is ignored. */
  lemma BomIgnored(opt: Options, text: string, bom: char)
    requires bom == '\U{FEFF}' || bom == '\U{FFFE}'
    ensures ParseText(opt, [bom] + text) == ParseText(opt, text)
  {
    var s := Stack([], []);
    BomLines(text, bom);
    if text == "" {
      assert StripBom([bom]) == "" by {
        assert [bom][1..] == "";
      }
      assert [[bom]] == [[bom]] + [];
      NextTurn(opt, [bom], [], true, s, false);
    } else {
      var n := LineLength(text);
      assert ([bom] + text[..n])[1..] == text[..n];
      NextTurn(opt, [bom] + text[..n], Lines(text[n..]), true, s, false);
      NextTurn(opt, text[..n], Lines(text[n..]), true, s, false);
    }
  }

  lemma BomLines(text: string, bom: char)
    requires bom != '\n'
    ensures var n := LineLength(text);
            Lines([bom] + text) == if text == "" then [[bom]] else [[bom] + text[..n]] + Lines(text[n..])
  {
    var all, n := [bom] + text, LineLength(text);
    assert all[1..] == text;
    assert LineLength(all) == n + 1 && all[..n + 1] == [bom] + text[..n] && all[n + 1..] == text[n..];
    assert text == "" ==> Lines(text[n..]) == [] && all[..1] == [bom];
  }

  lemma OneLineLines(text: string)
    requires OneLine(text) && text != ""
    ensures Lines(text) == [text]
  {
    LineLengthIndented(text, "");
    assert text + "" == text && text[..|text|] == text && text[|text|..] == "";
  }

  lemma OnePairText(key: Token, blanks: string, value: Token)
    requires IsKey(key) && Blanks(blanks) && IsValue(value) && (key.Plain? && value.Plain? ==> blanks != "")
    requires OneLine(key.text) && OneLine(value.text)
    ensures var text := Written(key) + (blanks + Written(value));
            && MatchKeyValue(text) == Some(KeyValue(key.text, ValueOf(value))) && OneLine(text)
            && Begins(text) && text[0] != '/' && text[0] != '{' && text[0] != '}'
  {
    assert Written(value) + "" + "" == Written(value);
    PairMatched(key, blanks, value, "", "");
    BlanksOnOneLine(blanks, blanks);
  }

  lemma OneLineText(opt: Options, text: string, kv: KeyValue)
    requires MatchKeyValue(text) == Some(kv) && Complete(Some(kv)) && OneLine(text)
    requires Begins(text) && text[0] != '/' && text[0] != '{' && text[0] != '}'
    ensures var s := Apply(opt, Stack([], []), kv).0;
            ParseText(opt, text) == if s.outer == [] then Ok(s.top) else Err(Unclosed)
  {
    OneLineLines(text);
    HeadAfter("", text, true);
    assert "" + text == text && [text] + [] == [text];
    PairStep(opt, text, [], Stack([], []), kv, []);
    NextTurn(opt, text, [], true, Stack([], []), false);
  }

  lemma StoreFirst(mode: Mode, key: string, leaf: string)
    ensures StoreLeaf(mode, Stack([], []), key, leaf) == Stack([], [Entry(key, Leaf(leaf))])
  {
  }

  lemma ApplyFirst(opt: Options, key: string, value: Token)
    ensures Apply(opt, Stack([], []), KeyValue(key, ValueOf(value))).0
            == Stack([], [Entry(Decoded(opt, key), Leaf(Decoded(opt, value.text)))])
  {
    StoreFirst(opt.mode, Decoded(opt, key), Decoded(opt, value.text));
  }

  /** A pair that is all of the text, without a line end. */
  lemma OnePair(opt: Options, key: Token, blanks: string, value: Token)
    requires IsKey(key) && Blanks(blanks) && IsValue(value) && (key.Plain? && value.Plain? ==> blanks != "")
    requires OneLine(key.text) && OneLine(value.text)
    ensures ParseText(opt, Written(key) + (blanks + Written(value)))
            == Ok([Entry(Decoded(opt, key.text), Leaf(Decoded(opt, value.text)))])
  {
    OnePairText(key, blanks, value);
    ApplyFirst(opt, key.text, value);
    OneLineText(opt, Written(key) + (blanks + Written(value)), KeyValue(key.text, ValueOf(value)));
  }
}
