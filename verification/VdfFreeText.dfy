/**
 Text as people and other programs write it, line by line, and the theorem that the parser reads from any
 such text the document it stands for.
 */
module VdfFreeText {
  import opened Outcomes
  import opened VdfTree
  import opened VdfStack
  import opened VdfEscape
  import opened VdfText
  import opened VdfReading

  /** A line with nothing on it, or with a comment. */
  datatype Idle = Idle(indent: string, comment: string)

  /** How a section begins: with the bracket on the key's line, or on a later one. */
  datatype Opening =
    | Here(inside: string, tail: string)
    | Below(tail: string, between: seq<Idle>, indent: string, after: string)

  datatype Piece =
    | Skip(idle: Idle)
    | Pair(indent: string, key: Token, blanks: string, value: Token, pad: string, tail: string)
    | Empty(indent: string, key: Token, blanks: string, inside: string, tail: string)
    | Section(indent: string, key: Token, blanks: string, opening: Opening, body: seq<Piece>, closing: string,
              after: string)

  ghost predicate OneLine(text: string) {
    '\n' !in text
  }

  ghost predicate IsIdle(l: Idle) {
    Spaces(l.indent) && OneLine(l.comment) && (l.comment != "" ==> l.comment[0] == '/')
  }

  ghost predicate AreIdle(ls: seq<Idle>) {
    forall i :: 0 <= i < |ls| ==> IsIdle(ls[i])
  }

  /** What may follow a key that is alone on its line. */
  ghost predicate IsEnd(key: Token, blanks: string, tail: string) {
    EndsKey(tail + "\n") && OneLine(tail) && SetApart(key, blanks + (tail + "\n"))
  }

  ghost predicate IsOpening(key: Token, blanks: string, o: Opening) {
    match o
    case Here(inside, tail) =>
      Blanks(inside) && OneLine(tail) && (tail != "" ==> !Blank(tail[0]) && tail[0] != '}')
    case Below(tail, between, indent, after) =>
      IsEnd(key, blanks, tail) && AreIdle(between) && Spaces(indent) && OneLine(after)
  }

  ghost predicate IsPiece(p: Piece)
    decreases p, 0
  {
    match p
    case Skip(idle) => IsIdle(idle)
    case Pair(indent, key, blanks, value, pad, tail) =>
      && Spaces(indent) && IsKey(key) && Blanks(blanks) && IsValue(value)
      && (key.Plain? && value.Plain? ==> blanks != "")
      && EndsValue(value, pad, tail + "\n") && OneLine(pad) && OneLine(tail)
    case Empty(indent, key, blanks, inside, tail) =>
      Spaces(indent) && IsKey(key) && Blanks(blanks) && Blanks(inside) && OneLine(tail)
    case Section(indent, key, blanks, opening, body, closing, after) =>
      && Spaces(indent) && IsKey(key) && Blanks(blanks) && IsOpening(key, blanks, opening) && ArePieces(body)
      && Spaces(closing) && OneLine(after)
  }

  ghost predicate ArePieces(ps: seq<Piece>)
    decreases ps
  {
    ps != [] ==> IsPiece(ps[0]) && ArePieces(ps[1..])
  }

  // ---------- the text ----------

  function IdleText(ls: seq<Idle>): string {
    if ls == [] then "" else ls[0].indent + (ls[0].comment + "\n") + IdleText(ls[1..])
  }

  function PairText(key: Token, blanks: string, value: Token, pad: string, tail: string): string {
    Written(key) + (blanks + (Written(value) + pad + (tail + "\n")))
  }

  function EmptyText(key: Token, blanks: string, inside: string, tail: string): string {
    Written(key) + (blanks + (['{'] + (inside + ("}" + tail + "\n"))))
  }

  /** The key of a section and what comes before its body. */
  function OpeningText(key: Token, blanks: string, o: Opening): string {
    match o
    case Here(inside, tail) => Written(key) + (blanks + (['{'] + (inside + (tail + "\n"))))
    case Below(tail, between, indent, after) =>
      Written(key) + (blanks + (tail + "\n")) + (IdleText(between) + (indent + ("{" + after + "\n")))
  }

  function PieceText(p: Piece): string
    decreases p, 0
  {
    match p
    case Skip(idle) => idle.indent + (idle.comment + "\n")
    case Pair(indent, key, blanks, value, pad, tail) => indent + PairText(key, blanks, value, pad, tail)
    case Empty(indent, key, blanks, inside, tail) => indent + EmptyText(key, blanks, inside, tail)
    case Section(indent, key, blanks, opening, body, closing, after) =>
      indent + (OpeningText(key, blanks, opening) + (Text(body) + (closing + ("}" + after + "\n"))))
  }

  function Text(ps: seq<Piece>): string
    decreases ps
  {
    if ps == [] then "" else PieceText(ps[0]) + Text(ps[1..])
  }

  // ---------- the document ----------

  function Meaning(opt: Options, ps: seq<Piece>): Entries<string>
    decreases ps
  {
    if ps == [] then [] else PieceMeaning(opt, ps[0]) + Meaning(opt, ps[1..])
  }

  function PieceMeaning(opt: Options, p: Piece): Entries<string>
    decreases p, 0
  {
    match p
    case Skip(_) => []
    case Pair(_, key, _, value, _, _) => [Entry(Decoded(opt, key.text), Leaf(Decoded(opt, value.text)))]
    case Empty(_, key, _, _, _) => [Entry(Decoded(opt, key.text), Table([]))]
    case Section(_, key, _, _, body, _, _) => [Entry(Decoded(opt, key.text), Table(Meaning(opt, body)))]
  }

  // ---------- line by line ----------

  /** One turn of the parser's loop. */
  lemma NextTurn(opt: Options, line: string, more: seq<string>, first: bool, s: Stack<string>, bracket: bool)
    ensures var step := ParseLine(opt, Head(line, first), more, s, bracket);
            ParseLines(opt, [line] + more, first, s, bracket) ==
            if step.Err? then Err(step.error)
            else ParseLines(opt, step.value.rest, false, step.value.s, step.value.bracket)
  {
    assert ([line] + more)[1..] == more;
  }

  lemma {:induction false} StripIndent(indent: string, line: string)
    requires Spaces(indent) && (line != "" ==> !Space(line[0]) && line[0] != '\n')
    ensures StripLeft(indent + line) == line
    decreases |indent|
  {
    if indent == "" {
      assert indent + line == line;
    } else {
      assert Space(indent[0]);
      assert (indent + line)[1..] == indent[1..] + line;
      StripIndent(indent[1..], line);
    }
  }

  lemma HeadAfter(indent: string, line: string, first: bool)
    requires Spaces(indent) && (line == "" || Begins(line))
    ensures Head(indent + line, first) == line
  {
    StripIndent(indent, line);
    assert indent != "" ==> Space(indent[0]) && (indent + line)[0] == indent[0];
    assert indent == "" ==> indent + line == line;
  }

  lemma NoBreak(indent: string)
    requires Spaces(indent)
    ensures OneLine(indent)
  {
  }

  /** The first physical line of a text, indented, and the lines after it. */
  lemma FirstOf(indent: string, text: string, rest: string)
    requires Spaces(indent) && text != "" && text[|text| - 1] == '\n'
    ensures var n := LineLength(text);
            Lines(indent + text + rest) == [indent + text[..n]] + Lines(text[n..] + rest)
  {
    var n := LineLength(text);
    NoBreak(indent);
    LineLengthOf(text, rest);
    LineLengthIndented(indent, text);
    var all := indent + text;
    assert all[..|indent| + n] == indent + text[..n] && all[|indent| + n..] == text[n..];
    NextLine(all, rest);
  }

  lemma {:induction false} LineLengthIndented(indent: string, text: string)
    requires OneLine(indent)
    ensures LineLength(indent + text) == |indent| + LineLength(text)
    decreases |indent|
  {
    if indent == "" {
      assert indent + text == text;
    } else {
      assert (indent + text)[1..] == indent[1..] + text;
      LineLengthIndented(indent[1..], text);
    }
  }

  lemma LineIs(line: string)
    requires OneLine(line)
    ensures LineLength(line + "\n") == |line| + 1
  {
    LineLengthIndented(line, "\n");
    assert LineLength("\n") == 1;
  }

  /** Empty lines and comments change nothing, even between a key and its bracket. */
  lemma {:induction false} ParseIdle(opt: Options, ls: seq<Idle>, rest: string, first: bool, s: Stack<string>,
                                     bracket: bool)
    requires AreIdle(ls)
    ensures ParseLines(opt, Lines(IdleText(ls) + rest), first, s, bracket) ==
            ParseLines(opt, Lines(rest), first && ls == [], s, bracket)
    decreases |ls|
  {
    if ls == [] {
      assert IdleText(ls) + rest == rest;
    } else {
      var l, more := ls[0], IdleText(ls[1..]) + rest;
      assert IsIdle(l);
      assert IdleText(ls) + rest == l.indent + (l.comment + "\n") + more;
      ParseIdleLine(opt, l, more, first, s, bracket);
      ParseIdle(opt, ls[1..], rest, false, s, bracket);
    }
  }

  /** A text of one line. */
  lemma OnlyLine(indent: string, body: string, rest: string)
    requires Spaces(indent) && OneLine(body)
    ensures Lines(indent + (body + "\n") + rest) == [indent + (body + "\n")] + Lines(rest)
  {
    var text := body + "\n";
    FirstOf(indent, text, rest);
    LineIs(body);
    assert text[..|text|] == text && text[|text|..] + rest == rest;
  }

  lemma IdleHead(l: Idle, first: bool)
    requires IsIdle(l)
    ensures var h := Head(l.indent + (l.comment + "\n"), first); h == "" || h[0] == '/'
  {
    if l.comment == "" {
      assert l.comment + "\n" == "\n";
      BlankHead(l.indent, first);
    } else {
      HeadAfter(l.indent, l.comment + "\n", first);
    }
  }

  lemma ParseIdleLine(opt: Options, l: Idle, rest: string, first: bool, s: Stack<string>, bracket: bool)
    requires IsIdle(l)
    ensures ParseLines(opt, Lines(l.indent + (l.comment + "\n") + rest), first, s, bracket) ==
            ParseLines(opt, Lines(rest), false, s, bracket)
  {
    OnlyLine(l.indent, l.comment, rest);
    IdleHead(l, first);
    NextTurn(opt, l.indent + (l.comment + "\n"), Lines(rest), first, s, bracket);
  }

  lemma BlankHead(indent: string, first: bool)
    requires Spaces(indent)
    ensures Head(indent + "\n", first) == ""
  {
    StripBlank(indent);
    assert indent != "" ==> Space(indent[0]) && (indent + "\n")[0] == indent[0];
    assert indent == "" ==> indent + "\n" == "\n";
  }

  lemma {:induction false} StripBlank(indent: string)
    requires Spaces(indent)
    ensures StripLeft(indent + "\n") == ""
    decreases |indent|
  {
    if indent == "" {
      assert indent + "\n" == "\n" && "\n"[1..] == "";
    } else {
      assert Space(indent[0]);
      assert (indent + "\n")[1..] == indent[1..] + "\n";
      StripBlank(indent[1..]);
    }
  }

  /** A line that begins with a bracket, whatever else is on it. */
  lemma ParseBracket(opt: Options, indent: string, bracket: char, after: string, rest: string, first: bool,
                     s: Stack<string>, expecting: bool)
    requires Spaces(indent) && OneLine(after) && (bracket == '{' || bracket == '}')
    ensures var lines := Lines(indent + ([bracket] + after + "\n") + rest);
            ParseLines(opt, lines, first, s, expecting) ==
            if bracket == '{' then ParseLines(opt, Lines(rest), false, s, false)
            else if expecting then Err(ExpectedBracket)
            else if s.outer == [] then Err(ExtraClosing)
            else ParseLines(opt, Lines(rest), false, Leave(s), false)
  {
    var text := [bracket] + after + "\n";
    OnlyLine(indent, [bracket] + after, rest);
    HeadAfter(indent, text, first);
    NextTurn(opt, indent + text, Lines(rest), first, s, expecting);
  }

  /** No pair is complete in the first `n` characters. */
  ghost predicate CutOpen(text: string, n: nat)
    requires n <= |text|
  {
    !Complete(MatchKeyValue(text[..n]))
  }

  lemma PairStep(opt: Options, line: string, more: seq<string>, s: Stack<string>, kv: KeyValue, rest: seq<string>)
    requires line != "" && line[0] != '/' && line[0] != '{' && line[0] != '}'
    requires Gather(line, more) == Ok((kv, rest))
    ensures var (s', bracket) := Apply(opt, s, kv);
            ParseLine(opt, line, more, s, false) == Ok(Step(s', bracket, rest))
  {
  }

  lemma CutLater(text: string, n: nat, k: nat)
    requires n + k <= |text| && CutOpen(text, n + k)
    ensures Unfinished(text[..n], text[n..], k)
  {
    assert text[..n] + text[n..][..k] == text[..n + k];
  }

  /** The pattern is tried at the end of every line. */
  lemma MatchesFrom(text: string, n: nat)
    requires 0 < n <= |text| && text[|text| - 1] == '\n' && text[n - 1] == '\n'
    requires forall n :: 0 < n < |text| && text[n - 1] == '\n' ==> CutOpen(text, n)
    ensures OneMatch(text[..n], text[n..]) && text[..n] + text[n..] == text
  {
    var more := text[n..];
    forall k | 0 <= k < |more| && (k == 0 || more[k - 1] == '\n')
      ensures Unfinished(text[..n], more, k)
    {
      assert k > 0 ==> text[n + k - 1] == more[k - 1];
      CutLater(text, n, k);
    }
  }

  /** A pair or a key, over as many lines as its quotes take. */
  lemma ParseMatched(opt: Options, indent: string, text: string, kv: KeyValue, rest: string, first: bool,
                     s: Stack<string>)
    requires Spaces(indent) && Begins(text) && text[0] != '/' && text[0] != '{' && text[0] != '}'
    requires text[|text| - 1] == '\n' && MatchKeyValue(text) == Some(kv) && Complete(Some(kv))
    requires forall n :: 0 < n < |text| && text[n - 1] == '\n' ==> CutOpen(text, n)
    ensures ParseLines(opt, Lines(indent + text + rest), first, s, false) ==
            var (s', bracket) := Apply(opt, s, kv);
            ParseLines(opt, Lines(rest), false, s', bracket)
  {
    var n := LineLength(text);
    FirstOf(indent, text, rest);
    LineLengthOf(text, "");
    MatchesFrom(text, n);
    Gathers(text[..n], text[n..], rest, kv);
    HeadAfter(indent, text[..n], first);
    PairStep(opt, text[..n], Lines(text[n..] + rest), s, kv, Lines(rest));
    NextTurn(opt, indent + text[..n], Lines(text[n..] + rest), first, s, false);
  }

  // ---------- pieces ----------

  lemma PlainOnOneLine(key: Token, value: Token)
    requires IsKey(key) && IsValue(value)
    ensures (key.Plain? ==> OneLine(key.text)) && (value.Plain? ==> OneLine(value.text))
  {
    if key.Plain? {
      KeyText(key.text);
    }
    if value.Plain? {
      forall i | 0 <= i < |value.text|
        ensures value.text[i] != '\n'
      {
        assert InValue(value.text, i);
      }
    }
  }

  lemma CutInKey(key: Token, after: string, n: nat)
    requires IsKey(key) && 0 < n <= |Written(key)| && Written(key)[n - 1] == '\n'
    ensures CutOpen(Written(key) + after, n)
  {
    PlainOnOneLine(key, InQuotes(""));
    assert n > 1 && key.text[n - 2] == '\n';
    QuotableCut(key.text, n - 1);
    assert (Written(key) + after)[..n] == ['\"'] + key.text[..n - 1];
    KeyOpen(key.text[..n - 1]);
  }

  /** A key, and text on the line on which it ends: nothing matches before the end of that line. */
  lemma KeyCuts(key: Token, x: string, n: nat)
    requires IsKey(key) && OneLine(x)
    requires var text := Written(key) + (x + "\n"); 0 < n < |text| && text[n - 1] == '\n'
    ensures CutOpen(Written(key) + (x + "\n"), n)
  {
    var a := |Written(key)|;
    if n <= a {
      CutInKey(key, x + "\n", n);
    }
  }

  lemma CutInValue(key: Token, blanks: string, text: string, rest: string, all: string, m: nat)
    requires IsKey(key) && Blanks(blanks) && Quotable(text) && 0 < m <= |text| && text[m - 1] == '\n'
    requires all == Written(key) + (blanks + (['\"'] + text + rest))
    ensures CutOpen(all, |Written(key)| + |blanks| + 1 + m)
  {
    QuotableCut(text, m);
    assert all[..|Written(key)| + |blanks| + 1 + m] == Written(key) + (blanks + (['\"'] + text[..m]));
    ValueOpen(key, blanks, text[..m]);
  }

  lemma InQuotesIs(text: string, rest: string)
    ensures Written(InQuotes(text)) + rest == ['\"'] + text + (['\"'] + rest)
  {
  }

  /** A line break that is neither in the first part nor at the end can only be in the third. */
  lemma BreakIsThird(a: string, b: string, c: string, x: string, n: nat)
    requires OneLine(b) && OneLine(x) && |a| <= n < |a| + |b| + |c| + |x|
    requires (a + (b + (c + (x + "\n"))))[n] == '\n'
    ensures |a| + |b| <= n < |a| + |b| + |c| && c[n - |a| - |b|] == '\n'
  {
  }

  lemma BreakInValue(key: Token, value: Token, m: nat)
    requires IsKey(key) && IsValue(value) && m < |Written(value)| && Written(value)[m] == '\n'
    ensures value.InQuotes? && 0 < m <= |value.text| && value.text[m - 1] == '\n'
  {
    PlainOnOneLine(key, value);
  }

  lemma CutInPair(key: Token, blanks: string, value: Token, x: string, text: string, m: nat)
    requires IsKey(key) && Blanks(blanks) && IsValue(value)
    requires text == Written(key) + (blanks + (Written(value) + (x + "\n")))
    requires m < |Written(value)| && Written(value)[m] == '\n'
    ensures CutOpen(text, |Written(key)| + |blanks| + 1 + m)
  {
    BreakInValue(key, value, m);
    InQuotesIs(value.text, x + "\n");
    CutInValue(key, blanks, value.text, ['\"'] + (x + "\n"), text, m);
  }

  lemma KeyPart(a: string, rest: string, n: nat)
    requires n < |a|
    ensures (a + rest)[n] == a[n]
  {
  }

  lemma PairCutsLater(key: Token, blanks: string, value: Token, x: string, text: string, n: nat)
    requires IsKey(key) && Blanks(blanks) && IsValue(value) && OneLine(x)
    requires text == Written(key) + (blanks + (Written(value) + (x + "\n")))
    requires |Written(key)| < n < |text| && text[n - 1] == '\n'
    ensures CutOpen(text, n)
  {
    BlanksOnOneLine(blanks, blanks);
    BreakIsThird(Written(key), blanks, Written(value), x, n - 1);
    CutInPair(key, blanks, value, x, text, n - 1 - |Written(key)| - |blanks|);
  }

  lemma PairCuts(key: Token, blanks: string, value: Token, x: string, text: string, n: nat)
    requires IsKey(key) && Blanks(blanks) && IsValue(value) && OneLine(x)
    requires text == Written(key) + (blanks + (Written(value) + (x + "\n")))
    requires 0 < n < |text| && text[n - 1] == '\n'
    ensures CutOpen(text, n)
  {
    if n <= |Written(key)| {
      KeyPart(Written(key), blanks + (Written(value) + (x + "\n")), n - 1);
      CutInKey(key, blanks + (Written(value) + (x + "\n")), n);
    } else {
      PairCutsLater(key, blanks, value, x, text, n);
    }
  }

  lemma PairTextIs(key: Token, blanks: string, value: Token, pad: string, tail: string)
    ensures PairText(key, blanks, value, pad, tail)
            == Written(key) + (blanks + (Written(value) + ((pad + tail) + "\n")))
  {
    Assoc(Written(value), pad, tail + "\n");
    Assoc(pad, tail, "\n");
  }

  lemma PairUnmatched(key: Token, blanks: string, value: Token, pad: string, tail: string)
    requires IsKey(key) && Blanks(blanks) && IsValue(value) && OneLine(pad) && OneLine(tail)
    ensures var text := PairText(key, blanks, value, pad, tail);
            forall n :: 0 < n < |text| && text[n - 1] == '\n' ==> CutOpen(text, n)
  {
    var text := PairText(key, blanks, value, pad, tail);
    PairTextIs(key, blanks, value, pad, tail);
    forall n | 0 < n < |text| && text[n - 1] == '\n'
      ensures CutOpen(text, n)
    {
      PairCuts(key, blanks, value, pad + tail, text, n);
    }
  }

  lemma ParsePair(opt: Options, indent: string, key: Token, blanks: string, value: Token, pad: string, tail: string,
                  rest: string, first: bool, s: Stack<string>)
    requires IsPiece(Pair(indent, key, blanks, value, pad, tail))
    ensures ParseLines(opt, Lines(indent + PairText(key, blanks, value, pad, tail) + rest), first, s, false) ==
            ParseLines(opt, Lines(rest), false,
                       StoreLeaf(opt.mode, s, Decoded(opt, key.text), Decoded(opt, value.text)), false)
  {
    PairMatched(key, blanks, value, pad, tail + "\n");
    PairUnmatched(key, blanks, value, pad, tail);
    PairTextIs(key, blanks, value, pad, tail);
    var text := PairText(key, blanks, value, pad, tail);
    ParseMatched(opt, indent, text, KeyValue(key.text, ValueOf(value)), rest, first, s);
  }

  lemma ParseKey(opt: Options, indent: string, key: Token, x: string, value: Value, rest: string, first: bool,
                 s: Stack<string>)
    requires Spaces(indent) && IsKey(key) && SetApart(key, x + "\n") && OneLine(x)
    requires MatchValue(Written(key) + (x + "\n"), |Written(key)|) == value && (value.NoValue? || value.Block?)
    ensures ParseLines(opt, Lines(indent + (Written(key) + (x + "\n")) + rest), first, s, false) ==
            var (s', bracket) := Apply(opt, s, KeyValue(key.text, value));
            ParseLines(opt, Lines(rest), false, s', bracket)
  {
    var text := Written(key) + (x + "\n");
    KeyMatched(key, x + "\n");
    forall n | 0 < n < |text| && text[n - 1] == '\n'
      ensures CutOpen(text, n)
    {
      KeyCuts(key, x, n);
    }
    ParseMatched(opt, indent, text, KeyValue(key.text, value), rest, first, s);
  }

  /** What follows a key whose bracket is on its line. */
  function Bracketed(blanks: string, inside: string, tail: string): string {
    blanks + (['{'] + (inside + (tail + "\n")))
  }

  lemma BracketLine(key: Token, blanks: string, inside: string, tail: string)
    requires IsKey(key) && Blanks(blanks) && Blanks(inside) && OneLine(tail) && (tail != "" ==> !Blank(tail[0]))
    ensures var after := Bracketed(blanks, inside, tail);
            var x := blanks + ("{" + inside + tail);
            && after == x + "\n" && OneLine(x) && SetApart(key, after)
            && MatchValue(Written(key) + after, |Written(key)|) == Block(tail != "" && tail[0] == '}')
  {
    var more := ['{'] + (inside + (tail + "\n"));
    var after := blanks + more;
    assert after == blanks + ("{" + inside + tail) + "\n";
    FirstAfter(key, blanks, more);
    BlanksOnOneLine(blanks, inside);
    assert (tail + "\n")[0] == if tail != "" then tail[0] else '\n';
    assert (Written(key) + after)[|Written(key)|..] == after;
    BracketMatched(Written(key) + after, |Written(key)|, blanks, inside, tail + "\n");
  }

  lemma ParseBracketed(opt: Options, indent: string, key: Token, blanks: string, inside: string, tail: string,
                       rest: string, first: bool, s: Stack<string>)
    requires Spaces(indent) && IsKey(key) && Blanks(blanks) && Blanks(inside) && OneLine(tail)
    requires tail != "" ==> !Blank(tail[0])
    ensures var k := Decoded(opt, key.text);
            var s' := if tail != "" && tail[0] == '}' then EnterClosed(opt.mode, s, k) else Enter(opt.mode, s, k);
            ParseLines(opt, Lines(indent + (Written(key) + Bracketed(blanks, inside, tail)) + rest), first, s, false) ==
            ParseLines(opt, Lines(rest), false, s', false)
  {
    BracketLine(key, blanks, inside, tail);
    ParseKey(opt, indent, key, blanks + ("{" + inside + tail), Block(tail != "" && tail[0] == '}'), rest, first, s);
  }

  lemma ParseEmpty(opt: Options, indent: string, key: Token, blanks: string, inside: string, tail: string,
                   rest: string, first: bool, s: Stack<string>)
    requires IsPiece(Empty(indent, key, blanks, inside, tail))
    ensures ParseLines(opt, Lines(indent + EmptyText(key, blanks, inside, tail) + rest), first, s, false) ==
            ParseLines(opt, Lines(rest), false, EnterClosed(opt.mode, s, Decoded(opt, key.text)), false)
  {
    assert EmptyText(key, blanks, inside, tail) == Written(key) + Bracketed(blanks, inside, "}" + tail);
    ParseBracketed(opt, indent, key, blanks, inside, "}" + tail, rest, first, s);
  }

  lemma BlanksOnOneLine(blanks: string, inside: string)
    requires Blanks(blanks) && Blanks(inside)
    ensures OneLine(blanks) && OneLine(inside)
  {
  }

  lemma ParseOpening(opt: Options, indent: string, key: Token, blanks: string, o: Opening, rest: string, first: bool,
                     s: Stack<string>)
    requires Spaces(indent) && IsKey(key) && Blanks(blanks) && IsOpening(key, blanks, o)
    ensures ParseLines(opt, Lines(indent + OpeningText(key, blanks, o) + rest), first, s, false) ==
            ParseLines(opt, Lines(rest), false, Enter(opt.mode, s, Decoded(opt, key.text)), false)
  {
    match o {
      case Here(inside, tail) =>
        assert OpeningText(key, blanks, o) == Written(key) + Bracketed(blanks, inside, tail);
        ParseBracketed(opt, indent, key, blanks, inside, tail, rest, first, s);
      case Below(tail, between, indent', after) =>
        var bracket := indent' + (['{'] + after + "\n");
        var top := Written(key) + (blanks + (tail + "\n"));
        assert indent + OpeningText(key, blanks, o) + rest == indent + top + (IdleText(between) + (bracket + rest));
        ParseAlone(opt, indent, key, blanks, tail, IdleText(between) + (bracket + rest), first, s);
        var s' := Enter(opt.mode, s, Decoded(opt, key.text));
        ParseIdle(opt, between, bracket + rest, false, s', true);
        ParseBracket(opt, indent', '{', after, rest, false, s', true);
    }
  }

  /** A key alone on its line: a bracket must come next. */
  lemma ParseAlone(opt: Options, indent: string, key: Token, blanks: string, tail: string, rest: string, first: bool,
                   s: Stack<string>)
    requires Spaces(indent) && IsKey(key) && Blanks(blanks) && IsEnd(key, blanks, tail)
    ensures ParseLines(opt, Lines(indent + (Written(key) + (blanks + (tail + "\n"))) + rest), first, s, false) ==
            ParseLines(opt, Lines(rest), false, Enter(opt.mode, s, Decoded(opt, key.text)), true)
  {
    var x := blanks + tail;
    assert blanks + (tail + "\n") == x + "\n";
    KeyMatched(key, blanks + (tail + "\n"));
    NothingMatched(Written(key) + (x + "\n"), |Written(key)|, blanks, tail + "\n");
    BlanksOnOneLine(blanks, blanks);
    ParseKey(opt, indent, key, x, NoValue, rest, first, s);
  }

  // ---------- whole texts ----------

  lemma Grouped(a: string, b: string, c: string, d: string, rest: string)
    ensures a + (b + (c + d)) + rest == a + b + (c + (d + rest))
  {
  }

  lemma {:induction false} ParseSection(opt: Options, p: Piece, rest: string, first: bool, s: Stack<string>)
    requires p.Section? && IsPiece(p)
    ensures ParseLines(opt, Lines(PieceText(p) + rest), first, s, false) ==
            ParseLines(opt, Lines(rest), false, s.(top := MergePair(opt.mode, PieceMeaning(opt, p)[0], s.top)), false)
    decreases p, 0
  {
    var key, inner := Decoded(opt, p.key.text), Enter(opt.mode, s, Decoded(opt, p.key.text));
    var bracket := p.closing + (['}'] + p.after + "\n");
    Grouped(p.indent, OpeningText(p.key, p.blanks, p.opening), Text(p.body), bracket, rest);
    ParseOpening(opt, p.indent, p.key, p.blanks, p.opening, Text(p.body) + (bracket + rest), first, s);
    ParsePieces(opt, p.body, bracket + rest, false, inner);
    var filled := inner.(top := MergeInto(opt.mode, Meaning(opt, p.body), inner.top));
    ParseBracket(opt, p.closing, '}', p.after, rest, false, filled, false);
    EnterFillLeave(opt.mode, s, key, filled.top);
  }

  lemma {:induction false} ParsePiece(opt: Options, p: Piece, rest: string, first: bool, s: Stack<string>)
    requires IsPiece(p)
    ensures ParseLines(opt, Lines(PieceText(p) + rest), first, s, false) ==
            ParseLines(opt, Lines(rest), false, s.(top := MergeInto(opt.mode, PieceMeaning(opt, p), s.top)), false)
    decreases p, 1
  {
    match p {
      case Skip(idle) =>
        ParseIdleLine(opt, idle, rest, first, s, false);
      case Pair(indent, key, blanks, value, pad, tail) =>
        ParsePair(opt, indent, key, blanks, value, pad, tail, rest, first, s);
        MergeOne(opt.mode, PieceMeaning(opt, p)[0], s.top);
      case Empty(indent, key, blanks, inside, tail) =>
        ParseEmpty(opt, indent, key, blanks, inside, tail, rest, first, s);
        MergeOne(opt.mode, PieceMeaning(opt, p)[0], s.top);
        var (es, i) := VdfTree.Open(opt.mode, s.top, Decoded(opt, key.text));
        assert es[i := Entry(Decoded(opt, key.text), Table(es[i].value.entries))] == es;
      case Section(_, _, _, _, _, _, _) =>
        ParseSection(opt, p, rest, first, s);
        MergeOne(opt.mode, PieceMeaning(opt, p)[0], s.top);
    }
  }

  lemma MergeOne(mode: Mode, e: Entry<string>, base: Entries<string>)
    ensures MergeInto(mode, [e], base) == MergePair(mode, e, base)
  {
    assert [e][1..] == [];
  }

  lemma {:induction false} MergeConcat(mode: Mode, a: Entries<string>, b: Entries<string>, base: Entries<string>)
    ensures MergeInto(mode, a + b, base) == MergeInto(mode, b, MergeInto(mode, a, base))
    decreases |a|
  {
    if a == [] {
      assert a + b == b;
    } else {
      assert (a + b)[1..] == a[1..] + b;
      MergeConcat(mode, a[1..], b, MergePair(mode, a[0], base));
    }
  }

  lemma {:induction false} ParsePieces(opt: Options, ps: seq<Piece>, rest: string, first: bool, s: Stack<string>)
    requires ArePieces(ps)
    ensures ParseLines(opt, Lines(Text(ps) + rest), first, s, false) ==
            ParseLines(opt, Lines(rest), first && ps == [],
                       s.(top := MergeInto(opt.mode, Meaning(opt, ps), s.top)), false)
    decreases ps, 0
  {
    if ps == [] {
      assert Text(ps) + rest == rest;
    } else {
      var more := Text(ps[1..]) + rest;
      assert Text(ps) + rest == PieceText(ps[0]) + more;
      ParsePiece(opt, ps[0], more, first, s);
      var s' := s.(top := MergeInto(opt.mode, PieceMeaning(opt, ps[0]), s.top));
      ParsePieces(opt, ps[1..], rest, false, s');
      MergeConcat(opt.mode, PieceMeaning(opt, ps[0]), Meaning(opt, ps[1..]), s.top);
    }
  }

  /**
   Any text of pairs, sections, comments and empty lines reads as the document it stands for, with duplicate
   keys merged from left to right.
   */
  lemma ParseFreeText(opt: Options, ps: seq<Piece>)
    requires ArePieces(ps)
    ensures ParseText(opt, Text(ps)) == Ok(MergeInto(opt.mode, Meaning(opt, ps), []))
  {
    ParsePieces(opt, ps, "", true, Stack([], []));
    assert Text(ps) + "" == Text(ps);
  }

  // ---------- what the printer writes ----------

  function PrintedPair(tabs: string, key: string, text: string): Piece {
    Pair(tabs, InQuotes(Escape(key)), " ", InQuotes(Escape(text)), "", "")
  }

  function PrintedSection(tabs: string, key: string, body: seq<Piece>): Piece {
    Section(tabs, InQuotes(Escape(key)), "", Below("", [], tabs, ""), body, tabs, "")
  }

  function Tabs(pretty: bool, level: nat): string {
    if !pretty || level == 0 then "" else "\t" + Tabs(pretty, level - 1)
  }

  lemma {:induction false} TabsAre(pretty: bool, level: nat)
    ensures Indent(pretty, level) == Tabs(pretty, level) && Spaces(Tabs(pretty, level))
  {
    if pretty && level > 0 {
      TabsAre(pretty, level - 1);
      assert Indent(pretty, level) == "\t" + Indent(pretty, level - 1);
    }
  }

  /** A printed document as pieces: quoted and escaped, one space, brackets on lines of their own, tabs in front. */
  function Printed(es: Entries<string>, pretty: bool, level: nat): seq<Piece>
    decreases es
  {
    if es == [] then []
    else
      var tabs := Tabs(pretty, level);
      var piece := match es[0].value
        case Leaf(text) => PrintedPair(tabs, es[0].key, text)
        case Table(sub) => PrintedSection(tabs, es[0].key, Printed(sub, pretty, level + 1));
      [piece] + Printed(es[1..], pretty, level)
  }

  lemma LeafIsText(key: string, text: string, pretty: bool, level: nat)
    ensures PrintEntry(Entry(key, Leaf(text)), pretty, level) == PieceText(PrintedPair(Tabs(pretty, level), key, text))
    ensures IsPiece(PrintedPair(Tabs(pretty, level), key, text))
  {
    TabsAre(pretty, level);
    PrintedLeaf(Tabs(pretty, level), key, text);
  }

  lemma TableIsText(key: string, sub: Entries<string>, body: seq<Piece>, pretty: bool, level: nat)
    requires Print(sub, pretty, level + 1) == Text(body) && ArePieces(body)
    ensures PrintEntry(Entry(key, Table(sub)), pretty, level)
            == PieceText(PrintedSection(Tabs(pretty, level), key, body))
    ensures IsPiece(PrintedSection(Tabs(pretty, level), key, body))
  {
    TabsAre(pretty, level);
    PrintedTable(Tabs(pretty, level), key, Text(body), body);
  }

  lemma FirstPrinted(p: Piece, rest: seq<Piece>)
    requires IsPiece(p) && ArePieces(rest)
    ensures ArePieces([p] + rest) && Text([p] + rest) == PieceText(p) + Text(rest)
  {
    assert ([p] + rest)[1..] == rest;
  }

  lemma {:induction false} PrintIsText(es: Entries<string>, pretty: bool, level: nat)
    ensures Print(es, pretty, level) == Text(Printed(es, pretty, level)) && ArePieces(Printed(es, pretty, level))
    decreases es
  {
    if es != [] {
      var rest := Printed(es[1..], pretty, level);
      PrintIsText(es[1..], pretty, level);
      match es[0].value {
        case Leaf(text) =>
          LeafIsText(es[0].key, text, pretty, level);
          FirstPrinted(PrintedPair(Tabs(pretty, level), es[0].key, text), rest);
        case Table(sub) =>
          var body := Printed(sub, pretty, level + 1);
          PrintIsText(sub, pretty, level + 1);
          TableIsText(es[0].key, sub, body, pretty, level);
          FirstPrinted(PrintedSection(Tabs(pretty, level), es[0].key, body), rest);
      }
    }
  }

  lemma PrintedTable(indent: string, key: string, text: string, body: seq<Piece>)
    requires Spaces(indent) && text == Text(body) && ArePieces(body)
    ensures var p := PrintedSection(indent, key, body);
            && PieceText(p) == indent + KeyLine(key) + "\n" + (indent + "{" + "\n" + (text + (indent + "}" + "\n")))
            && IsPiece(p)
  {
    EscapedIsQuotable(key);
    SectionText(indent, Escape(key), text);
    assert SetApart(InQuotes(Escape(key)), "" + ("" + "\n"));
  }

  lemma PrintedLeaf(indent: string, key: string, text: string)
    requires Spaces(indent)
    ensures var p := PrintedPair(indent, key, text);
            indent + LeafLine(key, text) + "\n" == PieceText(p) && IsPiece(p)
  {
    EscapedIsQuotable(key);
    EscapedIsQuotable(text);
    PairTextOf(Escape(key), Escape(text));
    Assoc(indent, LeafLine(key, text), "\n");
  }

  lemma Assoc(x: string, y: string, z: string)
    ensures x + y + z == x + (y + z)
  {
  }

  lemma NoText(x: string)
    ensures x + "" == x && "" + x == x
  {
  }

  lemma PairTextOf(k: string, v: string)
    ensures PairText(InQuotes(k), " ", InQuotes(v), "", "") == "\"" + k + "\" \"" + v + "\"" + "\n"
  {
    var q, n, a := "\"", "\n", "\"" + k;
    NoText(n);
    NoText(q + v + q);
    Assoc(q + v, q, n);
    Assoc(q, v, q + n);
    Assoc(a, q, " " + (q + (v + (q + n))));
    Assoc(a + "\" \"" + v, q, n);
    Assoc(a + "\" \"", v, q + n);
    Assoc(a, "\" \"", v + (q + n));
    assert "\" \"" == q + " " + q;
    Assoc(q + " ", q, v + (q + n));
    Assoc(q, " ", q + (v + (q + n)));
  }

  lemma SectionText(indent: string, k: string, sub: string)
    ensures indent + (OpeningText(InQuotes(k), "", Below("", [], indent, "")) + (sub + (indent + ("}" + "" + "\n"))))
            == indent + ("\"" + k + "\"") + "\n" + (indent + "{" + "\n" + (sub + (indent + "}" + "\n")))
  {
    var line, n := "\"" + k + "\"", "\n";
    var closing := sub + (indent + "}" + n);
    NoText(n);
    NoText("{");
    NoText("}");
    NoText(indent + ("{" + n));
    Assoc(indent, "}", n);
    Assoc(indent, "{", n);
    Assoc(line + n, indent + "{" + n, closing);
    Assoc(indent, line + n, indent + "{" + n + closing);
    Assoc(indent, line, n);
  }
}
