/**
 The text form of VDF: the printer, the line-based parser's specification, and the theorem
 that parsing undoes printing.
 */
module VdfText {
  import opened Outcomes
  import opened VdfMerge
  import opened VdfTree
  import opened VdfStack
  import opened VdfLoadable
  import opened VdfEscape

  // ---------- printer ----------

  function Indent(pretty: bool, level: nat): string {
    if pretty then seq(level, _ => '\t') else ""
  }

  function LeafLine(key: string, text: string): string {
    "\"" + Escape(key) + "\" \"" + Escape(text) + "\""
  }

  function KeyLine(key: string): string {
    "\"" + Escape(key) + "\""
  }

  function PrintEntry(e: Entry<string>, pretty: bool, level: nat): string
    decreases e, 0
  {
    var indent := Indent(pretty, level);
    match e.value
    case Table(sub) =>
      indent + KeyLine(e.key) + "\n" +
      (indent + "{" + "\n" + (Print(sub, pretty, level + 1) + (indent + "}" + "\n")))
    case Leaf(text) =>
      indent + LeafLine(e.key, text) + "\n"
  }

  /** `dumps(obj, pretty)` at nesting depth `level`, with escaping on. */
  function Print(es: Entries<string>, pretty: bool, level: nat): string
    decreases es
  {
    if es == [] then "" else PrintEntry(es[0], pretty, level) + Print(es[1..], pretty, level)
  }

  // ---------- lines ----------

  /** Length of the first line, its line feed included. */
  function LineLength(text: string): (n: nat)
    ensures n <= |text|
    ensures text != "" ==> n > 0
  {
    if text == "" then 0 else if text[0] == '\n' then 1 else 1 + LineLength(text[1..])
  }

  /** The lines a text file yields, line feeds kept. */
  function Lines(text: string): seq<string> {
    if text == "" then []
    else
      var n := LineLength(text);
      [text[..n]] + Lines(text[n..])
  }

  predicate IsSpace(c: char) {
    || '\t' <= c <= '\r' || '\U{1C}' <= c <= ' ' || c == '\U{85}' || c == '\U{A0}' || c == '\U{1680}'
    || '\U{2000}' <= c <= '\U{200A}' || c == '\U{2028}' || c == '\U{2029}' || c == '\U{202F}'
    || c == '\U{205F}' || c == '\U{3000}'
  }

  function StripLeft(line: string): string {
    if line != "" && IsSpace(line[0]) then StripLeft(line[1..]) else line
  }

  function StripBom(line: string): string {
    if line != "" && (line[0] == '\U{FFFE}' || line[0] == '\U{FEFF}') then StripBom(line[1..]) else line
  }

  // ---------- the key-value pattern ----------

  /** What follows the key on its line. A quoted value whose closing quote is missing is not closed. */
  datatype Value = NoValue | Quoted(text: string, closed: bool) | Bare(text: string) | Block(closed: bool)
  datatype KeyValue = KeyValue(key: string, value: Value)

  /** The letters a-z match in either case, with the four non-ASCII letters that fold to them. */
  predicate IsLetter(c: char) {
    || 'a' <= c <= 'z' || 'A' <= c <= 'Z' || c == '\U{130}' || c == '\U{131}' || c == '\U{17F}' || c == '\U{212A}'
  }

  predicate IsKeyChar(c: char) {
    IsLetter(c) || '0' <= c <= '9' || c == '-' || c == '_' || c == '\\' || c == '?' || c == '$' || c == '%'
    || c == '<' || c == '>'
  }

  predicate IsBareChar(c: char) {
    IsLetter(c) || '0' <= c <= '9' || c == '-' || c == '_' || c == '\\' || c == '?' || c == '*' || c == '.'
    || c == '$' || c == '<' || c == '>' || c == ' '
  }

  /** End of the longest run of escape pairs and plain characters from `i`: it stops at a quote. */
  function QuotedEnd(line: string, i: nat): (j: nat)
    requires i <= |line|
    ensures i <= j <= |line|
    decreases |line| - i
  {
    if i == |line| || line[i] == '\"' then i
    else if line[i] != '\\' then QuotedEnd(line, i + 1)
    else if i + 1 < |line| && line[i + 1] != '\n' then QuotedEnd(line, i + 2)
    else i
  }

  function KeyEnd(line: string, i: nat): (j: nat)
    requires i <= |line|
    ensures i <= j <= |line|
    decreases |line| - i
  {
    if i < |line| && IsKeyChar(line[i]) then KeyEnd(line, i + 1) else i
  }

  function BlanksEnd(line: string, i: nat): (j: nat)
    requires i <= |line|
    ensures i <= j <= |line|
    decreases |line| - i
  {
    if i < |line| && (line[i] == ' ' || line[i] == '\t') then BlanksEnd(line, i + 1) else i
  }

  /** A bare value takes a slash only when it stands alone, so a comment ends the value. */
  function BareEnd(line: string, i: nat): (j: nat)
    requires i <= |line|
    ensures i <= j <= |line|
    decreases |line| - i
  {
    if i == |line| then i
    else if IsBareChar(line[i]) then BareEnd(line, i + 1)
    else if line[i] == '/' && !(i > 0 && line[i - 1] == '/') && !(i + 1 < |line| && line[i + 1] == '/') then
      BareEnd(line, i + 1)
    else i
  }

  function TrimRight(text: string): string {
    if text != "" && text[|text| - 1] == ' ' then TrimRight(text[..|text| - 1]) else text
  }

  /**
   The optional value part of the pattern. Where the pattern could only match by giving back
   blanks, its bare value is all blanks, which the parser treats as no value.
   */
  function MatchValue(line: string, i: nat): Value
    requires i <= |line|
  {
    var j := BlanksEnd(line, i);
    if j == |line| then NoValue
    else if line[j] == '\"' then
      var e := QuotedEnd(line, j + 1);
      Quoted(line[j + 1..e], e < |line| && line[e] == '\"')
    else if line[j] == '{' then
      var e := BlanksEnd(line, j + 1);
      Block(e < |line| && line[e] == '}')
    else
      var e := BareEnd(line, j);
      if e == j then NoValue else Bare(TrimRight(line[j..e]))
  }

  function MatchKeyValue(line: string): Option<KeyValue> {
    if line != "" && line[0] == '\"' then
      var e := QuotedEnd(line, 1);
      if e < |line| && line[e] == '\"' then Some(KeyValue(line[1..e], MatchValue(line, e + 1))) else None
    else
      var b := if line != "" && line[0] == '#' then 1 else 0;
      var e := KeyEnd(line, b);
      if e > b then Some(KeyValue(line[..e], MatchValue(line, e))) else None
  }

  // ---------- parser ----------

  datatype SyntaxError = ExpectedBracket | ExtraClosing | OpenKey | OpenValue | Unclosed

  predicate Complete(m: Option<KeyValue>) {
    m.Some? && !(m.value.value.Quoted? && !m.value.value.closed)
  }

  /** Appends lines until the pattern matches a whole pair; returns the pair and the lines left. */
  function Gather(line: string, more: seq<string>): (r: Result<(KeyValue, seq<string>), SyntaxError>)
    ensures r.Ok? ==> |r.value.1| <= |more|
    decreases |more|
  {
    var m := MatchKeyValue(line);
    if Complete(m) then Ok((m.value, more))
    else if more == [] then Err(if m.None? then OpenKey else OpenValue)
    else Gather(line + more[0], more[1..])
  }

  datatype Options = Options(mode: Mode, escaped: bool)

  function Decoded(opt: Options, text: string): string {
    if opt.escaped then Unescape(text) else text
  }

  /** The effect of one complete pair on the stack, and whether a bracket must follow. */
  function Apply(opt: Options, s: Stack<string>, kv: KeyValue): (Stack<string>, bool) {
    var key := Decoded(opt, kv.key);
    match kv.value
    case Quoted(text, _) => (StoreLeaf(opt.mode, s, key, Decoded(opt, text)), false)
    case Bare(text) => (StoreLeaf(opt.mode, s, key, Decoded(opt, text)), false)
    case Block(closed) => (if closed then EnterClosed(opt.mode, s, key) else Enter(opt.mode, s, key), false)
    case NoValue => (Enter(opt.mode, s, key), true)
  }

  function Head(line: string, first: bool): string {
    StripLeft(if first then StripBom(line) else line)
  }

  datatype Step = Step(s: Stack<string>, bracket: bool, rest: seq<string>)

  /** One turn of the parser's loop; `bracket` holds after a key alone on its line. */
  function ParseLine(opt: Options, line: string, more: seq<string>, s: Stack<string>, bracket: bool)
    : (r: Result<Step, SyntaxError>)
    ensures r.Ok? ==> |r.value.rest| <= |more|
  {
    if line == "" || line[0] == '/' then Ok(Step(s, bracket, more))
    else if line[0] == '{' then Ok(Step(s, false, more))
    else if bracket then Err(ExpectedBracket)
    else if line[0] == '}' then
      if s.outer == [] then Err(ExtraClosing) else Ok(Step(Leave(s), false, more))
    else
      var (kv, rest) :- Gather(line, more);
      var (s', bracket') := Apply(opt, s, kv);
      Ok(Step(s', bracket', rest))
  }

  /** The parse of the remaining lines; `first` holds before line 1. */
  function ParseLines(opt: Options, lines: seq<string>, first: bool, s: Stack<string>, bracket: bool)
    : Result<Entries<string>, SyntaxError>
    decreases |lines|
  {
    if lines == [] then
      if s.outer == [] then Ok(s.top) else Err(Unclosed)
    else
      var step :- ParseLine(opt, Head(lines[0], first), lines[1..], s, bracket);
      ParseLines(opt, step.rest, false, step.s, step.bracket)
  }

  /** `loads(text, mapper, merge_duplicate_keys, escaped)`. */
  function ParseText(opt: Options, text: string): Result<Entries<string>, SyntaxError> {
    ParseLines(opt, Lines(text), true, Stack([], []), false)
  }

  // ---------- parsing undoes printing ----------

  lemma {:induction false} LineOf(a: string, b: string)
    requires '\n' !in a
    ensures LineLength(a + "\n" + b) == |a| + 1
  {
    if a == "" {
      assert (a + "\n" + b)[0] == '\n';
    } else {
      assert (a + "\n" + b)[1..] == a[1..] + "\n" + b;
      LineOf(a[1..], b);
    }
  }

  lemma FirstLine(a: string, b: string)
    requires '\n' !in a
    ensures Lines(a + "\n" + b) == [a + "\n"] + Lines(b)
  {
    LineOf(a, b);
    var t := a + "\n" + b;
    assert t[..|a| + 1] == a + "\n";
    assert t[|a| + 1..] == b;
  }

  /** Blanks of indentation in front of a line are stripped, first line or not. */
  lemma {:induction false} HeadOfIndented(pretty: bool, level: nat, line: string, first: bool)
    requires line != "" && !IsSpace(line[0]) && line[0] != '\U{FFFE}' && line[0] != '\U{FEFF}'
    ensures Head(Indent(pretty, level) + line, first) == line
  {
    var full := Indent(pretty, level) + line;
    if pretty && level > 0 {
      assert full[1..] == Indent(pretty, level - 1) + line;
      HeadOfIndented(pretty, level - 1, line, false);
    } else {
      assert full == line;
    }
  }

  /** Text made of whole escape pairs and plain characters: all of it fits between two quotes. */
  predicate Quotable(e: string) {
    if e == "" then true
    else if e[0] == '\\' then |e| > 1 && e[1] != '\n' && Quotable(e[2..])
    else e[0] != '\"' && Quotable(e[1..])
  }

  lemma {:induction false} EscapedIsQuotable(text: string)
    ensures Quotable(Escape(text))
  {
    if text == "" {
    } else {
      EscapedIsQuotable(text[1..]);
      var c, rest := EscapeChar(text[0]), Escape(text[1..]);
      assert (c + rest)[|c|..] == rest;
    }
  }

  lemma {:induction false} QuotedEndOfQuotable(line: string, i: nat, e: string)
    requires Quotable(e)
    requires i + |e| < |line| && line[i..i + |e|] == e && line[i + |e|] == '\"'
    ensures QuotedEnd(line, i) == i + |e|
    decreases |e|
  {
    if e == "" {
    } else {
      var n := if e[0] == '\\' then 2 else 1;
      assert line[i] == e[0];
      assert n == 2 ==> line[i + 1] == e[1];
      assert line[i + n..i + |e|] == e[n..];
      QuotedEndOfQuotable(line, i + n, e[n..]);
    }
  }

  /** The pattern's quoted part, wherever it stands, takes exactly the quoted text. */
  lemma QuotedPart(line: string, i: nat, e: string, b: string)
    requires Quotable(e) && i < |line|
    requires line[i..] == ['\"'] + e + ['\"'] + b
    ensures var end := i + 1 + |e|;
            end < |line| && line[i] == '\"' && line[end] == '\"' && line[end + 1..] == b
            && line[i + 1..end] == e && QuotedEnd(line, i + 1) == end
  {
    var t := line[i..];
    assert t[0] == line[i] && t[|e| + 1] == line[i + 1 + |e|];
    assert t[1..|e| + 1] == e && t[1..|e| + 1] == line[i + 1..i + 1 + |e|];
    assert t[|e| + 2..] == b && t[|e| + 2..] == line[i + 2 + |e|..];
    QuotedEndOfQuotable(line, i + 1, e);
  }

  lemma MatchQuotedKey(line: string, key: string, b: string)
    requires Quotable(key) && line == ['\"'] + key + ['\"'] + b
    ensures line[|key| + 2..] == b
    ensures MatchKeyValue(line) == Some(KeyValue(key, MatchValue(line, |key| + 2)))
  {
    assert line[0..] == line;
    QuotedPart(line, 0, key, b);
  }

  lemma MatchQuotedValue(line: string, i: nat, text: string)
    requires Quotable(text) && i <= |line| && line[i..] == [' ', '\"'] + text + ['\"', '\n']
    ensures MatchValue(line, i) == Quoted(text, true)
  {
    var t := line[i..];
    assert t[0] == line[i] && t[1] == line[i + 1];
    assert line[i + 1..] == t[1..] == ['\"'] + text + ['\"'] + ['\n'];
    QuotedPart(line, i + 1, text, ['\n']);
    assert BlanksEnd(line, i + 1) == i + 1;
  }

  lemma MatchLineEnd(line: string, i: nat)
    requires i < |line| && line[i] == '\n'
    ensures MatchValue(line, i) == NoValue
  {
    assert BlanksEnd(line, i) == i;
    assert BareEnd(line, i) == i;
  }

  lemma MatchLeafLine(key: string, text: string)
    ensures MatchKeyValue(LeafLine(key, text) + "\n") == Some(KeyValue(Escape(key), Quoted(Escape(text), true)))
  {
    EscapedIsQuotable(key);
    EscapedIsQuotable(text);
    var line, k, v := LeafLine(key, text) + "\n", Escape(key), Escape(text);
    var b := [' ', '\"'] + v + ['\"', '\n'];
    assert line == ['\"'] + k + ['\"'] + b;
    MatchQuotedKey(line, k, b);
    MatchQuotedValue(line, |k| + 2, v);
  }

  lemma MatchKeyLine(key: string)
    ensures MatchKeyValue(KeyLine(key) + "\n") == Some(KeyValue(Escape(key), NoValue))
  {
    EscapedIsQuotable(key);
    var line, k := KeyLine(key) + "\n", Escape(key);
    assert line == ['\"'] + k + ['\"'] + ['\n'];
    MatchQuotedKey(line, k, ['\n']);
    assert line[|k| + 2..][0] == line[|k| + 2];
    MatchLineEnd(line, |k| + 2);
  }

  lemma IndentOnLine(pretty: bool, level: nat)
    ensures '\n' !in Indent(pretty, level)
  {
  }

  /** The lines of one printed line followed by more text. */
  lemma StepLines(pretty: bool, level: nat, body: string, rest: string, first: bool)
    requires '\n' !in body && body != "" && body[0] in "\"{}"
    ensures var lines := Lines(Indent(pretty, level) + body + "\n" + rest);
            lines != [] && Head(lines[0], first) == body + "\n" && lines[1..] == Lines(rest)
  {
    IndentOnLine(pretty, level);
    var indent := Indent(pretty, level);
    FirstLine(indent + body, rest);
    assert indent + body + "\n" == indent + (body + "\n");
    assert (body + "\n")[0] == body[0];
    HeadOfIndented(pretty, level, body + "\n", first);
  }

  /** One step of the parser over a printed line whose text after the indentation is `body`. */
  lemma StepPair(opt: Options, pretty: bool, level: nat, body: string, kv: KeyValue, rest: string, first: bool,
                 s: Stack<string>)
    requires '\n' !in body && body != "" && body[0] == '\"'
    requires MatchKeyValue(body + "\n") == Some(kv) && Complete(Some(kv))
    ensures ParseLines(opt, Lines(Indent(pretty, level) + body + "\n" + rest), first, s, false) ==
            (var (s', b) := Apply(opt, s, kv); ParseLines(opt, Lines(rest), false, s', b))
  {
    StepLines(pretty, level, body, rest, first);
    assert (body + "\n")[0] == '\"';
  }

  lemma StepOpening(opt: Options, pretty: bool, level: nat, rest: string, s: Stack<string>, bracket: bool)
    ensures ParseLines(opt, Lines(Indent(pretty, level) + "{" + "\n" + rest), false, s, bracket) ==
            ParseLines(opt, Lines(rest), false, s, false)
  {
    StepLines(pretty, level, "{", rest, false);
  }

  lemma StepClosing(opt: Options, pretty: bool, level: nat, rest: string, s: Stack<string>)
    requires s.outer != []
    ensures ParseLines(opt, Lines(Indent(pretty, level) + "}" + "\n" + rest), false, s, false) ==
            ParseLines(opt, Lines(rest), false, Leave(s), false)
  {
    StepLines(pretty, level, "}", rest, false);
  }

  lemma ParsePrintedLeaf(opt: Options, key: string, text: string, pretty: bool, level: nat, rest: string, first: bool,
                         s: Stack<string>)
    requires opt.escaped
    ensures ParseLines(opt, Lines(PrintEntry(Entry(key, Leaf(text)), pretty, level) + rest), first, s, false) ==
            ParseLines(opt, Lines(rest), false, StoreLeaf(opt.mode, s, key, text), false)
  {
    EscapeStaysOnLine(key);
    EscapeStaysOnLine(text);
    MatchLeafLine(key, text);
    UnescapeEscape(key);
    UnescapeEscape(text);
    var kv := KeyValue(Escape(key), Quoted(Escape(text), true));
    StepPair(opt, pretty, level, LeafLine(key, text), kv, rest, first, s);
  }

  lemma ParsePrintedOpening(opt: Options, key: string, pretty: bool, level: nat, rest: string, first: bool,
                            s: Stack<string>)
    requires opt.escaped
    ensures var indent := Indent(pretty, level);
            ParseLines(opt, Lines(indent + KeyLine(key) + "\n" + (indent + "{" + "\n" + rest)), first, s, false) ==
            ParseLines(opt, Lines(rest), false, Enter(opt.mode, s, key), false)
  {
    EscapeStaysOnLine(key);
    MatchKeyLine(key);
    UnescapeEscape(key);
    var indent := Indent(pretty, level);
    StepPair(opt, pretty, level, KeyLine(key), KeyValue(Escape(key), NoValue), indent + "{" + "\n" + rest, first, s);
    StepOpening(opt, pretty, level, rest, Enter(opt.mode, s, key), true);
  }

  /** Parsing the print of a document, then the rest of the text, merges it into the open mapping. */
  lemma {:induction false} ParsePrinted(opt: Options, es: Entries<string>, pretty: bool, level: nat, rest: string,
                                        first: bool, s: Stack<string>)
    requires opt.escaped
    ensures ParseLines(opt, Lines(Print(es, pretty, level) + rest), first, s, false) ==
            ParseLines(opt, Lines(rest), first && es == [], s.(top := MergeInto(opt.mode, es, s.top)), false)
    decreases es, 0
  {
    if es == [] {
      assert Print(es, pretty, level) + rest == rest;
    } else {
      var tail := Print(es[1..], pretty, level) + rest;
      assert Print(es, pretty, level) + rest == PrintEntry(es[0], pretty, level) + tail;
      match es[0].value {
        case Leaf(text) =>
          ParsePrintedLeaf(opt, es[0].key, text, pretty, level, tail, first, s);
          ParsePrinted(opt, es[1..], pretty, level, rest, false, StoreLeaf(opt.mode, s, es[0].key, text));
        case Table(sub) =>
          var s' := ParsePrintedTable(opt, es[0].key, sub, pretty, level, tail, first, s);
          ParsePrinted(opt, es[1..], pretty, level, rest, false, s');
      }
    }
  }

  lemma Regroup(a: string, b: string, c: string, d: string, rest: string)
    ensures a + (b + (c + d)) + rest == a + (b + (c + (d + rest)))
  {
  }

  lemma {:induction false} ParsePrintedTable(opt: Options, key: string, sub: Entries<string>, pretty: bool, level: nat,
                                             rest: string, first: bool, s: Stack<string>) returns (s': Stack<string>)
    requires opt.escaped
    ensures s' == s.(top := MergePair(opt.mode, Entry(key, Table(sub)), s.top))
    ensures ParseLines(opt, Lines(PrintEntry(Entry(key, Table(sub)), pretty, level) + rest), first, s, false) ==
            ParseLines(opt, Lines(rest), false, s', false)
    decreases sub, 1
  {
    var inner := Enter(opt.mode, s, key);
    var closing := Indent(pretty, level) + "}" + "\n" + rest;
    var indent := Indent(pretty, level);
    Regroup(indent + KeyLine(key) + "\n", indent + "{" + "\n", Print(sub, pretty, level + 1), indent + "}" + "\n",
            rest);
    ParsePrintedOpening(opt, key, pretty, level, Print(sub, pretty, level + 1) + closing, first, s);
    ParsePrinted(opt, sub, pretty, level + 1, closing, false, inner);
    var filled := inner.(top := MergeInto(opt.mode, sub, inner.top));
    StepClosing(opt, pretty, level, rest, filled);
    EnterFillLeave(opt.mode, s, key, filled.top);
    s' := Leave(filled);
  }

  /** Reading the text of any document, duplicates included, merges its pairs from left to right. */
  lemma ParsePrint(opt: Options, es: Entries<string>, pretty: bool)
    requires opt.escaped
    ensures ParseText(opt, Print(es, pretty, 0)) == Ok(MergeInto(opt.mode, es, []))
  {
    ParsePrinted(opt, es, pretty, 0, "", true, Stack([], []));
    assert Print(es, pretty, 0) + "" == Print(es, pretty, 0);
  }

  /**
   Text round trip, for every mapper: a document comes back, order included, exactly when its pairs are kept
   apart. Those are the documents with distinct keys for a plain dict, and all documents for a VDFDict that
   does not merge.
   */
  lemma TextRoundTrip(opt: Options, es: Entries<string>, pretty: bool)
    requires opt.escaped
    ensures ParseText(opt, Print(es, pretty, 0)) == Ok(es) <==> Loadable(opt.mode, es)
  {
    ParsePrint(opt, es, pretty);
    LoadedExactly(opt.mode, es);
  }

  /**
   Merging parse: with a plain dict, the text of any document, duplicates included, reads as the
   dict that has at every path the leaf or the mapping that the pairs in their order leave there.
   */
  lemma MergingParse(opt: Options, es: Entries<string>, pretty: bool, path: seq<string>)
    requires opt.escaped && !opt.mode.multi && path != []
    ensures var parsed := ParseText(opt, Print(es, pretty, 0));
            && parsed.Ok?
            && KindAt(parsed.value, path) == KindAfter(opt.mode.merge, Assignments(es, []), path, None)
  {
    ParsePrint(opt, es, pretty);
    MergeMeaning(opt.mode, es, [], [], path);
    assert [] + path == path;
  }

  // ---------- any text that loads ----------

  lemma ParseLineKeeps(opt: Options, line: string, more: seq<string>, s: Stack<string>, bracket: bool)
    requires LoadableStack(opt.mode, s)
    ensures var r := ParseLine(opt, line, more, s, bracket);
            r.Ok? ==> LoadableStack(opt.mode, r.value.s)
  {
    if line != "" && line[0] == '}' && s.outer != [] {
      LeaveKeeps(opt.mode, s);
    }
    var pair := Gather(line, more);
    if pair.Ok? {
      ApplyKeeps(opt, s, pair.value.0);
    }
  }

  lemma ApplyKeeps(opt: Options, s: Stack<string>, kv: KeyValue)
    requires LoadableStack(opt.mode, s)
    ensures LoadableStack(opt.mode, Apply(opt, s, kv).0)
  {
    var key := Decoded(opt, kv.key);
    EnterKeeps(opt.mode, s, key);
    if kv.value.Quoted? || kv.value.Bare? {
      StoreLeafKeeps(opt.mode, s, key, Decoded(opt, kv.value.text));
    }
  }

  lemma {:induction false} ParsedIsLoadable(opt: Options, lines: seq<string>, first: bool, s: Stack<string>,
                                            bracket: bool)
    requires LoadableStack(opt.mode, s)
    ensures var r := ParseLines(opt, lines, first, s, bracket);
            r.Ok? ==> Loadable(opt.mode, r.value)
    decreases |lines|
  {
    if lines != [] {
      ParseLineKeeps(opt, Head(lines[0], first), lines[1..], s, bracket);
      var step := ParseLine(opt, Head(lines[0], first), lines[1..], s, bracket);
      if step.Ok? {
        ParsedIsLoadable(opt, step.value.rest, false, step.value.s, step.value.bracket);
      }
    }
  }

  /**
   Whatever text was loaded, with or without escapes and into whatever mapper: dumping what it gave and
   loading that again gives the same.
   */
  lemma ReloadsTheSame(opt: Options, text: string, pretty: bool)
    requires ParseText(opt, text).Ok?
    ensures var es := ParseText(opt, text).value;
            && Loadable(opt.mode, es)
            && ParseText(opt.(escaped := true), Print(es, pretty, 0)) == Ok(es)
  {
    ParsedIsLoadable(opt, Lines(text), true, Stack([], []), false);
    TextRoundTrip(opt.(escaped := true), ParseText(opt, text).value, pretty);
  }
}
