/**
 What the parser makes of text that it did not print: any blanks and tabs, comments and empty lines, bare
 words, brackets on either line, values over several lines. The characters are those of the pattern, listed.
 */
module VdfReading {
  import opened Outcomes
  import opened VdfText

  predicate LetterOrDigit(c: char) {
    || 'a' <= c <= 'z' || 'A' <= c <= 'Z' || '0' <= c <= '9'
    || c == '\U{130}' || c == '\U{131}' || c == '\U{17F}' || c == '\U{212A}'
  }

  predicate KeyChar(c: char) {
    || LetterOrDigit(c)
    || c == '-' || c == '_' || c == '\\' || c == '?' || c == '$' || c == '%' || c == '<' || c == '>'
  }

  predicate ValueChar(c: char) {
    || LetterOrDigit(c)
    || c == '-' || c == '_' || c == '\\' || c == '?' || c == '*' || c == '.' || c == '$' || c == '<' || c == '>'
    || c == ' '
  }

  predicate Blank(c: char) {
    c == ' ' || c == '\t'
  }

  /** White space within a line, as Unicode has it. */
  predicate Space(c: char) {
    || c == ' ' || c == '\t' || c == '\r' || c == '\U{B}' || c == '\U{C}'
    || c == '\U{1C}' || c == '\U{1D}' || c == '\U{1E}' || c == '\U{1F}' || c == '\U{85}' || c == '\U{A0}'
    || c == '\U{1680}' || '\U{2000}' <= c <= '\U{200A}' || c == '\U{2028}' || c == '\U{2029}' || c == '\U{202F}'
    || c == '\U{205F}' || c == '\U{3000}'
  }

  ghost predicate Blanks(b: string) {
    forall i :: 0 <= i < |b| ==> Blank(b[i])
  }

  ghost predicate Spaces(b: string) {
    forall i :: 0 <= i < |b| ==> Space(b[i])
  }

  /** A key or a value, in quotes or bare; in quotes it is the text between them, escapes and all. */
  datatype Token = InQuotes(text: string) | Plain(text: string)

  function Written(t: Token): string {
    match t
    case InQuotes(text) => ['\"'] + text + ['\"']
    case Plain(text) => text
  }

  ghost predicate IsKey(t: Token) {
    match t
    case InQuotes(text) => Quotable(text)
    case Plain(text) =>
      var name := if text != "" && text[0] == '#' then text[1..] else text;
      name != "" && forall i :: 0 <= i < |name| ==> KeyChar(name[i])
  }

  /** A slash stands alone between its neighbours. */
  ghost predicate LoneSlash(text: string, i: nat)
    requires i < |text|
  {
    text[i] == '/' && (i > 0 ==> text[i - 1] != '/') && (i + 1 < |text| ==> text[i + 1] != '/')
  }

  /** The character can be part of a bare value. */
  ghost predicate InValue(line: string, p: nat)
    requires p < |line|
  {
    ValueChar(line[p]) || LoneSlash(line, p)
  }

  ghost predicate IsValue(t: Token) {
    match t
    case InQuotes(text) => Quotable(text)
    case Plain(text) =>
      && text != "" && text[0] != ' ' && text[|text| - 1] != ' '
      && forall i :: 0 <= i < |text| ==> InValue(text, i)
  }

  /** What may follow a value: anything after a quote; after a bare one, blanks that are cut and no more of it. */
  ghost predicate EndsValue(t: Token, pad: string, rest: string) {
    t.Plain? ==>
      && (forall i :: 0 <= i < |pad| ==> pad[i] == ' ')
      && (rest != "" ==>
            && !ValueChar(rest[0])
            && (rest[0] == '/' ==> |rest| > 1 && rest[1] == '/')
            && (rest[0] == '/' && pad == "" && t.text != "" ==> t.text[|t.text| - 1] != '/'))
  }

  /** What may follow a key alone on its line: blanks, and then neither a value nor a bracket. */
  ghost predicate EndsKey(rest: string) {
    rest != "" ==>
      && !Blank(rest[0]) && !ValueChar(rest[0]) && rest[0] != '\"' && rest[0] != '{'
      && (rest[0] == '/' ==> |rest| > 1 && rest[1] == '/')
  }

  /** Nothing is stripped from the front of the line. */
  predicate Begins(line: string) {
    line != "" && !Space(line[0]) && line[0] != '\n' && line[0] != '\U{FFFE}' && line[0] != '\U{FEFF}'
  }

  // ---------- the pattern ----------

  lemma {:induction false} BlanksRun(line: string, i: nat, n: nat)
    requires i + n <= |line| && Blanks(line[i..i + n])
    requires i + n == |line| || !Blank(line[i + n])
    ensures BlanksEnd(line, i) == i + n
    decreases n
  {
    if n > 0 {
      assert line[i..i + n][0] == line[i];
      assert line[i + 1..i + n] == line[i..i + n][1..];
      BlanksRun(line, i + 1, n - 1);
    }
  }

  lemma {:induction false} KeyRun(line: string, i: nat, j: nat)
    requires i <= j <= |line| && forall p :: i <= p < j ==> KeyChar(line[p])
    requires j == |line| || !KeyChar(line[j])
    ensures KeyEnd(line, i) == j
    decreases j - i
  {
    if i < j {
      KeyRun(line, i + 1, j);
    }
  }

  lemma {:induction false} ValueRun(line: string, i: nat, j: nat)
    requires i <= j <= |line| && forall p :: i <= p < j ==> InValue(line, p)
    requires j == |line| || !InValue(line, j)
    ensures BareEnd(line, i) == j
    decreases j - i
  {
    if i < j {
      assert InValue(line, i);
      ValueRun(line, i + 1, j);
    }
  }

  lemma {:induction false} TrimPad(text: string, pad: string)
    requires text != "" && text[|text| - 1] != ' ' && forall i :: 0 <= i < |pad| ==> pad[i] == ' '
    ensures TrimRight(text + pad) == text
    decreases |pad|
  {
    if pad == "" {
      assert text + pad == text;
    } else {
      var n := |pad| - 1;
      assert (text + pad)[..|text + pad| - 1] == text + pad[..n];
      TrimPad(text, pad[..n]);
    }
  }

  lemma PlainKey(line: string, b: nat, e: nat)
    requires line != "" && line[0] != '\"' && b == (if line[0] == '#' then 1 else 0)
    requires KeyEnd(line, b) == e > b
    ensures MatchKeyValue(line) == Some(KeyValue(line[..e], MatchValue(line, e)))
  {
  }

  lemma QuotedValue(line: string, i: nat, j: nat, e: nat)
    requires i <= |line| && BlanksEnd(line, i) == j < |line| && line[j] == '\"'
    requires QuotedEnd(line, j + 1) == e
    ensures MatchValue(line, i) == Quoted(line[j + 1..e], e < |line| && line[e] == '\"')
  {
  }

  lemma BareValue(line: string, i: nat, j: nat, e: nat, text: string)
    requires i <= |line| && BlanksEnd(line, i) == j < |line| && line[j] != '\"' && line[j] != '{'
    requires BareEnd(line, j) == e > j && TrimRight(line[j..e]) == text
    ensures MatchValue(line, i) == Bare(text)
  {
  }

  lemma BlockValue(line: string, i: nat, j: nat, e: nat)
    requires i <= |line| && BlanksEnd(line, i) == j < |line| && line[j] == '{'
    requires BlanksEnd(line, j + 1) == e
    ensures MatchValue(line, i) == Block(e < |line| && line[e] == '}')
  {
  }

  lemma {:induction false} NameRun(line: string, text: string, b: nat)
    requires b < |text| <= |line| && line[..|text|] == text && (forall p :: b <= p < |text| ==> KeyChar(text[p]))
    requires |text| < |line| ==> !KeyChar(line[|text|])
    ensures KeyEnd(line, b) == |text|
  {
    forall p | b <= p < |text|
      ensures KeyChar(line[p])
    {
      assert line[p] == line[..|text|][p];
    }
    KeyRun(line, b, |text|);
  }

  lemma KeyText(text: string)
    requires IsKey(Plain(text))
    ensures var b := if text[0] == '#' then 1 else 0;
            b < |text| && (forall p :: b <= p < |text| ==> KeyChar(text[p]))
            && (text[0] == '#' || KeyChar(text[0]))
  {
    if text[0] == '#' {
      assert forall p :: 1 <= p < |text| ==> text[p] == text[1..][p - 1];
    }
  }

  /** A key at the start of a line, whatever comes after it. */
  lemma KeyMatched(key: Token, after: string)
    requires IsKey(key) && (key.Plain? && after != "" ==> !KeyChar(after[0]))
    ensures var line := Written(key) + after;
            && Begins(line) && line[0] != '/' && line[0] != '{' && line[0] != '}'
            && line[|Written(key)|..] == after
            && MatchKeyValue(line) == Some(KeyValue(key.text, MatchValue(line, |Written(key)|)))
  {
    var line, n := Written(key) + after, |Written(key)|;
    assert line[..n] == Written(key) && line[n..] == after;
    if key.InQuotes? {
      MatchQuotedKey(line, key.text, after);
    } else {
      KeyText(key.text);
      assert line[0] == key.text[0];
      NameRun(line, key.text, if key.text[0] == '#' then 1 else 0);
      PlainKey(line, if key.text[0] == '#' then 1 else 0, n);
    }
  }

  lemma QuotedMatched(line: string, i: nat, blanks: string, text: string, after: string)
    requires Quotable(text) && Blanks(blanks) && i <= |line| && line[i..] == blanks + (['\"'] + text + ['\"'] + after)
    ensures MatchValue(line, i) == Quoted(text, true)
  {
    var j := i + |blanks|;
    AfterBlanks(line, i, blanks, ['\"'] + text + ['\"'] + after);
    QuotedPart(line, j, text, after);
    QuotedValue(line, i, j, j + 1 + |text|);
  }

  /** Where a bare value ends. */
  lemma ValueSpan(text: string, pad: string, rest: string)
    requires IsValue(Plain(text)) && EndsValue(Plain(text), pad, rest)
    ensures var all, n := text + pad + rest, |text| + |pad|;
            && (forall p :: 0 <= p < n ==> InValue(all, p))
            && (n < |all| ==> !InValue(all, n))
  {
    var all, n := text + pad + rest, |text| + |pad|;
    forall p | 0 <= p < n
      ensures InValue(all, p)
    {
      if p < |text| {
        assert all[p] == text[p];
        assert InValue(text, p);
        assert p > 0 ==> all[p - 1] == text[p - 1];
        if text[p] == '/' && p == |text| - 1 && p + 1 < |all| {
          assert all[p + 1] == if pad != "" then pad[0] else rest[0];
        } else if p + 1 < |text| {
          assert all[p + 1] == text[p + 1];
        }
      } else {
        assert all[p] == pad[p - |text|] == ' ';
      }
    }
    if n < |all| {
      assert all[n] == rest[0] && (|rest| > 1 ==> all[n + 1] == rest[1]);
    }
  }

  lemma ValueShift(line: string, j: nat, all: string, p: nat)
    requires j <= |line| && line[j..] == all && p < |all| && (j > 0 ==> line[j - 1] != '/')
    ensures InValue(line, j + p) <==> InValue(all, p)
  {
    assert line[j + p] == all[p];
    assert p > 0 ==> line[j + p - 1] == all[p - 1];
    assert p + 1 < |all| ==> line[j + p + 1] == all[p + 1];
  }

  lemma PlainEnd(line: string, j: nat, text: string, pad: string, rest: string)
    requires IsValue(Plain(text)) && EndsValue(Plain(text), pad, rest)
    requires j <= |line| && line[j..] == text + pad + rest && (j > 0 ==> line[j - 1] != '/')
    ensures var e := j + |text| + |pad|;
            && BareEnd(line, j) == e > j && TrimRight(line[j..e]) == text
            && line[j] == text[0] && !Blank(line[j]) && line[j] != '\"' && line[j] != '{'
  {
    var all, e := text + pad + rest, j + |text| + |pad|;
    ValueSpan(text, pad, rest);
    forall p | j <= p < e
      ensures InValue(line, p)
    {
      ValueShift(line, j, all, p - j);
    }
    if e < |line| {
      ValueShift(line, j, all, e - j);
    }
    ValueRun(line, j, e);
    assert line[j..e] == all[..e - j] == text + pad;
    TrimPad(text, pad);
    PlainStart(text, pad, rest);
    assert line[j] == all[0];
  }

  lemma AfterBlanks(line: string, i: nat, blanks: string, rest: string)
    requires Blanks(blanks) && i <= |line| && line[i..] == blanks + rest && (rest != "" ==> !Blank(rest[0]))
    ensures var j := i + |blanks|;
            && BlanksEnd(line, i) == j <= |line| && line[j..] == rest
            && (blanks != "" ==> line[j - 1] != '/')
  {
    var t, j := line[i..], i + |blanks|;
    assert line[i..j] == t[..|blanks|] == blanks;
    assert line[j..] == t[|blanks|..] == rest;
    assert j < |line| ==> line[j] == rest[0];
    assert blanks != "" ==> line[j - 1] == t[|blanks| - 1] == blanks[|blanks| - 1];
    BlanksRun(line, i, |blanks|);
  }

  lemma PlainStart(text: string, pad: string, rest: string)
    requires IsValue(Plain(text))
    ensures var c := (text + pad + rest)[0]; c == text[0] && !Blank(c) && c != '\"' && c != '{'
  {
    assert InValue(text, 0);
  }

  lemma PlainAt(line: string, i: nat, j: nat, text: string, pad: string, rest: string)
    requires IsValue(Plain(text)) && EndsValue(Plain(text), pad, rest) && i <= |line| && BlanksEnd(line, i) == j
    requires line[j..] == text + pad + rest && (j > 0 ==> line[j - 1] != '/')
    ensures MatchValue(line, i) == Bare(text)
  {
    PlainEnd(line, j, text, pad, rest);
    BareValue(line, i, j, j + |text| + |pad|, text);
  }

  lemma PlainMatched(line: string, i: nat, blanks: string, text: string, pad: string, rest: string)
    requires Blanks(blanks) && IsValue(Plain(text)) && EndsValue(Plain(text), pad, rest)
    requires i <= |line| && line[i..] == blanks + (text + pad + rest)
    requires i > 0 ==> line[i - 1] != '/'
    ensures MatchValue(line, i) == Bare(text)
  {
    PlainStart(text, pad, rest);
    AfterBlanks(line, i, blanks, text + pad + rest);
    PlainAt(line, i, i + |blanks|, text, pad, rest);
  }

  lemma NothingMatched(line: string, i: nat, blanks: string, rest: string)
    requires Blanks(blanks) && EndsKey(rest) && i <= |line| && line[i..] == blanks + rest
    ensures MatchValue(line, i) == NoValue
  {
    var j := i + |blanks|;
    AfterBlanks(line, i, blanks, rest);
    if j < |line| {
      assert line[j] == line[j..][0] == rest[0];
      assert j + 1 < |line| ==> line[j + 1] == line[j..][1] == rest[1];
      assert !InValue(line, j);
      ValueRun(line, j, j);
    }
  }

  lemma BracketMatched(line: string, i: nat, blanks: string, inside: string, rest: string)
    requires Blanks(blanks) && Blanks(inside) && (rest != "" ==> !Blank(rest[0]))
    requires i <= |line| && line[i..] == blanks + (['{'] + (inside + rest))
    ensures MatchValue(line, i) == Block(rest != "" && rest[0] == '}')
  {
    var j := i + |blanks|;
    var e := j + 1 + |inside|;
    AfterBlanks(line, i, blanks, ['{'] + (inside + rest));
    assert line[j] == line[j..][0] == '{';
    assert line[j + 1..] == line[j..][1..] == inside + rest;
    AfterBlanks(line, j + 1, inside, rest);
    assert e < |line| ==> line[e] == line[e..][0] == rest[0];
    assert |line[e..]| == |rest|;
    BlockValue(line, i, j, e);
  }

  function ValueOf(t: Token): Value {
    match t
    case InQuotes(text) => Quoted(text, true)
    case Plain(text) => Bare(text)
  }

  /** A bare key needs something after it that is not part of it. */
  predicate SetApart(key: Token, next: string) {
    key.Plain? && next != "" ==> !KeyChar(next[0])
  }

  lemma ValueMatched(line: string, i: nat, blanks: string, value: Token, pad: string, rest: string)
    requires Blanks(blanks) && IsValue(value) && EndsValue(value, pad, rest)
    requires i <= |line| && line[i..] == blanks + (Written(value) + pad + rest) && (i > 0 ==> line[i - 1] != '/')
    ensures MatchValue(line, i) == ValueOf(value)
  {
    match value {
      case InQuotes(text) =>
        assert Written(value) + pad + rest == ['\"'] + text + ['\"'] + (pad + rest);
        QuotedMatched(line, i, blanks, text, pad + rest);
      case Plain(text) =>
        PlainMatched(line, i, blanks, text, pad, rest);
    }
  }

  lemma FirstAfter(key: Token, blanks: string, more: string)
    requires Blanks(blanks) && (key.Plain? && blanks == "" && more != "" ==> !KeyChar(more[0]))
    ensures SetApart(key, blanks + more)
  {
    assert blanks != "" ==> (blanks + more)[0] == blanks[0];
    assert blanks == "" ==> blanks + more == more;
  }

  lemma LastOfKey(key: Token, after: string)
    requires IsKey(key)
    ensures var n := |Written(key)|; n > 0 && (Written(key) + after)[n - 1] != '/'
  {
    KeyEndsWell(key);
  }

  lemma PairMatched(key: Token, blanks: string, value: Token, pad: string, rest: string)
    requires IsKey(key) && Blanks(blanks) && IsValue(value) && EndsValue(value, pad, rest)
    requires key.Plain? && value.Plain? ==> blanks != ""
    ensures var line := Written(key) + (blanks + (Written(value) + pad + rest));
            && MatchKeyValue(line) == Some(KeyValue(key.text, ValueOf(value)))
            && Begins(line) && line[0] != '/' && line[0] != '{' && line[0] != '}'
  {
    var after := blanks + (Written(value) + pad + rest);
    FirstAfter(key, blanks, Written(value) + pad + rest);
    KeyMatched(key, after);
    LastOfKey(key, after);
    ValueMatched(Written(key) + after, |Written(key)|, blanks, value, pad, rest);
  }

  lemma KeyEndsWell(key: Token)
    requires IsKey(key)
    ensures var w := Written(key); w != "" && w[|w| - 1] != '/'
  {
    if key.Plain? {
      KeyText(key.text);
      assert KeyChar(key.text[|key.text| - 1]);
    }
  }

  // ---------- keys and values over several lines ----------

  lemma {:induction false} QuotableCut(text: string, n: nat)
    requires Quotable(text) && 0 < n <= |text| && text[n - 1] == '\n'
    ensures Quotable(text[..n])
    decreases |text|
  {
    var w := if text[0] == '\\' then 2 else 1;
    if n > w {
      assert text[w..][..n - w] == text[..n][w..];
      QuotableCut(text[w..], n - w);
    } else {
      assert text[..n][1..] == "";
    }
  }

  lemma {:induction false} QuotedOpen(line: string, i: nat)
    requires i <= |line| && Quotable(line[i..])
    ensures QuotedEnd(line, i) == |line|
    decreases |line| - i
  {
    if i < |line| {
      var t := line[i..];
      var w := if t[0] == '\\' then 2 else 1;
      assert line[i] == t[0] && (w == 2 ==> line[i + 1] == t[1]);
      assert line[i + w..] == t[w..];
      QuotedOpen(line, i + w);
    }
  }

  /** A key whose closing quote is still to come. */
  lemma KeyOpen(text: string)
    requires Quotable(text)
    ensures MatchKeyValue(['\"'] + text) == None
  {
    var line := ['\"'] + text;
    assert line[1..] == text;
    QuotedOpen(line, 1);
  }

  lemma QuotedOpenAt(line: string, j: nat, text: string)
    requires Quotable(text) && j < |line| && line[j..] == ['\"'] + text
    ensures line[j] == '\"' && QuotedEnd(line, j + 1) == |line| && line[j + 1..|line|] == text
  {
    assert line[j] == line[j..][0];
    assert line[j + 1..] == line[j..][1..] == text;
    QuotedOpen(line, j + 1);
  }

  lemma OpenValueMatched(line: string, i: nat, blanks: string, text: string)
    requires Blanks(blanks) && Quotable(text) && i <= |line| && line[i..] == blanks + (['\"'] + text)
    ensures MatchValue(line, i) == Quoted(text, false)
  {
    var j := i + |blanks|;
    AfterBlanks(line, i, blanks, ['\"'] + text);
    QuotedOpenAt(line, j, text);
    QuotedValue(line, i, j, |line|);
  }

  /** A value whose closing quote is still to come. */
  lemma ValueOpen(key: Token, blanks: string, text: string)
    requires IsKey(key) && Blanks(blanks) && Quotable(text)
    ensures var line := Written(key) + (blanks + (['\"'] + text));
            && MatchKeyValue(line) == Some(KeyValue(key.text, Quoted(text, false)))
            && Begins(line) && line[0] != '/' && line[0] != '{' && line[0] != '}'
  {
    var after := blanks + (['\"'] + text);
    FirstAfter(key, blanks, ['\"'] + text);
    KeyMatched(key, after);
    OpenValueMatched(Written(key) + after, |Written(key)|, blanks, text);
  }

  /** Text that ends a line, and at whose other line ends the pattern does not match a whole pair yet. */
  ghost predicate OneMatch(line: string, more: string) {
    && (more != "" ==> more[|more| - 1] == '\n')
    && forall n :: 0 <= n < |more| && (n == 0 || more[n - 1] == '\n') ==> Unfinished(line, more, n)
  }

  ghost predicate Unfinished(line: string, more: string, n: nat)
    requires n <= |more|
  {
    !Complete(MatchKeyValue(line + more[..n]))
  }

  lemma {:induction false} LineLengthOf(text: string, rest: string)
    requires text != "" && text[|text| - 1] == '\n'
    ensures var n := LineLength(text);
            n == LineLength(text + rest) && text[n - 1] == '\n'
  {
    if text[0] != '\n' {
      assert (text + rest)[1..] == text[1..] + rest;
      LineLengthOf(text[1..], rest);
    }
  }

  lemma NextLine(text: string, rest: string)
    requires text != "" && text[|text| - 1] == '\n'
    ensures var n := LineLength(text);
            Lines(text + rest) == [text[..n]] + Lines(text[n..] + rest)
  {
    var n := LineLength(text);
    LineLengthOf(text, rest);
    assert (text + rest)[..n] == text[..n] && (text + rest)[n..] == text[n..] + rest;
  }

  lemma LaterMatch(line: string, more: string, n: nat)
    requires OneMatch(line, more) && 0 < n <= |more| && more[n - 1] == '\n'
    ensures OneMatch(line + more[..n], more[n..])
    ensures line + more[..n] + more[n..] == line + more
  {
    var line', more' := line + more[..n], more[n..];
    forall k | 0 <= k < |more'| && (k == 0 || more'[k - 1] == '\n')
      ensures Unfinished(line', more', k)
    {
      assert Unfinished(line, more, n + k);
      assert line' + more'[..k] == line + more[..n + k];
    }
    assert line' + more' == line + more;
  }

  lemma {:induction false} Gathers(line: string, more: string, rest: string, kv: KeyValue)
    requires OneMatch(line, more) && MatchKeyValue(line + more) == Some(kv) && Complete(Some(kv))
    ensures Gather(line, Lines(more + rest)) == Ok((kv, Lines(rest)))
    decreases |more|
  {
    if more == "" {
      assert line + more == line && more + rest == rest;
    } else {
      var n := LineLength(more);
      assert Unfinished(line, more, 0) && line + more[..0] == line;
      NextLine(more, rest);
      LineLengthOf(more, rest);
      LaterMatch(line, more, n);
      Gathers(line + more[..n], more[n..], rest, kv);
    }
  }
}
