/** The text parser as the source runs it: one pass over the lines, changing the open mappings in place. */
module VdfParser {
  import opened Outcomes
  import opened VdfText
  import opened VdfLoader

  /** Reads lines into `line` until the pattern matches a whole pair. */
  method MatchPair(start: string, lines: seq<string>, from: nat)
    returns (r: Result<KeyValue, SyntaxError>, next: nat)
    requires from <= |lines|
    ensures from <= next <= |lines|
    ensures r.Ok? ==> Gather(start, lines[from..]) == Ok((r.value, lines[next..]))
    ensures r.Err? ==> Gather(start, lines[from..]) == Err(r.error)
  {
    var line := start;
    next := from;
    while true
      invariant from <= next <= |lines|
      invariant Gather(start, lines[from..]) == Gather(line, lines[next..])
      decreases |lines| - next
    {
      var m := MatchKeyValue(line);
      if Complete(m) {
        return Ok(m.value), next;
      }
      if next == |lines| {
        return Err(if m.None? then OpenKey else OpenValue), next;
      }
      assert lines[next..][0] == lines[next] && lines[next..][1..] == lines[next + 1..];
      line := line + lines[next];
      next := next + 1;
    }
  }

  /** A pair applied to the innermost mapping; true when a bracket must follow. */
  method ApplyPair(opt: Options, l: Loader<string>, kv: KeyValue) returns (bracket: bool)
    requires l.Valid() && l.mode == opt.mode
    modifies l, l.repr
    ensures l.Valid() && fresh(l.repr - old(l.repr))
    ensures (l.View(), bracket) == Apply(opt, old(l.View()), kv)
  {
    var key := Decoded(opt, kv.key);
    bracket := false;
    match kv.value {
      case Quoted(text, _) => l.SetLeaf(key, Decoded(opt, text));
      case Bare(text) => l.SetLeaf(key, Decoded(opt, text));
      case Block(closed) =>
        var d, at := l.Table(key);
        if !closed {
          l.Push(d, at);
        }
      case NoValue =>
        var d, at := l.Table(key);
        l.Push(d, at);
        bracket := true;
    }
  }

  /** A line that starts a pair, with the lines after it that the pair runs over. */
  method ParsePair(opt: Options, l: Loader<string>, line: string, lines: seq<string>, from: nat)
    returns (error: Option<SyntaxError>, next: nat, bracket: bool, ghost kv: KeyValue)
    requires from <= |lines| && l.Valid() && l.mode == opt.mode
    modifies l, l.repr
    ensures l.Valid() && fresh(l.repr - old(l.repr))
    ensures from <= next <= |lines|
    ensures error.Some? ==> Gather(line, lines[from..]) == Err(error.value)
    ensures error.None? ==> Gather(line, lines[from..]) == Ok((kv, lines[next..]))
                            && (l.View(), bracket) == Apply(opt, old(l.View()), kv)
  {
    var m;
    m, next := MatchPair(line, lines, from);
    if m.Err? {
      error, bracket, kv := Some(m.error), false, KeyValue("", NoValue);
    } else {
      kv := m.value;
      error, bracket := None, false;
      bracket := ApplyPair(opt, l, m.value);
    }
  }

  /** The body of the parser's loop: a stripped line, with the lines after it that its pair runs over. */
  method ParseLine(opt: Options, l: Loader<string>, line: string, lines: seq<string>, from: nat, expecting: bool)
    returns (error: Option<SyntaxError>, next: nat, bracket: bool)
    requires from <= |lines| && l.Valid() && l.mode == opt.mode
    modifies l, l.repr
    ensures l.Valid() && fresh(l.repr - old(l.repr))
    ensures from <= next <= |lines|
    ensures VdfText.ParseLine(opt, line, lines[from..], old(l.View()), expecting) ==
            if error.Some? then Err(error.value) else Ok(Step(l.View(), bracket, lines[next..]))
  {
    error, next, bracket := None, from, expecting;
    if line == "" || line[0] == '/' {
      // blank lines and comments are skipped
    } else if line[0] == '{' {
      bracket := false;
    } else if expecting {
      error := Some(ExpectedBracket);
    } else if line[0] == '}' {
      if |l.stack| > 1 {
        l.Pop();
      } else {
        error := Some(ExtraClosing);
      }
    } else {
      ghost var kv;
      error, next, bracket, kv := ParsePair(opt, l, line, lines, from);
    }
  }

  /** `loads`: the mapping returned holds what the value-level parse says, or the same error is raised. */
  method Parse(opt: Options, text: string) returns (r: Result<Dict<string>, SyntaxError>, ghost l: Loader<string>)
    ensures l.Valid()
    ensures match ParseText(opt, text)
            case Err(e) => r == Err(e)
            case Ok(es) => r.Ok? && Created(r.value, l.heap) && l.Holding(r.value) == es
  {
    var loader := new Loader<string>(opt.mode);
    l := loader;
    var lines, i, bracket := Lines(text), 0, false;
    assert lines[0..] == lines;
    while i < |lines|
      invariant 0 <= i <= |lines| && fresh(loader) && fresh(loader.repr)
      invariant loader.Valid() && loader.mode == opt.mode
      invariant ParseText(opt, text) == ParseLines(opt, lines[i..], i == 0, loader.View(), bracket)
      decreases |lines| - i
    {
      assert lines[i..][0] == lines[i] && lines[i..][1..] == lines[i + 1..];
      var line, error := Head(lines[i], i == 0), None;
      error, i, bracket := ParseLine(opt, loader, line, lines, i + 1, bracket);
      if error.Some? {
        return Err(error.value), l;
      }
    }
    if |loader.stack| != 1 {
      return Err(Unclosed), l;
    }
    loader.HoldingRoot();
    r := Ok(loader.stack[0]);
  }
}
