/** Iterating over the lines of a body that arrives in chunks. */
module Lines {
  import opened Bytes
  import opened Outcomes

  const CR: byte := 13

  // ---------- HTTPResponse.__iter__: lines with their ends ----------

  function KeepEnds(b: bytes): seq<bytes> {
    if b == [] then [] else [b[..LineLength(b)]] + KeepEnds(b[LineLength(b)..])
  }

  /** `chunk.split(b"\n")`. */
  function SplitLF(b: bytes): (parts: seq<bytes>)
    ensures parts != [] && (|parts| > 1 <==> LF in b)
  {
    if b == [] then [[]]
    else
      var rest := SplitLF(b[1..]);
      if b[0] == LF then [[]] + rest else [[b[0]] + rest[0]] + rest[1..]
  }

  /** Pieces that are lines: each ends at its only newline, and only the last may lack one. */
  ghost predicate AreLines(lines: seq<bytes>) {
    forall i :: 0 <= i < |lines| ==>
      && lines[i] != [] && 10 !in lines[i][..|lines[i]| - 1]
      && (i < |lines| - 1 ==> lines[i][|lines[i]| - 1] == 10)
  }

  lemma {:induction false} LineLengthIs(b: bytes, n: nat)
    requires 0 < n <= |b| && LF !in b[..n - 1] && (b[n - 1] == LF || n == |b|)
    ensures LineLength(b) == n
  {
    if n > 1 {
      assert b[0] == b[..n - 1][0];
      assert b[1..][..n - 2] == b[..n - 1][1..];
      LineLengthIs(b[1..], n - 1);
    } else if b[0] != LF {
      assert b[1..] == [];
    }
  }

  /** The lines of a body are the only way to cut it into lines. */
  lemma {:induction false} KeepEndsUnique(b: bytes, lines: seq<bytes>)
    ensures AreLines(lines) && Join(lines) == b <==> lines == KeepEnds(b)
    decreases |b|
  {
    KeepEndsAreLines(b);
    if b == [] {
      if lines != [] && AreLines(lines) {
        assert lines[0] != [];
      }
    } else if lines != [] && AreLines(lines) && Join(lines) == b {
      LineLengthOfFirst(lines);
      assert lines[0] == b[..|lines[0]|];
      KeepEndsUnique(b[|lines[0]|..], lines[1..]);
    }
  }

  lemma LineLengthOfFirst(lines: seq<bytes>)
    requires lines != [] && AreLines(lines)
    ensures LineLength(Join(lines)) == |lines[0]| && AreLines(lines[1..])
    ensures Join(lines)[|lines[0]|..] == Join(lines[1..])
  {
    var b, n := Join(lines), |lines[0]|;
    assert b[..n - 1] == lines[0][..n - 1];
    if |lines| == 1 {
      assert Join(lines[1..]) == [];
    }
    assert b[n - 1] == lines[0][n - 1];
    LineLengthIs(b, n);
  }

  lemma ConsLine(line: bytes, rest: seq<bytes>)
    requires line != [] && LF !in line[..|line| - 1] && (rest != [] ==> line[|line| - 1] == LF) && AreLines(rest)
    ensures AreLines([line] + rest) && Join([line] + rest) == line + Join(rest)
  {
    var all := [line] + rest;
    assert all[1..] == rest;
    assert forall i :: 0 < i < |all| ==> all[i] == rest[i - 1];
  }

  lemma {:induction false} KeepEndsAreLines(b: bytes)
    ensures AreLines(KeepEnds(b)) && Join(KeepEnds(b)) == b
    decreases |b|
  {
    if b != [] {
      var n := LineLength(b);
      var line, rest := b[..n], b[n..];
      KeepEndsAreLines(rest);
      ConsLine(line, KeepEnds(rest));
      assert b == line + rest;
    }
  }

  /** The text that splits into these parts. */
  function WithLF(parts: seq<bytes>): bytes
    requires parts != []
  {
    if |parts| == 1 then parts[0] else parts[0] + [10] + WithLF(parts[1..])
  }

  lemma {:induction false} SplitLFParts(b: bytes)
    ensures WithLF(SplitLF(b)) == b && forall i :: 0 <= i < |SplitLF(b)| ==> 10 !in SplitLF(b)[i]
  {
    if b != [] {
      SplitLFParts(b[1..]);
      var rest := SplitLF(b[1..]);
      assert b == [b[0]] + b[1..];
      if b[0] == LF {
        assert ([[]] + rest)[1..] == rest;
      } else {
        assert ([[b[0]] + rest[0]] + rest[1..])[1..] == rest[1..];
      }
    }
  }

  lemma AddLine(lines: seq<bytes>, text: bytes)
    requires AreLines(lines + [[LF]]) && LF !in text
    ensures AreLines(lines + [text + [LF]] + [[LF]])
    ensures text != [] ==> AreLines(lines + [text])
    ensures Join(lines + [text + [LF]]) == Join(lines) + text + [LF]
    ensures Join(lines + [text]) == Join(lines) + text
  {
    JoinAppend(lines, text + [LF]);
    JoinAppend(lines, text);
    assert (text + [LF])[..|text|] == text;
    assert text != [] ==> LF !in text[..|text| - 1];
    forall i | 0 <= i < |lines|
      ensures var l := lines[i]; l != [] && LF !in l[..|l| - 1] && l[|l| - 1] == LF
    {
      assert (lines + [[LF]])[i] == lines[i];
    }
  }

  /** The lines that a chunk with newlines ends, the first of them begun by `head`; `tail` is begun by the chunk. */
  method EndLines(lines: seq<bytes>, head: bytes, chunk: bytes) returns (more: seq<bytes>, tail: bytes)
    requires AreLines(lines + [[LF]]) && LF !in head && LF in chunk
    ensures AreLines(more + [[LF]]) && LF !in tail
    ensures Join(more) + tail == Join(lines) + head + chunk
  {
    var parts := SplitLF(chunk);
    SplitLFParts(chunk);
    AddLine(lines, head + parts[0]);
    more := lines + [head + parts[0] + [LF]];
    ghost var all := Join(lines) + head + chunk;
    assert Join(more) + WithLF(parts[1..]) == all by {
      Regroup(Join(lines), head, parts[0], [LF], WithLF(parts[1..]));
    }
    for j := 1 to |parts| - 1
      invariant AreLines(more + [[LF]]) && Join(more) + WithLF(parts[j..]) == all
    {
      AddLine(more, parts[j]);
      assert parts[j..][1..] == parts[j + 1..];
      Regroup(Join(more), [], parts[j], [LF], WithLF(parts[j + 1..]));
      more := more + [parts[j] + [LF]];
    }
    tail := parts[|parts| - 1];
    assert parts[|parts| - 1..] == [tail];
  }

  lemma Regroup(a: bytes, b: bytes, c: bytes, d: bytes, e: bytes)
    ensures a + b + (c + d + e) == a + (b + c) + d + e
    ensures a + [] + c == a + c && [] + c == c && a + (c + d + e) == a + c + d + e
  {
  }

  /** `__iter__`: whatever the chunks, the lines are those of the whole body. */
  method Iter(chunks: seq<bytes>) returns (lines: seq<bytes>)
    requires forall i :: 0 <= i < |chunks| ==> chunks[i] != []
    ensures lines == KeepEnds(Join(chunks))
  {
    var buffer: seq<bytes> := [];
    lines := [];
    for i := 0 to |chunks|
      invariant AreLines(lines + [[LF]]) && LF !in Join(buffer) && (Join(buffer) == [] <==> buffer == [])
      invariant Join(chunks[..i]) == Join(lines) + Join(buffer)
    {
      var chunk := chunks[i];
      JoinAppend(chunks[..i], chunk);
      assert chunks[..i + 1] == chunks[..i] + [chunk];
      if LF in chunk {
        var tail;
        lines, tail := EndLines(lines, Join(buffer), chunk);
        buffer := if tail != [] then [tail] else [];
        JoinAppend([], tail);
        assert [] + [tail] == [tail] && [] + tail == tail;
      } else {
        JoinAppend(buffer, chunk);
        buffer := buffer + [chunk];
      }
    }
    assert chunks[..|chunks|] == chunks;
    if buffer != [] {
      AddLine(lines, Join(buffer));
      lines := lines + [Join(buffer)];
    } else {
      assert forall i :: 0 <= i < |lines| ==> (lines + [[LF]])[i] == lines[i];
    }
    KeepEndsUnique(Join(chunks), lines);
  }

  // ---------- Response.iter_lines: lines without their ends ----------

  predicate IsBreak(b: byte) {
    b == LF || b == CR
  }

  ghost predicate NoBreak(b: bytes) {
    10 !in b && 13 !in b
  }

  /** The lines that `text` ends when `line` is begun before it, and the line begun after it. */
  function Feed(line: bytes, text: bytes): (r: (seq<bytes>, bytes))
    decreases |text|
  {
    if text == [] then ([], line)
    else if IsBreak(text[0]) then
      var (lines, next) := Feed([], text[if text[0] == CR && |text| > 1 && text[1] == LF then 2 else 1..]);
      ([line] + lines, next)
    else Feed(line + [text[0]], text[1..])
  }

  /** `chunk.splitlines()` of bytes: "\n", "\r" and "\r\n" end a line, and no empty line comes last. */
  function SplitLines(b: bytes): seq<bytes> {
    var (lines, last) := Feed([], b);
    if last == [] then lines else lines + [last]
  }

  /** A "\r\n" that would be split between the two texts. */
  predicate Splits(a: bytes, b: bytes) {
    a != [] && b != [] && a[|a| - 1] == 13 && b[0] == 10
  }

  /** The chunks joined to blocks: a new block begins where a "\r\n" is split between chunks. */
  function Blocks(block: bytes, chunks: seq<bytes>): (blocks: seq<bytes>)
    ensures blocks != []
    decreases |chunks|
  {
    if chunks == [] then [block]
    else if Splits(block, chunks[0]) then [block] + Blocks(chunks[0], chunks[1..])
    else Blocks(block + chunks[0], chunks[1..])
  }

  function LinesOfBlocks(blocks: seq<bytes>): seq<bytes> {
    if blocks == [] then [] else SplitLines(blocks[0]) + LinesOfBlocks(blocks[1..])
  }

  lemma {:induction false} FeedAppend(line: bytes, a: bytes, b: bytes)
    requires !Splits(a, b)
    ensures var (lines, next) := Feed(line, a);
            Feed(line, a + b) == (lines + Feed(next, b).0, Feed(next, b).1)
    decreases |a|
  {
    if a == [] {
      assert a + b == b && [] + Feed(line, b).0 == Feed(line, b).0;
    } else if IsBreak(a[0]) {
      var w := if a[0] == CR && |a| > 1 && a[1] == LF then 2 else 1;
      assert (a + b)[w..] == a[w..] + b;
      FeedAppend([], a[w..], b);
      var (lines, next) := Feed([], a[w..]);
      assert [line] + (lines + Feed(next, b).0) == [line] + lines + Feed(next, b).0;
    } else {
      assert (a + b)[1..] == a[1..] + b;
      FeedAppend(line + [a[0]], a[1..], b);
    }
  }

  /** A "\r\n" split between two texts ends one line, not two, when the texts are joined. */
  lemma {:induction false} FeedSplit(line: bytes, a: bytes, b: bytes)
    requires Splits(a, b)
    ensures Feed(line, a).1 == []
    ensures Feed(line, a + b) == (Feed(line, a).0 + Feed([], b[1..]).0, Feed([], b[1..]).1)
    decreases |a|
  {
    if |a| == 1 {
      assert (a + b)[2..] == b[1..] && a[1..] == [];
      assert Feed(line, a).0 == [line];
    } else if IsBreak(a[0]) {
      var w := if a[0] == CR && a[1] == LF then 2 else 1;
      assert (a + b)[w..] == a[w..] + b;
      FeedSplit([], a[w..], b);
      var lines, more := Feed([], a[w..]).0, Feed([], b[1..]).0;
      assert [line] + (lines + more) == [line] + lines + more;
    } else {
      assert (a + b)[1..] == a[1..] + b;
      FeedSplit(line + [a[0]], a[1..], b);
    }
  }

  ghost predicate NoBreaks(lines: seq<bytes>) {
    forall i :: 0 <= i < |lines| ==> NoBreak(lines[i])
  }

  lemma {:induction false} FeedLines(line: bytes, text: bytes)
    requires NoBreak(line)
    ensures var (lines, next) := Feed(line, text);
            && NoBreaks(lines) && NoBreak(next)
            && (text == [] ==> next == line)
            && (text != [] && next == [] ==> IsBreak(text[|text| - 1]))
            && (text != [] && next != [] ==> next[|next| - 1] == text[|text| - 1])
    decreases |text|
  {
    if text != [] {
      if IsBreak(text[0]) {
        FeedLines([], text[if text[0] == CR && |text| > 1 && text[1] == LF then 2 else 1..]);
      } else {
        FeedLines(line + [text[0]], text[1..]);
      }
    }
  }

  lemma {:induction false} FeedNoBreak(line: bytes, text: bytes)
    requires NoBreak(text)
    ensures Feed(line, text) == ([], line + text)
    decreases |text|
  {
    if text == [] {
      assert line + text == line;
    } else {
      FeedNoBreak(line + [text[0]], text[1..]);
      assert line + [text[0]] + text[1..] == line + text;
    }
  }

  function Opt(line: bytes): Option<bytes> {
    if line == [] then None else Some(line)
  }

  /** The test on the last byte finds out whether the last line is still open, and takes it off the lines. */
  method TakePending(chunk: bytes) returns (more: seq<bytes>, pending: Option<bytes>)
    ensures more == Feed([], chunk).0 && pending == Opt(Feed([], chunk).1)
  {
    more, pending := SplitLines(chunk), None;
    FeedLines([], chunk);
    if more != [] && more[|more| - 1] != [] && chunk != [] {
      var last := more[|more| - 1];
      if last[|last| - 1] == chunk[|chunk| - 1] {
        pending, more := Some(last), more[..|more| - 1];
      }
    }
  }

  /** The next chunk, after a block of text that leaves a line open. */
  lemma NextChunk(block: bytes, chunk: bytes)
    ensures var (lines, open) := Feed([], block);
            && Feed([], open + chunk) == Feed(open, chunk)
            && if Splits(block, chunk) then open == [] && SplitLines(block) == lines
               else Feed([], block + chunk) == (lines + Feed(open, chunk).0, Feed(open, chunk).1)
  {
    var open := Feed([], block).1;
    FeedLines([], block);
    assert open != [] ==> open[|open| - 1] in open;
    FeedNoBreak([], open);
    FeedAppend([], open, chunk);
    assert [] + open == open && [] + Feed(open, chunk).0 == Feed(open, chunk).0;
    if Splits(block, chunk) {
      FeedSplit([], block, chunk);
    } else {
      FeedAppend([], block, chunk);
    }
  }

  /** The lines before the block, and the block, after one more chunk. */
  function Grown(before: seq<bytes>, block: bytes, chunk: bytes): (seq<bytes>, bytes) {
    if Splits(block, chunk) then (before + SplitLines(block), chunk) else (before, block + chunk)
  }

  lemma GrownBlocks(before: seq<bytes>, block: bytes, chunk: bytes, rest: seq<bytes>)
    ensures var (before', block') := Grown(before, block, chunk);
            before' + LinesOfBlocks(Blocks(block', rest)) == before + LinesOfBlocks(Blocks(block, [chunk] + rest))
  {
    assert ([chunk] + rest)[1..] == rest;
    if Splits(block, chunk) {
      var more := Blocks(chunk, rest);
      assert ([block] + more)[1..] == more;
      assert before + SplitLines(block) + LinesOfBlocks(more) == before + (SplitLines(block) + LinesOfBlocks(more));
    }
  }

  lemma GrownLines(before: seq<bytes>, block: bytes, chunk: bytes)
    ensures var (before', block') := Grown(before, block, chunk);
            var (lines, open) := Feed([], block);
            && before' + Feed([], block').0 == before + lines + Feed([], open + chunk).0
            && Feed([], block').1 == Feed([], open + chunk).1
  {
    NextChunk(block, chunk);
    var (lines, open) := Feed([], block);
    var more := Feed(open, chunk).0;
    assert before + (lines + more) == before + lines + more;
    if Splits(block, chunk) {
      assert [] + chunk == chunk;
    }
  }

  /** `iter_lines` without a delimiter: `pending` is the line that the next chunk may continue. */
  method IterLines(chunks: seq<bytes>) returns (lines: seq<bytes>)
    ensures lines == LinesOfBlocks(Blocks([], chunks))
  {
    var pending: Option<bytes> := None;
    lines := [];
    ghost var before: seq<bytes>, block: bytes := [], [];
    for i := 0 to |chunks|
      invariant pending == Opt(Feed([], block).1) && lines == before + Feed([], block).0
      invariant before + LinesOfBlocks(Blocks(block, chunks[i..])) == LinesOfBlocks(Blocks([], chunks))
    {
      var chunk := chunks[i];
      assert chunks[i..] == [chunk] + chunks[i + 1..];
      GrownBlocks(before, block, chunk, chunks[i + 1..]);
      GrownLines(before, block, chunk);
      ghost var open := Feed([], block).1;
      before, block := Grown(before, block, chunk).0, Grown(before, block, chunk).1;
      if pending.Some? {
        chunk := pending.value + chunk;
      }
      assert chunk == open + chunks[i];
      var more;
      more, pending := TakePending(chunk);
      lines := lines + more;
    }
    assert chunks[|chunks|..] == [];
    assert LinesOfBlocks([block]) == SplitLines(block) + [];
    if pending.Some? {
      lines := lines + [pending.value];
    }
  }

  lemma SplitLinesOfSplit(a: bytes, b: bytes)
    requires Splits(a, b)
    ensures |SplitLines(a + b)| == |SplitLines(a)| + |SplitLines(b)| - 1
  {
    FeedSplit([], a, b);
    assert b[0] == LF;
  }

  lemma {:induction false} CountBlocks(block: bytes, chunks: seq<bytes>)
    ensures |LinesOfBlocks(Blocks(block, chunks))| == |SplitLines(block + Join(chunks))| + |Blocks(block, chunks)| - 1
    ensures |Blocks(block, chunks)| == 1 ==> Blocks(block, chunks) == [block + Join(chunks)]
    decreases |chunks|
  {
    if chunks == [] {
      assert block + Join(chunks) == block;
      assert LinesOfBlocks([block]) == SplitLines(block) + [];
    } else {
      var first, rest := chunks[0], chunks[1..];
      if Splits(block, first) {
        CountBlocks(first, rest);
        SplitLinesOfSplit(block, first + Join(rest));
        assert ([block] + Blocks(first, rest))[1..] == Blocks(first, rest);
      } else {
        CountBlocks(block + first, rest);
        assert block + first + Join(rest) == block + Join(chunks);
      }
    }
  }

  /**
   `iter_lines` gives the lines of the whole body exactly when no "\r\n" is split between chunks;
   each one that is split adds one line.
   */
  lemma IterLinesIsSplit(chunks: seq<bytes>)
    ensures var lines, blocks := LinesOfBlocks(Blocks([], chunks)), Blocks([], chunks);
            && |lines| == |SplitLines(Join(chunks))| + |blocks| - 1
            && (lines == SplitLines(Join(chunks)) <==> |blocks| == 1)
  {
    CountBlocks([], chunks);
    assert [] + Join(chunks) == Join(chunks);
    if |Blocks([], chunks)| == 1 {
      assert LinesOfBlocks([Join(chunks)]) == SplitLines(Join(chunks)) + [];
    }
  }

  /** A "\r\n" that arrives in two chunks is read as two lines; in one chunk it is one. */
  lemma BreakIsSplit()
    ensures LinesOfBlocks(Blocks([], [[13], [10]])) == [[], []]
    ensures LinesOfBlocks(Blocks([], [[13, 10]])) == [[]]
  {
    OneBreak([CR]);
    OneBreak([LF]);
    OneBreak([CR, LF]);
    assert [[CR], [LF]][1..] == [[LF]] && [] + [CR] == [CR] && [] + [CR, LF] == [CR, LF];
    assert Blocks([CR], [[LF]]) == [[CR]] + Blocks([LF], []);
    assert [[CR], [LF]][1..] == [[LF]];
    LinesOfOne([LF]);
    LinesOfOne([CR, LF]);
  }

  lemma LinesOfOne(block: bytes)
    ensures LinesOfBlocks([block]) == SplitLines(block)
  {
    assert LinesOfBlocks([block]) == SplitLines(block) + [];
  }

  lemma OneBreak(b: bytes)
    requires b == [CR] || b == [LF] || b == [CR, LF]
    ensures SplitLines(b) == [[]]
  {
    assert Feed([], b[|b|..]) == ([], []);
    assert Feed([], b) == ([[]] + [], []);
  }

  lemma {:induction false} OneBlock(block: bytes, chunks: seq<bytes>)
    requires 13 !in block && 13 !in Join(chunks)
    ensures |Blocks(block, chunks)| == 1
    decreases |chunks|
  {
    if chunks != [] {
      assert Join(chunks) == chunks[0] + Join(chunks[1..]);
      OneBlock(block + chunks[0], chunks[1..]);
    }
  }

  lemma {:induction false} OnlyLF(line: bytes, b: bytes)
    requires 13 !in b
    ensures var (parts, (lines, last)) := (SplitLF(b), Feed(line, b));
            [line + parts[0]] + parts[1..] == lines + [last]
    decreases |b|
  {
    if b == [] {
      assert line + [] == line;
    } else {
      var parts := SplitLF(b[1..]);
      assert b[0] in b;
      if b[0] == LF {
        OnlyLF([], b[1..]);
        assert [] + parts[0] == parts[0] && [parts[0]] + parts[1..] == parts;
        assert line + [] == line;
      } else {
        OnlyLF(line + [b[0]], b[1..]);
        assert line + ([b[0]] + parts[0]) == line + [b[0]] + parts[0];
      }
    }
  }

  /**
   When "\n" is the only line break, `iter_lines` gives, for every chunking, the parts of the body
   between the newlines, without an empty last part.
   */
  lemma IterLinesOfLF(chunks: seq<bytes>)
    requires 13 !in Join(chunks)
    ensures var parts := SplitLF(Join(chunks));
            LinesOfBlocks(Blocks([], chunks)) ==
            if parts[|parts| - 1] == [] then parts[..|parts| - 1] else parts
  {
    OneBlock([], chunks);
    IterLinesIsSplit(chunks);
    OnlyLF([], Join(chunks));
    var parts := SplitLF(Join(chunks));
    assert [] + parts[0] == parts[0] && [parts[0]] + parts[1..] == parts;
  }
}
