/**
 The chunked transfer coding of section 7.1 of RFC 9112, as the sender frames a body and as the
 reader takes it apart: framing and reading undo each other for every read size.
 */
module ChunkedCodec {
  import opened Outcomes
  import opened Bytes

  const CR: byte := 13
  const SEMICOLON: byte := 59
  const CRLF: bytes := [13, 10]

  // ---------- sizes in hexadecimal ----------

  function HexDigit(d: nat): (c: byte)
    requires d < 16
  {
    if d < 10 then 48 + d else 87 + d
  }

  /** `b"%x" % n`. */
  function Hex(n: nat): (b: bytes)
    ensures b != []
  {
    if n < 16 then [HexDigit(n)] else Hex(n / 16) + [HexDigit(n % 16)]
  }

  function DigitValue(c: byte): Option<nat> {
    if 48 <= c <= 57 then Some(c - 48)
    else if 97 <= c <= 102 then Some(c - 87)
    else if 65 <= c <= 70 then Some(c - 55)
    else None
  }

  predicate IsBlank(c: byte) {
    c == 32 || 9 <= c <= 13
  }

  function StripLeft(b: bytes): bytes {
    if b != [] && IsBlank(b[0]) then StripLeft(b[1..]) else b
  }

  function StripRight(b: bytes): bytes {
    if b != [] && IsBlank(b[|b| - 1]) then StripRight(b[..|b| - 1]) else b
  }

  /** Digits with single underscores between them. */
  function Digits(b: bytes, value: nat, afterDigit: bool): Option<nat> {
    if b == [] then if afterDigit then Some(value) else None
    else if b[0] == 95 then if afterDigit then Digits(b[1..], value, false) else None
    else
      var d :- DigitValue(b[0]);
      Digits(b[1..], 16 * value + d, true)
  }

  function Unsigned(b: bytes): Option<nat> {
    if |b| >= 2 && b[0] == 48 && (b[1] == 120 || b[1] == 88) then
      Digits(if |b| > 2 && b[2] == 95 then b[3..] else b[2..], 0, false)
    else Digits(b, 0, false)
  }

  /** `int(b, 16)`; None is its ValueError. */
  function ParseHex(b: bytes): Option<int> {
    var t := StripRight(StripLeft(b));
    if t != [] && (t[0] == 43 || t[0] == 45) then
      var n :- Unsigned(t[1..]);
      Some((if t[0] == 45 then -1 else 1) * n)
    else Unsigned(t)
  }

  predicate HexDigits(b: bytes) {
    forall i :: 0 <= i < |b| ==> 48 <= b[i] <= 57 || 97 <= b[i] <= 102
  }

  function ValueOf(b: bytes, start: nat): nat
    requires HexDigits(b)
  {
    if b == [] then start else ValueOf(b[1..], 16 * start + DigitValue(b[0]).value)
  }

  lemma {:induction false} ValueOfAppend(b: bytes, start: nat, c: bytes)
    requires HexDigits(b) && HexDigits(c)
    ensures HexDigits(b + c) && ValueOf(b + c, start) == ValueOf(c, ValueOf(b, start))
    decreases |b|
  {
    if b == [] {
      assert b + c == c;
    } else {
      assert (b + c)[1..] == b[1..] + c;
      ValueOfAppend(b[1..], 16 * start + DigitValue(b[0]).value, c);
    }
  }

  lemma {:induction false} HexValue(n: nat)
    ensures HexDigits(Hex(n)) && ValueOf(Hex(n), 0) == n
  {
    if n < 16 {
    } else {
      HexValue(n / 16);
      var last := [HexDigit(n % 16)];
      ValueOfAppend(Hex(n / 16), 0, last);
      assert ValueOf(last, n / 16) == n;
    }
  }

  lemma {:induction false} DigitsValue(b: bytes, start: nat, afterDigit: bool)
    requires HexDigits(b) && (b != [] || afterDigit)
    ensures Digits(b, start, afterDigit) == Some(ValueOf(b, start))
    decreases |b|
  {
    if b != [] {
      DigitsValue(b[1..], 16 * start + DigitValue(b[0]).value, true);
    }
  }

  /** Parsing undoes printing, line end included. */
  lemma ParseHexOfHex(n: nat)
    ensures ParseHex(Hex(n) + CRLF) == Some(n)
  {
    var h := Hex(n);
    var line := h + CRLF;
    HexValue(n);
    assert line[0] == h[0] && StripLeft(line) == line;
    assert line[..|line| - 1] == h + [CR] && (h + [CR])[..|h|] == h;
    assert StripRight(line) == StripRight(h + [CR]) == StripRight(h) == h;
    DigitsValue(h, 0, false);
  }

  // ---------- sender ----------

  /** An element of a request body: bytes, or text that is sent in UTF-8. */
  datatype Piece = Raw(raw: bytes) | Words(words: string)

  function Encoded(p: Piece): bytes {
    match p
    case Raw(b) => b
    case Words(s) => Utf8(s)
  }

  /** The bytes that `f` gives for each piece, one after another. */
  function Concat(f: Piece -> bytes, ps: seq<Piece>): bytes {
    if ps == [] then [] else f(ps[0]) + Concat(f, ps[1..])
  }

  function Body(ps: seq<Piece>): bytes {
    Concat(Encoded, ps)
  }

  function Frame(b: bytes): bytes {
    Hex(|b|) + CRLF + b + CRLF
  }

  function FrameOf(p: Piece): bytes {
    if Encoded(p) == [] then [] else Frame(Encoded(p))
  }

  function Frames(ps: seq<Piece>): bytes {
    Concat(FrameOf, ps)
  }

  const LAST: bytes := [48] + CRLF + CRLF

  /** What is sent for a body: with chunked framing, or as it is. */
  function Sent(ps: seq<Piece>, chunked: bool): bytes {
    if chunked then Frames(ps) + LAST else Body(ps)
  }

  lemma {:induction false} ConcatAppend(f: Piece -> bytes, ps: seq<Piece>, p: Piece)
    ensures Concat(f, ps + [p]) == Concat(f, ps) + f(p)
  {
    if ps == [] {
      assert ps + [p] == [p] && [p][1..] == [];
    } else {
      assert (ps + [p])[1..] == ps[1..] + [p];
      ConcatAppend(f, ps[1..], p);
    }
  }

  /** The sending loop: empty pieces are skipped, because an empty chunk would end the body. */
  method Request(pieces: seq<Piece>, chunked: bool) returns (wire: bytes)
    ensures wire == Sent(pieces, chunked)
  {
    wire := [];
    for i := 0 to |pieces|
      invariant wire == if chunked then Frames(pieces[..i]) else Body(pieces[..i])
    {
      assert pieces[..i + 1] == pieces[..i] + [pieces[i]];
      ConcatAppend(FrameOf, pieces[..i], pieces[i]);
      ConcatAppend(Encoded, pieces[..i], pieces[i]);
      var piece := pieces[i];
      if (match piece case Raw(b) => b == [] case Words(s) => s == "") {
        continue;
      }
      var chunk := Encoded(piece);
      if chunked {
        wire := wire + (Hex(|chunk|) + CRLF + chunk + CRLF);
      } else {
        wire := wire + chunk;
      }
    }
    assert pieces[..|pieces|] == pieces;
    if chunked {
      wire := wire + LAST;
    }
  }

  // ---------- reader ----------

  datatype ChunkError = InvalidLength | EndedPrematurely | Incomplete | NegativeRead

  function BeforeSemicolon(b: bytes): bytes {
    if b == [] || b[0] == SEMICOLON then [] else [b[0]] + BeforeSemicolon(b[1..])
  }

  /** The size line of a chunk: the size, and the bytes after the line. */
  function ReadSize(b: bytes): Result<(int, bytes), ChunkError> {
    var line := BeforeSemicolon(b[..LineLength(b)]);
    match ParseHex(line)
    case Some(n) => Ok((n, b[LineLength(b)..]))
    case None => Err(if line != [] then InvalidLength else EndedPrematurely)
  }

  /** Exactly `n` bytes, or an error; -1 asks for everything. */
  function SafeRead(b: bytes, n: int): Result<(bytes, bytes), ChunkError> {
    if n < -1 then Err(NegativeRead)
    else if n == -1 then Ok((b, []))
    else if |b| < n then Err(Incomplete)
    else Ok((b[..n], b[n..]))
  }

  /** The chunk's last bytes, and the CRLF after it. */
  function FinishChunk(b: bytes, n: int): Result<(bytes, bytes), ChunkError> {
    var (data, rest) :- SafeRead(b, n);
    var (_, rest') :- SafeRead(rest, 2);
    Ok((data, rest'))
  }

  datatype Step = Step(data: bytes, left: Option<int>, rest: bytes)

  /** One read inside a chunk of which `left` bytes remain. */
  function HandleChunk(b: bytes, left: int, amt: Option<nat>): (r: Result<Step, ChunkError>)
    requires left != 0 && amt != Some(0)
    ensures r.Ok? ==> |r.value.rest| < |b|
  {
    if amt.Some? && amt.value < left then
      var (data, rest) :- SafeRead(b, amt.value);
      Ok(Step(data, Some(left - amt.value), rest))
    else
      var (data, rest) :- FinishChunk(b, left);
      Ok(Step(data, None, rest))
  }

  /** What follows the last chunk is read up to an empty line. */
  function SkipTrailer(b: bytes): bytes {
    var n := LineLength(b);
    if b == [] then b else if b[..n] == CRLF then b[n..] else SkipTrailer(b[n..])
  }

  /** Everything one call yields, and how it ends: with the bytes left on the connection, or in an error. */
  datatype Reading = Reading(pieces: seq<bytes>, end: Result<bytes, ChunkError>)

  function Yield(data: bytes, r: Reading): Reading {
    if data == [] then r else r.(pieces := [data] + r.pieces)
  }

  /** The size line is read only when no chunk is open. */
  function NextSize(b: bytes, left: Option<int>): Result<(int, bytes), ChunkError> {
    if left.Some? then Ok((left.value, b)) else ReadSize(b)
  }

  function ReadChunks(b: bytes, left: Option<int>, amt: Option<nat>): Reading
    requires amt != Some(0)
    decreases |b|
  {
    match NextSize(b, left)
    case Err(e) => Reading([], Err(e))
    case Ok((n, rest)) =>
      if n == 0 then Reading([], Ok(SkipTrailer(rest)))
      else
        match HandleChunk(rest, n, amt)
        case Err(e) => Reading([], Err(e))
        case Ok(step) => Yield(step.data, ReadChunks(step.rest, step.left, amt))
  }

  // ---------- reading does not depend on the read size ----------

  ghost predicate PieceOk(p: bytes, amt: Option<nat>) {
    p != [] && (amt.Some? ==> |p| <= amt.value)
  }

  ghost predicate PiecesOk(pieces: seq<bytes>, amt: Option<nat>) {
    forall i :: 0 <= i < |pieces| ==> PieceOk(pieces[i], amt)
  }

  lemma SafeReadSplit(b: bytes, n: int, a: nat)
    requires 0 < a < n && a <= |b|
    ensures var all, part := FinishChunk(b, n), FinishChunk(b[a..], n - a);
            if all.Err? then part == Err(all.error)
            else |all.value.0| == n && part == Ok((all.value.0[a..], all.value.1)) && b[..a] == all.value.0[..a]
  {
    if |b| >= n {
      assert b[a..][n - a..] == b[n..];
      assert b[a..][..n - a] == b[..n][a..];
    }
  }

  lemma SameChunk(b: bytes, n: int)
    requires n != 0
    ensures var r := FinishChunk(b, n);
            ReadChunks(b, Some(n), None) ==
            if r.Err? then Reading([], Err(r.error)) else Yield(r.value.0, ReadChunks(r.value.1, None, None))
  {
  }

  /** Two readings that differ in that one has already yielded `lead`. */
  ghost predicate Behind(lead: bytes, all: Reading, rest: Reading) {
    && all.end == rest.end
    && Join(all.pieces) <= lead + Join(rest.pieces)
    && (all.end.Ok? ==> Join(all.pieces) == lead + Join(rest.pieces))
  }

  lemma YieldBehind(data: bytes, a: nat, tail: Reading)
    requires a <= |data|
    ensures Behind(data[..a], Yield(data, tail), Yield(data[a..], tail))
  {
    JoinYield(data, tail);
    JoinYield(data[a..], tail);
    assert data + Join(tail.pieces) == data[..a] + (data[a..] + Join(tail.pieces));
  }

  /** Reading the rest of a chunk whole, from its start or after `a` bytes of it were read. */
  lemma WholeSplit(b: bytes, n: int, a: nat)
    requires 0 < a < n && a <= |b|
    ensures Behind(b[..a], ReadChunks(b, Some(n), None), ReadChunks(b[a..], Some(n - a), None))
  {
    SafeReadSplit(b, n, a);
    SameChunk(b, n);
    SameChunk(b[a..], n - a);
    var whole := FinishChunk(b, n);
    if whole.Ok? {
      YieldBehind(whole.value.0, a, ReadChunks(whole.value.1, None, None));
    }
  }

  lemma JoinYield(data: bytes, r: Reading)
    ensures Join(Yield(data, r).pieces) == data + Join(r.pieces)
  {
    if data != [] {
      assert ([data] + r.pieces)[1..] == r.pieces;
    }
  }

  lemma YieldOk(data: bytes, r: Reading, amt: Option<nat>)
    requires PiecesOk(r.pieces, amt) && (amt.Some? ==> |data| <= amt.value)
    ensures PiecesOk(Yield(data, r).pieces, amt)
  {
  }

  lemma ChunkPart(b: bytes, n: int, a: nat)
    requires n != 0 && a > 0
    ensures var r := HandleChunk(b, n, Some(a));
            ReadChunks(b, Some(n), Some(a)) ==
            if r.Err? then Reading([], Err(r.error))
            else Yield(r.value.data, ReadChunks(r.value.rest, r.value.left, Some(a)))
  {
  }

  lemma SizeFirst(b: bytes, left: Option<int>, amt: Option<nat>)
    requires amt != Some(0)
    ensures var r := NextSize(b, left);
            ReadChunks(b, left, amt) ==
            if r.Err? then Reading([], Err(r.error)) else ReadChunks(r.value.1, Some(r.value.0), amt)
  {
  }

  /**
   On any bytes at all, reading in pieces of at most `a` bytes ends as reading whole chunks
   does, with the same bytes when it succeeds and with no fewer when it fails.
   */
  lemma {:induction false} AmountIrrelevant(b: bytes, left: Option<int>, a: nat)
    requires a > 0
    ensures var part, whole := ReadChunks(b, left, Some(a)), ReadChunks(b, left, None);
            Behind([], whole, part) && PiecesOk(part.pieces, Some(a))
    decreases |b|, 1
  {
    SizeFirst(b, left, Some(a));
    SizeFirst(b, left, None);
    var size := NextSize(b, left);
    if size.Ok? && size.value.0 != 0 {
      InsideChunk(size.value.1, size.value.0, a);
    }
  }

  /** Where reading fails the bytes can differ: of a chunk of three bytes that is cut after two. */
  lemma CutChunk(x: byte, y: byte)
    ensures ReadChunks([x, y], Some(3), None) == Reading([], Err(Incomplete))
    ensures ReadChunks([x, y], Some(3), Some(1)) == Reading([[x], [y]], Err(Incomplete))
  {
    assert [x, y][..1] == [x] && [x, y][1..] == [y] && [y][..1] == [y] && [y][1..] == [];
    assert ReadChunks([], Some(1), Some(1)) == Reading([], Err(Incomplete));
    assert ReadChunks([y], Some(2), Some(1)) == Yield([y], Reading([], Err(Incomplete)));
  }

  lemma BehindTogether(lead: bytes, all: Reading, middle: Reading, rest: Reading)
    requires Behind(lead, all, middle) && Behind([], middle, rest)
    ensures Behind([], all, Yield(lead, rest))
  {
    JoinYield(lead, rest);
    var m, r := Join(middle.pieces), Join(rest.pieces);
    assert [] + r == r && [] + (lead + r) == lead + r;
    assert lead + m <= lead + r;
  }

  lemma YieldBoth(data: bytes, all: Reading, rest: Reading)
    requires Behind([], all, rest)
    ensures Behind([], Yield(data, all), Yield(data, rest))
  {
    JoinYield(data, all);
    JoinYield(data, rest);
    var a, r := Join(all.pieces), Join(rest.pieces);
    assert [] + r == r && [] + (data + r) == data + r;
    assert data + a <= data + r;
  }

  lemma {:induction false} InsideChunk(b: bytes, n: int, a: nat)
    requires a > 0 && n != 0
    ensures var part, whole := ReadChunks(b, Some(n), Some(a)), ReadChunks(b, Some(n), None);
            Behind([], whole, part) && PiecesOk(part.pieces, Some(a))
    decreases |b|, 0
  {
    ChunkPart(b, n, a);
    var step := HandleChunk(b, n, Some(a));
    if step.Ok? {
      var Step(data, left, rest) := step.value;
      var tail := ReadChunks(rest, left, Some(a));
      AmountIrrelevant(rest, left, a);
      YieldOk(data, tail, Some(a));
      var whole := ReadChunks(rest, left, None);
      if a < n {
        WholeSplit(b, n, a);
        BehindTogether(data, ReadChunks(b, Some(n), None), whole, tail);
      } else {
        SameChunk(b, n);
        YieldBoth(data, whole, tail);
      }
    } else {
      SameChunk(b, n);
    }
  }

  // ---------- reading undoes framing ----------

  lemma {:induction false} LineOf(a: bytes, b: bytes)
    requires LF !in a
    ensures LineLength(a + CRLF + b) == |a| + 2
  {
    if a == [] {
      assert (a + CRLF + b)[1..][0] == LF;
    } else {
      assert (a + CRLF + b)[1..] == a[1..] + CRLF + b;
      LineOf(a[1..], b);
    }
  }

  lemma {:induction false} NoSemicolon(b: bytes)
    requires SEMICOLON !in b
    ensures BeforeSemicolon(b) == b
  {
    if b != [] {
      NoSemicolon(b[1..]);
    }
  }

  lemma ReadSizeOf(n: nat, b: bytes)
    ensures ReadSize(Hex(n) + CRLF + b) == Ok((n, b))
  {
    var line := Hex(n) + CRLF;
    HexValue(n);
    LineOf(Hex(n), b);
    assert (line + b)[..|line|] == line && (line + b)[|line|..] == b;
    NoSemicolon(line);
    ParseHexOfHex(n);
  }

  lemma FinishFrame(data: bytes, b: bytes)
    ensures FinishChunk(data + CRLF + b, |data|) == Ok((data, b))
  {
    var all := data + CRLF + b;
    assert all[..|data|] == data && all[|data|..] == CRLF + b;
    assert (CRLF + b)[2..] == b;
  }

  lemma ReadFrame(data: bytes, b: bytes)
    requires data != []
    ensures ReadChunks(Frame(data) + b, None, None) == Yield(data, ReadChunks(b, None, None))
  {
    var rest := data + CRLF + b;
    assert Frame(data) + b == Hex(|data|) + CRLF + rest;
    ReadSizeOf(|data|, rest);
    SizeFirst(Frame(data) + b, None, None);
    FinishFrame(data, b);
    SameChunk(rest, |data|);
  }

  lemma ReadLast(b: bytes)
    ensures ReadChunks(LAST + b, None, None) == Reading([], Ok(b))
  {
    assert Hex(0) == [48];
    assert LAST + b == Hex(0) + CRLF + (CRLF + b);
    ReadSizeOf(0, CRLF + b);
    SizeFirst(LAST + b, None, None);
    LineOf([], b);
    assert [] + CRLF + b == CRLF + b && (CRLF + b)[..2] == CRLF && (CRLF + b)[2..] == b;
  }

  lemma {:induction false} ReadFrames(ps: seq<Piece>, b: bytes)
    ensures var r := ReadChunks(Frames(ps) + LAST + b, None, None);
            r.end == Ok(b) && Join(r.pieces) == Body(ps)
  {
    if ps == [] {
      assert Frames(ps) + LAST + b == LAST + b;
      ReadLast(b);
    } else {
      var tail := Frames(ps[1..]) + LAST + b;
      assert Frames(ps) + LAST + b == FrameOf(ps[0]) + tail;
      ReadFrames(ps[1..], b);
      var data := Encoded(ps[0]);
      if data == [] {
        assert FrameOf(ps[0]) + tail == tail;
      } else {
        ReadFrame(data, tail);
        JoinYield(data, ReadChunks(tail, None, None));
      }
    }
  }

  /**
   Chunked round trip: for every sequence of body pieces, empty ones included, every read size
   and whatever follows on the connection, the reader yields the body in non-empty pieces of at
   most that size and stops exactly at the end of the message.
   */
  lemma ChunkedRoundTrip(ps: seq<Piece>, amt: Option<nat>, more: bytes)
    requires amt != Some(0)
    ensures var r := ReadChunks(Sent(ps, true) + more, None, amt);
            r.end == Ok(more) && Join(r.pieces) == Body(ps) && PiecesOk(r.pieces, amt)
  {
    ReadFrames(ps, more);
    if amt.Some? {
      AmountIrrelevant(Sent(ps, true) + more, None, amt.value);
    } else {
      AllNonEmpty(Sent(ps, true) + more, None);
    }
  }

  lemma {:induction false} AllNonEmpty(b: bytes, left: Option<int>)
    ensures PiecesOk(ReadChunks(b, left, None).pieces, None)
    decreases |b|
  {
    SizeFirst(b, left, None);
    var size := NextSize(b, left);
    if size.Ok? && size.value.0 != 0 {
      SameChunk(size.value.1, size.value.0);
      var r := FinishChunk(size.value.1, size.value.0);
      if r.Ok? {
        AllNonEmpty(r.value.1, None);
        YieldOk(r.value.0, ReadChunks(r.value.1, None, None), None);
      }
    }
  }
}
