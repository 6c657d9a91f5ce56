/**
 Chunked messages as any sender may write them (section 7.1 of RFC 9112): sizes in either case and with leading
 zeros, extensions, trailer fields. Bytes are given by their codes.
 */
module ChunkedMessages {
  import opened Outcomes
  import opened Bytes
  import opened ChunkedCodec

  // ---------- size lines ----------

  predicate HexByte(c: byte) {
    48 <= c <= 57 || 65 <= c <= 70 || 97 <= c <= 102
  }

  function ByteValue(c: byte): nat
    requires HexByte(c)
  {
    if c <= 57 then c - 48 else if c <= 70 then c - 55 else c - 87
  }

  predicate AllHex(b: bytes) {
    forall i :: 0 <= i < |b| ==> HexByte(b[i])
  }

  /** The number that digits of either case spell. */
  function SizeOf(digits: bytes): nat
    requires AllHex(digits)
  {
    if digits == [] then 0
    else
      var n := |digits| - 1;
      16 * SizeOf(digits[..n]) + ByteValue(digits[n])
  }

  /** Spaces and tabs. */
  predicate AllPad(b: bytes) {
    forall i :: 0 <= i < |b| ==> b[i] == 32 || b[i] == 9
  }

  predicate IsExtension(b: bytes) {
    b == [] || (b[0] == 59 && 10 !in b)
  }

  lemma {:induction false} DigitsSpell(digits: bytes, more: bytes, value: nat, afterDigit: bool)
    requires AllHex(digits) && digits != []
    ensures Digits(digits + more, value, afterDigit) == Digits(more, value * Power16(|digits|) + SizeOf(digits), true)
    decreases |digits|
  {
    var n := |digits| - 1;
    var last := [digits[n]];
    assert digits + more == digits[..n] + (last + more) && (last + more)[1..] == more;
    assert DigitValue(digits[n]) == Some(ByteValue(digits[n]));
    if n == 0 {
      assert digits[..0] + (last + more) == last + more;
      assert SizeOf([]) == 0 && Power16(1) == 16 * Power16(0);
    } else {
      DigitsSpell(digits[..n], last + more, value, afterDigit);
      Shifted(value, Power16(n), SizeOf(digits[..n]));
    }
  }

  function Power16(k: nat): nat {
    if k == 0 then 1 else 16 * Power16(k - 1)
  }

  lemma Shifted(value: nat, p: nat, rest: nat)
    ensures 16 * (value * p + rest) == value * (16 * p) + 16 * rest
  {
  }

  lemma UnsignedSize(digits: bytes)
    requires AllHex(digits) && digits != []
    ensures Unsigned(digits) == Some(SizeOf(digits))
  {
    DigitsSpell(digits, [], 0, false);
    assert digits + [] == digits;
    assert |digits| >= 2 ==> HexByte(digits[1]);
  }

  lemma {:induction false} StripTail(b: bytes, tail: bytes)
    requires b != [] && !IsBlank(b[|b| - 1]) && forall i :: 0 <= i < |tail| ==> IsBlank(tail[i])
    ensures StripRight(b + tail) == b
    decreases |tail|
  {
    if tail == [] {
      assert b + tail == b;
    } else {
      var n := |tail| - 1;
      assert (b + tail)[..|b + tail| - 1] == b + tail[..n];
      StripTail(b, tail[..n]);
    }
  }

  lemma ParseSize(digits: bytes, tail: bytes)
    requires AllHex(digits) && digits != [] && forall i :: 0 <= i < |tail| ==> IsBlank(tail[i])
    ensures ParseHex(digits + tail) == Some(SizeOf(digits))
  {
    var b := digits + tail;
    assert b[0] == digits[0] && HexByte(digits[0]) && HexByte(digits[|digits| - 1]);
    assert StripLeft(b) == b;
    StripTail(digits, tail);
    UnsignedSize(digits);
  }

  lemma {:induction false} UpToSemicolon(b: bytes, rest: bytes)
    requires 59 !in b
    ensures BeforeSemicolon(b) == b && BeforeSemicolon(b + ([59 as byte] + rest)) == b
  {
    if b == [] {
      assert b + ([59 as byte] + rest) == [59] + rest;
    } else {
      assert (b + ([59 as byte] + rest))[1..] == b[1..] + ([59 as byte] + rest);
      UpToSemicolon(b[1..], rest);
    }
  }

  lemma {:induction false} LineEnds(a: bytes, b: bytes)
    requires 10 !in a
    ensures LineLength(a + ([10 as byte] + b)) == |a| + 1
  {
    if a == [] {
      assert a + ([10 as byte] + b) == [10] + b;
    } else {
      assert (a + ([10 as byte] + b))[1..] == a[1..] + ([10 as byte] + b);
      LineEnds(a[1..], b);
    }
  }

  /** The size line of a chunk, its line end included; `cr` says whether that is CRLF or a bare LF. */
  function SizeLine(digits: bytes, pad: bytes, extension: bytes, cr: bool): bytes {
    digits + pad + extension + if cr then [13, 10] else [10]
  }

  predicate IsSizeLine(digits: bytes, pad: bytes, extension: bytes) {
    digits != [] && AllHex(digits) && AllPad(pad) && IsExtension(extension)
  }

  lemma SizeText(digits: bytes, pad: bytes, extension: bytes, cr: bool)
    requires IsSizeLine(digits, pad, extension)
    ensures ParseHex(BeforeSemicolon(SizeLine(digits, pad, extension, cr))) == Some(SizeOf(digits))
  {
    var line, end := SizeLine(digits, pad, extension, cr), if cr then [13 as byte, 10] else [10];
    var front := digits + pad;
    assert 59 !in front && 59 !in front + end;
    if extension == [] {
      assert line == digits + (pad + end) == front + end;
      UpToSemicolon(front + end, []);
      ParseSize(digits, pad + end);
    } else {
      assert line == front + ([59 as byte] + (extension[1..] + end));
      UpToSemicolon(front, extension[1..] + end);
      ParseSize(digits, pad);
    }
  }

  lemma SizeRead(digits: bytes, pad: bytes, extension: bytes, cr: bool, b: bytes)
    requires IsSizeLine(digits, pad, extension)
    ensures ReadSize(SizeLine(digits, pad, extension, cr) + b) == Ok((SizeOf(digits), b))
  {
    var line := SizeLine(digits, pad, extension, cr);
    var a := line[..|line| - 1];
    NoLineFeed(digits, pad, extension, cr);
    assert line + b == a + ([10 as byte] + b);
    LineEnds(a, b);
    assert (line + b)[..|line|] == line && (line + b)[|line|..] == b;
    SizeText(digits, pad, extension, cr);
  }

  lemma NoLineFeed(digits: bytes, pad: bytes, extension: bytes, cr: bool)
    requires IsSizeLine(digits, pad, extension)
    ensures var line := SizeLine(digits, pad, extension, cr);
            10 !in line[..|line| - 1] && line[|line| - 1] == 10
  {
    var line := SizeLine(digits, pad, extension, cr);
    var a := digits + pad + extension + if cr then [13] else [];
    assert line[..|line| - 1] == a;
    assert 10 !in digits && 10 !in pad && 10 !in extension;
  }

  // ---------- messages ----------

  datatype Chunk = Chunk(digits: bytes, pad: bytes, extension: bytes, cr: bool, data: bytes)

  predicate IsChunk(c: Chunk) {
    IsSizeLine(c.digits, c.pad, c.extension) && SizeOf(c.digits) == |c.data| > 0
  }

  predicate AreChunks(cs: seq<Chunk>) {
    forall i :: 0 <= i < |cs| ==> IsChunk(cs[i])
  }

  function ChunkBytes(c: Chunk): bytes {
    SizeLine(c.digits, c.pad, c.extension, c.cr) + (c.data + [13, 10])
  }

  function ChunksBytes(cs: seq<Chunk>): bytes {
    if cs == [] then [] else ChunkBytes(cs[0]) + ChunksBytes(cs[1..])
  }

  function Datas(cs: seq<Chunk>): seq<bytes> {
    if cs == [] then [] else [cs[0].data] + Datas(cs[1..])
  }

  /** Trailer fields: lines that are not empty, without their line feeds. */
  predicate AreFields(fields: seq<bytes>) {
    forall i :: 0 <= i < |fields| ==> 10 !in fields[i] && fields[i] != [13]
  }

  function FieldsBytes(fields: seq<bytes>): bytes {
    if fields == [] then [] else fields[0] + [10] + FieldsBytes(fields[1..])
  }

  lemma {:induction false} FieldsSkipped(fields: seq<bytes>, rest: bytes)
    requires AreFields(fields)
    ensures SkipTrailer(FieldsBytes(fields) + ([13, 10] + rest)) == rest
    ensures SkipTrailer(FieldsBytes(fields)) == []
    decreases |fields|
  {
    if fields == [] {
      var b: bytes := [13, 10] + rest;
      assert FieldsBytes(fields) + b == b;
      assert b == [13] + ([10 as byte] + rest);
      LineEnds([13], rest);
      assert b[..2] == CRLF && b[2..] == rest;
    } else {
      var more := FieldsBytes(fields[1..]);
      FieldsSkipped(fields[1..], rest);
      FieldSkipped(fields[0], more + ([13, 10] + rest));
      FieldSkipped(fields[0], more);
      assert FieldsBytes(fields) + ([13, 10] + rest) == fields[0] + [10] + (more + ([13, 10] + rest));
    }
  }

  lemma FieldSkipped(field: bytes, b: bytes)
    requires 10 !in field && field != [13]
    ensures SkipTrailer(field + [10] + b) == SkipTrailer(b)
  {
    var all := field + [10] + b;
    assert all == field + ([10 as byte] + b);
    LineEnds(field, b);
    var n := |field| + 1;
    assert all[..n] == field + [10] && all[n..] == b;
    assert field == (field + [10])[..|field|];
  }

  lemma ChunkRead(c: Chunk, b: bytes)
    requires IsChunk(c)
    ensures ReadChunks(ChunkBytes(c) + b, None, None) == Yield(c.data, ReadChunks(b, None, None))
  {
    var rest := c.data + CRLF + b;
    assert ChunkBytes(c) + b == SizeLine(c.digits, c.pad, c.extension, c.cr) + rest;
    SizeRead(c.digits, c.pad, c.extension, c.cr, rest);
    SizeFirst(ChunkBytes(c) + b, None, None);
    FinishFrame(c.data, b);
    SameChunk(rest, |c.data|);
  }

  /** The last chunk: a size of zero, however written, with an extension or without. */
  lemma LastRead(digits: bytes, pad: bytes, extension: bytes, cr: bool, b: bytes)
    requires IsSizeLine(digits, pad, extension) && SizeOf(digits) == 0
    ensures ReadChunks(SizeLine(digits, pad, extension, cr) + b, None, None) == Reading([], Ok(SkipTrailer(b)))
  {
    SizeRead(digits, pad, extension, cr, b);
  }

  /** A whole message: its chunks, the last one, the trailer, and what follows on the connection. */
  function Message(cs: seq<Chunk>, last: bytes, fields: seq<bytes>, rest: bytes): bytes {
    ChunksBytes(cs) + (last + (FieldsBytes(fields) + ([13, 10] + rest)))
  }

  lemma YieldMore(data: bytes, datas: seq<bytes>, r: Reading)
    requires data != []
    ensures Yield(data, r.(pieces := datas + r.pieces)) == r.(pieces := [data] + datas + r.pieces)
  {
    assert [data] + (datas + r.pieces) == [data] + datas + r.pieces;
  }

  lemma {:induction false} ChunksRead(cs: seq<Chunk>, b: bytes)
    requires AreChunks(cs)
    ensures var r := ReadChunks(b, None, None);
            ReadChunks(ChunksBytes(cs) + b, None, None) == r.(pieces := Datas(cs) + r.pieces)
    decreases |cs|
  {
    if cs == [] {
      assert ChunksBytes(cs) + b == b;
      assert Datas(cs) + ReadChunks(b, None, None).pieces == ReadChunks(b, None, None).pieces;
    } else {
      ChunksRead(cs[1..], b);
      ChunkRead(cs[0], ChunksBytes(cs[1..]) + b);
      YieldMore(cs[0].data, Datas(cs[1..]), ReadChunks(b, None, None));
      assert ChunksBytes(cs) + b == ChunkBytes(cs[0]) + (ChunksBytes(cs[1..]) + b);
    }
  }

  /**
   Reading any message gives the data of its chunks and leaves what follows it; with sized reads the same bytes
   in pieces within the size.
   */
  lemma ReadsMessage(cs: seq<Chunk>, digits: bytes, pad: bytes, extension: bytes, cr: bool, fields: seq<bytes>,
                     rest: bytes, amt: nat)
    requires AreChunks(cs) && AreFields(fields)
    requires IsSizeLine(digits, pad, extension) && SizeOf(digits) == 0 && amt > 0
    ensures var b := Message(cs, SizeLine(digits, pad, extension, cr), fields, rest);
            var sized := ReadChunks(b, None, Some(amt));
            && ReadChunks(b, None, None) == Reading(Datas(cs), Ok(rest))
            && sized.end == Ok(rest) && Join(sized.pieces) == Join(Datas(cs)) && PiecesOk(sized.pieces, Some(amt))
  {
    var tail := FieldsBytes(fields) + ([13, 10] + rest);
    var last := SizeLine(digits, pad, extension, cr);
    LastRead(digits, pad, extension, cr, tail);
    FieldsSkipped(fields, rest);
    ChunksRead(cs, last + tail);
    assert Datas(cs) + [] == Datas(cs);
    AmountIrrelevant(Message(cs, last, fields, rest), None, amt);
    var sized := ReadChunks(Message(cs, last, fields, rest), None, Some(amt));
    assert [] + Join(sized.pieces) == Join(sized.pieces);
  }

  // ---------- what the sender writes ----------

  /** A printed size: lower case, without leading zeros. */
  lemma {:induction false} HexIs(n: nat)
    ensures AllHex(Hex(n)) && SizeOf(Hex(n)) == n && (n > 0 ==> Hex(n)[0] != 48)
    ensures forall i :: 0 <= i < |Hex(n)| ==> 48 <= Hex(n)[i] <= 57 || 97 <= Hex(n)[i] <= 102
  {
    if n < 16 {
      assert Hex(n)[..0] == [];
      assert SizeOf([]) == 0;
    } else {
      HexIs(n / 16);
      var h, last := Hex(n / 16), HexDigit(n % 16);
      assert Hex(n) == h + [last] && (h + [last])[..|h|] == h;
    }
  }

  /** The chunks of a body: one for each piece that is not empty. */
  function ChunksOf(ps: seq<Piece>): seq<Chunk> {
    if ps == [] then []
    else
      var data := Encoded(ps[0]);
      (if data == [] then [] else [Chunk(Hex(|data|), [], [], true, data)]) + ChunksOf(ps[1..])
  }

  lemma Grouped(a: bytes, b: bytes, c: bytes, d: bytes)
    ensures a + [] + [] + b + (c + d) == a + b + c + d
  {
  }

  lemma FrameIs(data: bytes)
    requires data != []
    ensures var c := Chunk(Hex(|data|), [], [], true, data);
            IsChunk(c) && Frame(data) == ChunkBytes(c)
  {
    HexIs(|data|);
    Grouped(Hex(|data|), [13, 10], data, [13, 10]);
  }

  lemma {:induction false} FramesAre(ps: seq<Piece>)
    ensures AreChunks(ChunksOf(ps)) && Frames(ps) == ChunksBytes(ChunksOf(ps))
  {
    if ps != [] {
      FramesAre(ps[1..]);
      var data := Encoded(ps[0]);
      if data == [] {
        assert ChunksOf(ps) == ChunksOf(ps[1..]);
      } else {
        FrameIs(data);
        assert ChunksOf(ps)[1..] == ChunksOf(ps[1..]);
      }
    }
  }

  /** What the sender puts on the wire is such a message, without extensions or trailer fields. */
  lemma SendsMessage(ps: seq<Piece>)
    ensures AreChunks(ChunksOf(ps)) && Sent(ps, true) == Message(ChunksOf(ps), [48, 13, 10], [], [])
  {
    FramesAre(ps);
    assert [48] + CRLF + CRLF == [48, 13, 10] + ([] + ([13, 10] + []));
  }

  // ---------- size lines that are none ----------

  predicate SizeByte(c: byte) {
    HexByte(c) || c == 32 || 9 <= c <= 13 || c == 43 || c == 45 || c == 95 || c == 120 || c == 88
  }

  lemma {:induction false} DigitsOnly(b: bytes, value: nat, afterDigit: bool)
    requires Digits(b, value, afterDigit).Some?
    ensures forall i :: 0 <= i < |b| ==> SizeByte(b[i])
    decreases |b|
  {
    if b != [] {
      var d := DigitValue(b[0]);
      DigitsOnly(b[1..], if b[0] == 95 then value else 16 * value + d.value, b[0] != 95);
      assert forall i :: 0 < i < |b| ==> b[i] == b[1..][i - 1];
    }
  }

  lemma UnsignedOnly(b: bytes)
    requires Unsigned(b).Some?
    ensures forall i :: 0 <= i < |b| ==> SizeByte(b[i])
  {
    if |b| >= 2 && b[0] == 48 && (b[1] == 120 || b[1] == 88) {
      var k := if |b| > 2 && b[2] == 95 then 3 else 2;
      DigitsOnly(b[k..], 0, false);
      assert forall i :: k <= i < |b| ==> b[i] == b[k..][i - k];
    } else {
      DigitsOnly(b, 0, false);
    }
  }

  lemma {:induction false} StrippedBytes(b: bytes, i: nat)
    requires i < |b| && !IsBlank(b[i])
    ensures b[i] in StripLeft(b)
  {
    if IsBlank(b[0]) {
      assert b[1..][i - 1] == b[i];
      StrippedBytes(b[1..], i - 1);
    }
  }

  lemma {:induction false} StrippedRight(b: bytes, i: nat)
    requires i < |b| && !IsBlank(b[i])
    ensures b[i] in StripRight(b)
    decreases |b|
  {
    if IsBlank(b[|b| - 1]) {
      assert b[..|b| - 1][i] == b[i];
      StrippedRight(b[..|b| - 1], i);
    }
  }

  /** A size with a byte in it that no number has closes the response. */
  lemma BadSize(size: bytes, i: nat, extension: bytes, b: bytes)
    requires i < |size| && !SizeByte(size[i]) && 59 !in size && 10 !in size && IsExtension(extension)
    ensures ReadSize(size + extension + [10] + b) == Err(InvalidLength)
  {
    var line := size + extension + [10];
    assert 10 !in size + extension;
    assert line + b == size + extension + ([10 as byte] + b);
    LineEnds(size + extension, b);
    assert (line + b)[..|line|] == line;
    var text := if extension == [] then size + [10] else size;
    if extension == [] {
      assert line == text;
      UpToSemicolon(text, []);
    } else {
      assert line == size + ([59 as byte] + (extension[1..] + [10]));
      UpToSemicolon(size, extension[1..] + [10]);
    }
    assert text[i] == size[i];
    NotANumber(text, i);
  }

  lemma NotANumber(text: bytes, i: nat)
    requires i < |text| && !SizeByte(text[i])
    ensures ParseHex(text) == None
  {
    StrippedBytes(text, i);
    var left := StripLeft(text);
    var j :| 0 <= j < |left| && left[j] == text[i];
    StrippedRight(left, j);
    var t := StripRight(left);
    var k :| 0 <= k < |t| && t[k] == text[i];
    if Unsigned(t).Some? {
      UnsignedOnly(t);
    }
    assert k > 0 ==> t[1..][k - 1] == t[k];
    if Unsigned(t[1..]).Some? {
      UnsignedOnly(t[1..]);
    }
  }

  /** A connection that ends where a size line should be. */
  lemma NothingThere()
    ensures ReadSize([]) == Err(EndedPrematurely)
  {
  }
}
