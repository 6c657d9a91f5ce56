/** The chunked reader as the response runs it, with the chunk it is in kept in `chunkLeft` between calls. */
module ChunkedReader {
  import opened Outcomes
  import opened Bytes
  import opened ByteFiles
  import opened ChunkedCodec

  class ChunkedResponse {
    const fp: ByteFile
    var chunkLeft: Option<int>
    var closed: bool

    constructor (fp: ByteFile)
      ensures this.fp == fp && chunkLeft == None && !closed
    {
      this.fp, chunkLeft, closed := fp, None, false;
    }

    method ReadLine() returns (line: bytes)
      requires fp.Valid()
      modifies fp
      ensures fp.Valid()
      ensures var b := old(fp.Rest()); line == b[..LineLength(b)] && fp.Rest() == b[LineLength(b)..]
    {
      ghost var b := fp.Rest();
      line := fp.Read(LineLength(fp.data[fp.pos..]));
      assert b == line + fp.Rest();
    }

    /** `_safe_read`: exactly `n` bytes; -1 reads everything. */
    method ReadExactly(n: int) returns (r: Result<bytes, ChunkError>)
      requires fp.Valid()
      modifies fp
      ensures fp.Valid()
      ensures match SafeRead(old(fp.Rest()), n)
              case Err(e) => r == Err(e)
              case Ok(t) => r == Ok(t.0) && fp.Rest() == t.1
    {
      ghost var b := fp.Rest();
      if n < -1 {
        return Err(NegativeRead);
      }
      var data := fp.Read(if n == -1 then |fp.data| else n);
      assert b == data + fp.Rest();
      assert data == b[..|data|] && fp.Rest() == b[|data|..];
      assert |data| == |b| ==> data == b && fp.Rest() == [];
      if |data| < n {
        return Err(ChunkError.Incomplete);
      }
      return Ok(data);
    }

    method UpdateChunkLength() returns (error: Option<ChunkError>)
      requires fp.Valid()
      modifies this, fp
      ensures fp.Valid()
      ensures match NextSize(old(fp.Rest()), old(chunkLeft))
              case Err(e) => error == Some(e) && closed
              case Ok(t) => error == None && chunkLeft == Some(t.0) && fp.Rest() == t.1 && closed == old(closed)
    {
      if chunkLeft.Some? {
        return None;
      }
      var line := ReadLine();
      line := BeforeSemicolon(line);
      var n := ParseHex(line);
      match n {
        case Some(size) =>
          chunkLeft := Some(size);
          return None;
        case None =>
          closed := true;
          return Some(if line != [] then InvalidLength else EndedPrematurely);
      }
    }

    /** The rest of the open chunk, and the CRLF after it. */
    method TakeRest() returns (r: Result<bytes, ChunkError>)
      requires fp.Valid() && chunkLeft.Some?
      modifies this, fp
      ensures fp.Valid() && closed == old(closed)
      ensures match FinishChunk(old(fp.Rest()), old(chunkLeft).value)
              case Err(e) => r == Err(e)
              case Ok(t) => r == Ok(t.0) && chunkLeft == None && fp.Rest() == t.1
    {
      var data :- ReadExactly(chunkLeft.value);
      var _ :- ReadExactly(2);
      chunkLeft := None;
      return Ok(data);
    }

    method HandleChunk(amt: Option<nat>) returns (r: Result<bytes, ChunkError>)
      requires fp.Valid() && chunkLeft.Some? && chunkLeft != Some(0) && amt != Some(0)
      modifies this, fp
      ensures fp.Valid() && closed == old(closed)
      ensures match ChunkedCodec.HandleChunk(old(fp.Rest()), old(chunkLeft).value, amt)
              case Err(e) => r == Err(e)
              case Ok(step) => r == Ok(step.data) && chunkLeft == step.left && fp.Rest() == step.rest
    {
      if amt.None? {
        r := TakeRest();
      } else if amt.value < chunkLeft.value {
        var data :- ReadExactly(amt.value);
        chunkLeft := Some(chunkLeft.value - amt.value);
        return Ok(data);
      } else if amt.value == chunkLeft.value {
        var data :- ReadExactly(amt.value);
        var _ :- ReadExactly(2);
        chunkLeft := None;
        return Ok(data);
      } else {
        r := TakeRest();
      }
    }

    /** Lines after the last chunk are discarded up to an empty one. */
    method DiscardTrailer()
      requires fp.Valid()
      modifies fp
      ensures fp.Valid() && fp.Rest() == SkipTrailer(old(fp.Rest()))
    {
      var line := [0];
      while line != [] && line != CRLF
        invariant fp.Valid()
        invariant line != [] && line != CRLF ==> SkipTrailer(fp.Rest()) == SkipTrailer(old(fp.Rest()))
        invariant line == [] || line == CRLF ==> fp.Rest() == SkipTrailer(old(fp.Rest()))
        decreases line != [], |fp.Rest()|
      {
        line := ReadLine();
      }
    }

    /** `read_chunked(amt)`: what it yields, and the error it raises, if any. */
    method ReadChunked(amt: Option<int>) returns (pieces: seq<bytes>, error: Option<ChunkError>)
      requires fp.Valid() && amt != Some(0)
      modifies this, fp
      ensures fp.Valid()
      ensures var r := ReadChunks(old(fp.Rest()), old(chunkLeft), Limit(amt));
              && pieces == r.pieces
              && error == (if r.end.Err? then Some(r.end.error) else None)
              && (r.end.Ok? ==> chunkLeft == Some(0) && fp.Rest() == r.end.value)
    {
      pieces := [];
      var limit := Limit(amt);
      ghost var all := ReadChunks(fp.Rest(), chunkLeft, limit);
      while true
        invariant fp.Valid()
        invariant all == After(pieces, ReadChunks(fp.Rest(), chunkLeft, limit))
        decreases |fp.Rest()|
      {
        SizeFirst(fp.Rest(), chunkLeft, limit);
        error := UpdateChunkLength();
        if error.Some? {
          return;
        }
        if chunkLeft == Some(0) {
          break;
        }
        var chunk := HandleChunk(limit);
        if chunk.Err? {
          return pieces, Some(chunk.error);
        }
        AfterYield(pieces, chunk.value, ReadChunks(fp.Rest(), chunkLeft, limit));
        if chunk.value != [] {
          pieces := pieces + [chunk.value];
        }
      }
      DiscardTrailer();
    }
  }

  /** A reading that goes on after some pieces. */
  function After(pieces: seq<bytes>, r: Reading): Reading {
    r.(pieces := pieces + r.pieces)
  }

  lemma AfterYield(pieces: seq<bytes>, data: bytes, r: Reading)
    ensures After(pieces, Yield(data, r)) == After(if data == [] then pieces else pieces + [data], r)
  {
    assert data != [] ==> pieces + ([data] + r.pieces) == pieces + [data] + r.pieces;
  }

  /** Negative sizes are treated like None. */
  function Limit(amt: Option<int>): Option<nat> {
    if amt.Some? && amt.value >= 0 then Some(amt.value) else None
  }
}
