/**
 Sized reads of a response body: whatever the sizes of the network's reads and of the decoder's
 output, `read(amt)` cuts one flat decoded stream into pieces of exactly `amt` bytes.
 */
module BufferedBody {
  import opened Outcomes
  import opened Bytes

  datatype QueueError = EmptyBuffer | NegativeCount

  /** A queue of bytes kept as the pieces that were put in. */
  class BytesQueueBuffer {
    var buffer: seq<bytes>
    var size: nat

    ghost predicate Valid()
      reads this
    {
      size == |Join(buffer)|
    }

    ghost function Contents(): bytes
      reads this
    {
      Join(buffer)
    }

    constructor ()
      ensures Valid() && Contents() == []
    {
      buffer, size := [], 0;
    }

    method Put(data: bytes)
      requires Valid()
      modifies this
      ensures Valid() && Contents() == old(Contents()) + data && buffer != []
    {
      JoinAppend(buffer, data);
      buffer := buffer + [data];
      size := size + |data|;
    }

    /** The first `n` bytes, or all there are; asking an empty queue for more than none is an error. */
    method Get(n: int) returns (r: Result<bytes, QueueError>)
      requires Valid()
      modifies this
      ensures Valid()
      ensures n == 0 ==> r == Ok([]) && buffer == old(buffer)
      ensures n != 0 && old(buffer) == [] ==> r == Err(EmptyBuffer) && buffer == []
      ensures n < 0 && old(buffer) != [] ==> r == Err(NegativeCount) && buffer == old(buffer)
      ensures n > 0 && old(buffer) != [] ==>
                r.Ok? && r.value + Contents() == old(Contents())
                && |r.value| == if n <= |old(Contents())| then n else |old(Contents())|
    {
      if n == 0 {
        return Ok([]);
      } else if buffer == [] {
        return Err(EmptyBuffer);
      } else if n < 0 {
        return Err(NegativeCount);
      }
      var fetched, ret: bytes := 0, [];
      while fetched < n
        invariant Valid() && |ret| == fetched <= n && ret + Contents() == old(Contents())
        invariant buffer != []
        decreases |buffer|
      {
        var remaining := n - fetched;
        var chunk := buffer[0];
        buffer := buffer[1..];
        if remaining < |chunk| {
          ret := ret + chunk[..remaining];
          buffer := [chunk[remaining..]] + buffer;
          size := size - remaining;
          break;
        }
        ret := ret + chunk;
        size := size - |chunk|;
        fetched := fetched + |chunk|;
        if buffer == [] {
          break;
        }
      }
      return Ok(ret);
    }
  }

  /**
   A streaming decoder, given by all it has put out after any input: it never takes output
   back, and has nothing to flush at the end.
   */
  ghost predicate Streaming(decoder: bytes -> bytes) {
    decoder([]) == [] && forall a: bytes, b: bytes :: Extends(decoder, a, b)
  }

  ghost predicate Extends(decoder: bytes -> bytes, a: bytes, b: bytes) {
    decoder(a) <= decoder(a + b)
  }

  /** What successive reads of the given sizes return of a stream that is at `from`. */
  function Cuts(stream: bytes, from: nat, amts: seq<nat>): seq<bytes>
    requires from <= |stream|
    decreases |amts|
  {
    if amts == [] then []
    else
      var to := if from + amts[0] <= |stream| then from + amts[0] else |stream|;
      [stream[from..to]] + Cuts(stream, to, amts[1..])
  }

  lemma NextCut(stream: bytes, from: nat, to: nat, amts: seq<nat>, i: nat, out: seq<bytes>, piece: bytes)
    requires from <= to <= |stream| && i < |amts| && piece == stream[from..to]
    requires to - from == amts[i] || (to - from < amts[i] && to == |stream|)
    ensures out + Cuts(stream, from, amts[i..]) == out + [piece] + Cuts(stream, to, amts[i + 1..])
  {
    assert amts[i..][0] == amts[i] && amts[i..][1..] == amts[i + 1..];
  }

  /** What is taken off the decoded bytes that wait is the next piece of the stream. */
  lemma TakenPiece(stream: bytes, decoded: bytes, taken: nat, got: bytes, left: bytes)
    requires decoded <= stream && taken <= |decoded| && got + left == decoded[taken..]
    ensures var to := taken + |got|;
            to <= |decoded| && got == stream[taken..to] && left == decoded[to..]
  {
    var waiting := decoded[taken..];
    assert got == waiting[..|got|] && left == waiting[|got|..];
  }

  /** The cuts are consecutive: joined, they are the next bytes of the stream, each of its size until the end. */
  lemma {:induction false} CutsJoin(stream: bytes, from: nat, amts: seq<nat>)
    requires from <= |stream|
    ensures var cuts := Cuts(stream, from, amts);
            && |cuts| == |amts| && from + |Join(cuts)| <= |stream|
            && Join(cuts) == stream[from..from + |Join(cuts)|]
            && (forall i :: 0 <= i < |cuts| && |cuts[i]| != amts[i] ==>
                  |cuts[i]| < amts[i] && from + |Join(cuts)| == |stream|)
    decreases |amts|
  {
    if amts == [] {
    } else {
      var to := if from + amts[0] <= |stream| then from + amts[0] else |stream|;
      CutsJoin(stream, to, amts[1..]);
      var cuts, rest := Cuts(stream, from, amts), Cuts(stream, to, amts[1..]);
      assert cuts[1..] == rest;
      forall i | 0 <= i < |cuts| && |cuts[i]| != amts[i]
        ensures |cuts[i]| < amts[i] && from + |Join(cuts)| == |stream|
      {
        if i > 0 {
          assert cuts[i] == rest[i - 1] && amts[i] == amts[1..][i - 1];
        }
      }
    }
  }

  datatype ReadError = IncompleteRead | ConnectionBroken

  /** A response whose body arrives as `wire` in reads of the network's own choosing. */
  class BufferedResponse {
    const wire: bytes
    const decoder: bytes -> bytes
    const enforceLength: bool
    const length: Option<int>
    const queue: BytesQueueBuffer
    var pos: nat
    var closed: bool
    var lengthRemaining: Option<int>
    ghost var taken: nat

    /** The decoded stream. */
    ghost function Stream(): bytes {
      decoder(wire)
    }

    /** The decoder's output so far. */
    ghost function Decoded(): bytes
      requires pos <= |wire|
      reads this
    {
      decoder(wire[..pos])
    }

    /** The length that was announced is not the length of what arrives. */
    predicate WrongLength() {
      length.Some? && length.value != |wire|
    }

    predicate Counted()
      reads this
    {
      && pos <= |wire| && (closed ==> pos == |wire|)
      && lengthRemaining == if length.Some? then Some(length.value - pos) else None
    }

    ghost predicate Valid()
      reads this, queue
    {
      && Streaming(decoder) && Counted()
      && queue.Valid() && taken <= |Decoded()| <= |Stream()| && queue.Contents() == Decoded()[taken..]
    }

    constructor (wire: bytes, decoder: bytes -> bytes, enforceLength: bool, length: Option<int>)
      requires Streaming(decoder)
      ensures Valid() && taken == 0 && this.wire == wire && this.decoder == decoder && fresh(queue)
      ensures this.enforceLength == enforceLength && this.length == length && !closed
    {
      this.wire, this.decoder, this.enforceLength, this.length := wire, decoder, enforceLength, length;
      pos, closed, lengthRemaining, taken := 0, false, length, 0;
      queue := new BytesQueueBuffer();
      new;
      assert wire[..0] == [];
      DecodedIsPrefix(0, |wire|);
    }

    lemma DecodedIsPrefix(p: nat, q: nat)
      requires Streaming(decoder) && p <= q <= |wire|
      ensures decoder(wire[..p]) <= decoder(wire[..q]) <= Stream()
    {
      assert wire[..q] == wire[..p] + wire[p..q] && wire == wire[..q] + wire[q..];
      assert Extends(decoder, wire[..p], wire[p..q]) && Extends(decoder, wire[..q], wire[q..]);
    }

    /**
     `_raw_read(amt)`: some bytes, up to `amt` of them, or none at the end. Without a size it is all
     that is left; http.client raises when that is less than announced.
     */
    method RawRead(amt: Option<nat>) returns (r: Result<bytes, ReadError>)
      requires Counted()
      modifies this`pos, this`closed, this`lengthRemaining
      ensures pos <= |wire| && (closed ==> pos == |wire|) && (r.Ok? || amt.Some? ==> Counted())
      ensures r.Ok? ==> pos == old(pos) + |r.value| && r.value == wire[old(pos)..pos]
      ensures amt.None? ==> pos == |wire| && (r.Err? <==> !old(closed) && WrongLength() && length.value > |wire|)
      ensures r.Err? && amt.Some? ==> pos == old(pos) == |wire| && enforceLength && WrongLength()
      ensures r.Ok? && amt.Some? ==> |r.value| <= amt.value
      ensures r.Ok? && amt.Some? && r.value == [] && amt.value > 0 ==>
                pos == |wire| && !(enforceLength && WrongLength())
    {
      var k: nat := 0;
      if !closed {
        if amt.None? {
          k := |wire| - pos;
          if lengthRemaining.Some? && k < lengthRemaining.value {
            pos, closed := |wire|, true;
            return Err(ConnectionBroken);
          }
        } else if amt.value > 0 && pos < |wire| {
          k :| 1 <= k <= amt.value && k <= |wire| - pos;
        }
      }
      var data := wire[pos..pos + k];
      if amt.Some? && amt.value != 0 && data == [] {
        closed := true;
        if enforceLength && lengthRemaining.Some? && lengthRemaining.value != 0 {
          return Err(IncompleteRead);
        }
      }
      pos := pos + k;
      if data != [] && lengthRemaining.Some? {
        lengthRemaining := Some(lengthRemaining.value - |data|);
      }
      return Ok(data);
    }

    /** What the decoder puts out for the bytes just read. */
    function Decode(from: nat): (d: bytes)
      requires Streaming(decoder) && from <= pos <= |wire|
      reads this
      ensures decoder(wire[..from]) + d == decoder(wire[..pos])
    {
      DecodedIsPrefix(from, pos);
      decoder(wire[..pos])[|decoder(wire[..from])|..]
    }

    method ReadIntoQueue(amt: nat) returns (r: Result<bytes, ReadError>)
      requires Valid() && amt > 0
      modifies this, queue
      ensures Valid() && taken == old(taken)
      ensures r.Ok? ==> old(queue.Contents()) <= queue.Contents() && queue.buffer != []
      ensures r.Ok? && r.value == [] ==> pos == |wire| && !(enforceLength && WrongLength())
      ensures r.Ok? ==> pos == old(pos) + |r.value|
      ensures r.Err? ==> pos == |wire| && enforceLength && WrongLength()
    {
      var from := pos;
      r := RawRead(Some(amt));
      DecodedIsPrefix(pos, |wire|);
      if r.Ok? {
        var data := Decode(from);
        queue.Put(data);
      }
    }

    /**
     `read(amt)` for a size: exactly that many bytes of the stream, fewer only when it has ended and,
     where lengths are enforced, has the announced length.
     */
    method Read(amt: nat) returns (r: Result<bytes, ReadError>)
      requires Valid()
      modifies this, queue
      ensures Valid()
      ensures r.Err? ==> taken == old(taken) && pos == |wire| && enforceLength && WrongLength()
      ensures r.Ok? ==> taken == old(taken) + |r.value| <= |Stream()| && r.value == Stream()[old(taken)..taken]
      ensures r.Ok? && |r.value| != amt ==>
                |r.value| < amt && taken == |Stream()| && !(enforceLength && WrongLength())
    {
      DecodedIsPrefix(pos, |wire|);
      assert wire[..|wire|] == wire;
      if queue.size < amt {
        var data :- ReadIntoQueue(amt);
        if data == [] && queue.size == 0 {
          assert Decoded() == Stream();
          return Ok([]);
        }
        while queue.size < amt && data != []
          invariant Valid() && taken == old(taken) && queue.buffer != []
          invariant data == [] ==> pos == |wire| && !(enforceLength && WrongLength())
          decreases data != [], |wire| - pos
        {
          data :- ReadIntoQueue(amt);
        }
      }
      DecodedIsPrefix(pos, |wire|);
      r := TakeFromQueue(amt);
    }

    method TakeFromQueue(amt: nat) returns (r: Result<bytes, ReadError>)
      requires Valid() && (amt <= queue.size || (queue.buffer != [] && pos == |wire|))
      modifies this`taken, queue
      ensures Valid() && r.Ok?
      ensures taken == old(taken) + |r.value| <= |Stream()| && r.value == Stream()[old(taken)..taken]
      ensures |r.value| == if amt <= |old(queue.Contents())| then amt else |old(queue.Contents())|
      ensures pos == |wire| && amt > |old(queue.Contents())| ==> taken == |Stream()|
    {
      DecodedIsPrefix(pos, |wire|);
      assert wire[..|wire|] == wire;
      assert queue.buffer == [] ==> queue.Contents() == [];
      var got := queue.Get(amt);
      TakenPiece(Stream(), Decoded(), taken, got.value, queue.Contents());
      taken := taken + |got.value|;
      return Ok(got.value);
    }

    /**
     Any series of sized reads returns consecutive cuts of the stream. With enforced lengths it fails
     rather than take a body of the wrong length for a whole one.
     */
    method ReadSeries(amts: seq<nat>) returns (r: Result<seq<bytes>, ReadError>)
      requires Valid()
      modifies this, queue
      ensures Valid()
      ensures r.Ok? ==> r.value == Cuts(Stream(), old(taken), amts)
      ensures r.Err? ==> enforceLength && WrongLength()
      ensures r.Ok? && enforceLength && WrongLength() ==>
                |r.value| == |amts| && forall i :: 0 <= i < |amts| ==> |r.value[i]| == amts[i]
    {
      var out: seq<bytes> := [];
      ghost var start := taken;
      for i := 0 to |amts|
        invariant Valid() && start <= taken <= |Stream()| && start <= |Stream()|
        invariant out + Cuts(Stream(), taken, amts[i..]) == Cuts(Stream(), start, amts)
        invariant |out| == i && (enforceLength && WrongLength() ==> forall j :: 0 <= j < i ==> |out[j]| == amts[j])
      {
        ghost var from := taken;
        var piece :- Read(amts[i]);
        NextCut(Stream(), from, taken, amts, i, out, piece);
        out := out + [piece];
      }
      return Ok(out);
    }

    /**
     `read()` without a size returns what the decoder still puts out but leaves the buffered bytes
     where they are: it is the rest of the stream exactly when nothing was buffered. It fails exactly
     when the body is shorter than announced and this was not found out before.
     */
    method ReadAll() returns (r: Result<bytes, ReadError>)
      requires Valid()
      modifies this`pos, this`closed, this`lengthRemaining
      ensures pos == |wire|
      ensures r.Err? <==> !old(closed) && WrongLength() && length.value > |wire|
      ensures r.Ok? ==> old(Decoded()) + r.value == Stream()
      ensures r.Ok? ==> (r.value == Stream()[taken..] <==> queue.Contents() == [])
    {
      DecodedIsPrefix(pos, |wire|);
      assert wire[..|wire|] == wire;
      var from := pos;
      var _ :- RawRead(None);
      return Ok(Decode(from));
    }
  }

  /** Every byte twice. */
  function Twice(b: bytes): (d: bytes) {
    if b == [] then [] else [b[0], b[0]] + Twice(b[1..])
  }

  lemma {:induction false} TwiceConcat(a: bytes, b: bytes)
    ensures Twice(a + b) == Twice(a) + Twice(b)
  {
    if a == [] {
      assert a + b == b;
    } else {
      assert (a + b)[1..] == a[1..] + b;
      TwiceConcat(a[1..], b);
    }
  }

  lemma TwiceStreams()
    ensures Streaming(Twice) && Twice([7]) == [7, 7]
  {
    forall a: bytes, b: bytes
      ensures Extends(Twice, a, b)
    {
      TwiceConcat(a, b);
    }
  }

  /** A body of one byte decodes to two: `read(1)` gives one of them, and `read()` then gives nothing. */
  method BufferedByteLost() returns (one: Result<bytes, ReadError>, rest: Result<bytes, ReadError>)
    ensures one == Ok([7]) && rest == Ok([]) && Twice([7]) == [7, 7]
  {
    TwiceStreams();
    var response := new BufferedResponse([7], Twice, true, Some(1));
    one := response.Read(1);
    assert !response.WrongLength() && response.Stream() == [7, 7];
    assert one.value == [7, 7][0..1] == [7];
    assert [7 as byte][..0] == [] && [7 as byte][..1] == [7];
    assert response.pos == 1;
    rest := response.ReadAll();
    assert [7, 7] + rest.value == [7, 7];
  }
}
