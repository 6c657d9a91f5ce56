/** Files of bytes that are read from a moving position. */
module ByteFiles {
  import opened Bytes

  /** Bytes and a position that reads and seeks move. */
  class ByteFile {
    const data: bytes
    var pos: nat

    constructor (data: bytes)
      ensures this.data == data && Valid() && Rest() == data
    {
      this.data, pos := data, 0;
    }

    ghost predicate Valid()
      reads this
    {
      pos <= |data|
    }

    ghost function Rest(): bytes
      requires Valid()
      reads this
    {
      data[pos..]
    }

    method Read(n: nat) returns (chunk: bytes)
      requires Valid()
      modifies this
      ensures Valid() && pos == old(pos) + |chunk| && chunk + Rest() == old(Rest())
      ensures |chunk| == if n <= |old(Rest())| then n else |old(Rest())|
    {
      var k := if n <= |data| - pos then n else |data| - pos;
      chunk := data[pos..pos + k];
      pos := pos + k;
    }

    /** `seek(offset, 1)`; past the end there is nothing more to read, as at the end. */
    method Seek(offset: int)
      requires Valid() && 0 <= pos + offset
      modifies this
      ensures Valid() && pos == if old(pos) + offset <= |data| then old(pos) + offset else |data|
    {
      pos := if pos + offset <= |data| then pos + offset else |data|;
    }
  }
}
