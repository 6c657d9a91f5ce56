/** The binary reader as the source runs it: over a file with a position, changing the open mappings in place. */
module VdfBinaryLoader {
  import opened Outcomes
  import opened ByteFiles
  import opened Bytes
  import opened VdfStack
  import opened VdfBinary
  import opened VdfLoader

  lemma {:induction false} NulInPrefix(a: bytes, b: bytes)
    ensures if 0 in a then Nul(a + b) == Nul(a) < |a| else Nul(a) == |a| && Nul(a + b) >= |a|
  {
    if a == [] {
    } else {
      assert (a + b)[1..] == a[1..] + b;
      NulInPrefix(a[1..], b);
    }
  }

  lemma {:induction false} WideNulInPrefix(a: bytes, b: bytes)
    requires WideNul(a) < |a|
    ensures WideNul(a + b) == WideNul(a)
  {
    assert (a + b)[0] == a[0] && (a + b)[1] == a[1];
    if !(a[0] == 0 && a[1] == 0) {
      assert (a + b)[1..] == a[1..] + b;
      WideNulInPrefix(a[1..], b);
    }
  }

  /** `buf.find(...)` of one NUL byte, or of two for a wide string. */
  function FindNul(buf: bytes, wide: bool): (end: int)
    ensures end == -1 || 0 <= end < |buf|
    ensures end != -1 ==> end == if wide then WideNul(buf) else Nul(buf)
  {
    var n := if wide then WideNul(buf) else Nul(buf);
    if n < |buf| then n else -1
  }

  /** Where a string ends whose terminator was found at `end`. */
  function Stop(end: nat, wide: bool): (stop: nat) {
    if wide then end + end % 2 else end
  }

  function Skip(wide: bool): (skip: nat) {
    if wide then 2 else 1
  }

  function Drop(b: bytes, n: nat): bytes {
    if n <= |b| then b[n..] else []
  }

  /** What is taken is decided as soon as a terminator was read. */
  lemma TakeFound(all: bytes, buf: bytes, rest: bytes, wide: bool)
    requires all == buf + rest
    ensures var end := FindNul(buf, wide);
            if end == -1 then rest == [] ==> TakeText(wide, all) == None
            else
              var stop := Stop(end, wide);
              stop <= |buf| && TakeText(wide, all) == Some((buf[..stop], Drop(all, stop + Skip(wide))))
  {
    var end := FindNul(buf, wide);
    if end == -1 {
      assert rest == [] ==> all == buf;
    } else if wide {
      WideNulInPrefix(buf, rest);
      assert all[..Stop(end, wide)] == buf[..Stop(end, wide)];
    } else {
      NulInPrefix(buf, rest);
      assert all[..end] == buf[..end];
    }
  }

  lemma DropDrop(data: bytes, m: nat, n: nat)
    requires m <= |data|
    ensures Drop(data[m..], n) == Drop(data, m + n)
  {
  }

  lemma ReadOn(buf: bytes, chunk: bytes, rest: bytes)
    ensures buf + (chunk + rest) == buf + chunk + rest
  {
  }

  /** Reads chunks of 64 bytes until one holds a terminator or the file ends. */
  method Scan(file: ByteFile, wide: bool) returns (buf: bytes, end: int)
    requires file.Valid()
    modifies file
    ensures file.Valid() && buf + file.Rest() == old(file.Rest()) && |buf| == file.pos - old(file.pos)
    ensures end == FindNul(buf, wide) && (end == -1 ==> file.Rest() == [])
  {
    buf, end := [], -1;
    var chunk: bytes := [0];
    while end == -1 && chunk != []
      invariant file.Valid() && buf + file.Rest() == old(file.Rest()) && |buf| == file.pos - old(file.pos)
      invariant end == FindNul(buf, wide) && (chunk == [] ==> file.Rest() == [])
      decreases end == -1 && chunk != [], |file.data| - file.pos
    {
      chunk := file.Read(64);
      ReadOn(buf, chunk, file.Rest());
      buf := buf + chunk;
      end := FindNul(buf, wide);
    }
  }

  /** Scans for the terminator, then seeks back to just after it. */
  method ReadString(file: ByteFile, wide: bool) returns (r: Option<bytes>)
    requires file.Valid()
    modifies file
    ensures file.Valid()
    ensures match TakeText(wide, old(file.Rest()))
            case None => r == None
            case Some((text, rest)) => r == Some(text) && file.Rest() == rest
  {
    ghost var start, all := file.pos, file.Rest();
    var buf, end := Scan(file, wide);
    TakeFound(all, buf, file.Rest(), wide);
    if end == -1 {
      return None;
    }
    end := Stop(end, wide);
    DropDrop(file.data, start, end + Skip(wide));
    file.Seek(end - |buf| + Skip(wide));
    return Some(buf[..end]);
  }

  method ReadLeaf(f: Format, file: ByteFile, tag: byte) returns (r: Result<Leaf_, LoadError>)
    requires file.Valid()
    modifies file
    ensures file.Valid()
    ensures match TakeLeaf(f, tag, old(file.Rest()))
            case Err(e) => r == Err(e)
            case Ok((leaf, rest)) => r == Ok(leaf) && file.Rest() == rest
  {
    if tag == BIN_STRING || tag == BIN_WIDESTRING {
      var text := ReadString(file, tag == BIN_WIDESTRING);
      return if text.None? then Err(Unterminated) else DecodeText(f, tag == BIN_WIDESTRING, text.value);
    }
    var w := Width(tag);
    if w == 0 {
      return Err(UnknownType);
    }
    ghost var all := file.Rest();
    var b := file.Read(w);
    if |b| < w {
      return Err(ShortNumber);
    }
    assert all[..w] == b && all[w..] == file.Rest();
    return Ok(Number(tag, b));
  }

  /** The pair after a type byte: its key, then a mapping to enter or a leaf to store. */
  method ReadPair(f: Format, file: ByteFile, l: Loader<Leaf_>, tag: byte, onLeaf: bool)
    returns (error: Option<LoadError>, onLeaf': bool)
    requires file.Valid() && l.Valid() && l.mode == f.mode
    modifies file, l, l.repr
    ensures file.Valid() && l.Valid() && fresh(l.repr - old(l.repr))
    ensures VdfBinary.LoadPair(f, tag, old(file.Rest()), State(old(l.View()), onLeaf)) ==
            if error.Some? then Err(error.value) else Ok((State(l.View(), onLeaf'), file.Rest()))
  {
    error, onLeaf' := None, onLeaf;
    var k := ReadString(file, false);
    if k.None? {
      return Some(Unterminated), onLeaf;
    }
    var key := f.decode(k.value);
    if tag == BIN_NONE {
      if onLeaf {
        error := Some(NotAMapping);
      } else {
        onLeaf' := EnterTable(l, key);
      }
    } else {
      var leaf := ReadLeaf(f, file, tag);
      if leaf.Err? {
        error := Some(leaf.error);
      } else if onLeaf {
        error := Some(NotAMapping);
      } else {
        l.SetLeaf(key, leaf.value);
      }
    }
  }

  /** A mapping's key: re-enters what is there when merging, be it a leaf, or else a new mapping. */
  method EnterTable(l: Loader<Leaf_>, key: string) returns (onLeaf: bool)
    requires l.Valid()
    modifies l, l.repr
    ensures l.Valid() && fresh(l.repr - old(l.repr))
    ensures onLeaf == LeadsToLeaf(l.mode, old(l.View()).top, key)
    ensures l.View() == if onLeaf then old(l.View()) else Enter(l.mode, old(l.View()), key)
  {
    onLeaf := l.OnLeaf(key);
    if !onLeaf {
      var d, at := l.Table(key);
      l.Push(d, at);
    }
  }

  /** A byte of the file, at the end of a mapping or at the start of a pair. */
  method ReadTurn(f: Format, file: ByteFile, l: Loader<Leaf_>, tag: byte, onLeaf: bool)
    returns (error: Option<LoadError>, onLeaf': bool)
    requires file.Valid() && l.Valid() && l.mode == f.mode
    requires tag == End(f.alt) ==> !TopLevel(State(l.View(), onLeaf))
    modifies file, l, l.repr
    ensures file.Valid() && l.Valid() && fresh(l.repr - old(l.repr))
    ensures LoadTurn(f, tag, old(file.Rest()), State(old(l.View()), onLeaf)) ==
            if error.Some? then Err(error.value) else Ok((State(l.View(), onLeaf'), file.Rest()))
  {
    error, onLeaf' := None, false;
    if tag == End(f.alt) {
      if !onLeaf {
        l.Pop();
      }
    } else {
      error, onLeaf' := ReadPair(f, file, l, tag, onLeaf);
    }
  }

  /** The next turn of the reader's loop; `done` at the end marker of the top level and at the end of the file. */
  method ReadNext(f: Format, file: ByteFile, l: Loader<Leaf_>, onLeaf: bool)
    returns (error: Option<LoadError>, onLeaf': bool, done: bool)
    requires file.Valid() && l.Valid() && l.mode == f.mode
    modifies file, l, l.repr
    ensures file.Valid() && l.Valid() && fresh(l.repr - old(l.repr))
    ensures !done && error.None? ==> file.pos > old(file.pos)
    ensures LoadFrom(f, old(file.Rest()), State(old(l.View()), onLeaf)) ==
            if error.Some? then Err(error.value)
            else if !done then LoadFrom(f, file.Rest(), State(l.View(), onLeaf'))
            else if TopLevel(State(l.View(), onLeaf')) then Ok((l.View().top, file.Rest()))
            else Err(Incomplete)
  {
    error, onLeaf', done := None, onLeaf, false;
    var t := file.Read(1);
    if t == [] {
      done := true;
    } else {
      assert t == [t[0]];
      LoadStep(f, t[0], file.Rest(), State(l.View(), onLeaf));
      if t[0] == End(f.alt) && !onLeaf && |l.stack| == 1 {
        done := true;
      } else {
        error, onLeaf' := ReadTurn(f, file, l, t[0], onLeaf);
      }
    }
  }

  /** `binary_loads`: the mapping returned holds what the value-level load says, or the same error is raised. */
  method BinaryLoads(f: Format, b: bytes) returns (r: Result<Dict<Leaf_>, LoadError>, ghost l: Loader<Leaf_>)
    ensures l.Valid()
    ensures match VdfBinary.BinaryLoads(f, b)
            case Err(e) => r == Err(e)
            case Ok(es) => r.Ok? && Created(r.value, l.heap) && l.Holding(r.value) == es
  {
    var file := new ByteFile(b);
    var loader := new Loader<Leaf_>(f.mode);
    l := loader;
    var onLeaf, done := false, false;
    ghost var all := LoadFrom(f, b, EMPTY);
    while !done
      invariant fresh(file) && fresh(loader) && fresh(loader.repr)
      invariant file.Valid() && loader.Valid() && loader.mode == f.mode
      invariant !done ==> all == LoadFrom(f, file.Rest(), State(loader.View(), onLeaf))
      invariant done ==> all == if TopLevel(State(loader.View(), onLeaf)) then Ok((loader.View().top, file.Rest()))
                                else Err(Incomplete)
      decreases !done, |file.data| - file.pos
    {
      var error;
      error, onLeaf, done := ReadNext(f, file, loader, onLeaf);
      if error.Some? {
        return Err(error.value), l;
      }
    }
    r := Finish(f, file, loader, onLeaf);
  }

  /** After the loop: everything must be closed, and no byte may remain. */
  method Finish(f: Format, file: ByteFile, l: Loader<Leaf_>, onLeaf: bool) returns (r: Result<Dict<Leaf_>, LoadError>)
    requires file.Valid() && l.Valid()
    modifies file
    ensures if !TopLevel(State(l.View(), onLeaf)) then r == Err(Incomplete)
            else if old(file.Rest()) != [] then r == Err(Remaining)
            else r.Ok? && Created(r.value, l.heap) && l.Holding(r.value) == l.View().top
  {
    if onLeaf || |l.stack| != 1 {
      return Err(Incomplete);
    }
    var more := file.Read(1);
    if more != [] {
      return Err(Remaining);
    }
    l.HoldingRoot();
    r := Ok(l.stack[0]);
  }
}
