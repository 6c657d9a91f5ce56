/**
 The binary form of VDF: the writer, the reader's specification, the round trip, and what a
 truncated or extended file does.
 */
module VdfBinary {
  import opened Outcomes
  import opened Bytes
  import opened VdfTree
  import opened VdfStack

  /** A float32 leaf is kept as the four bytes of its bit pattern. */
  datatype Leaf_ =
    | Text(text: string)
    | Int32(value: int)
    | Pointer(value: int)
    | Color(value: int)
    | UInt64(value: int)
    | Int64(value: int)
    | Float32(bits: bytes)

  type Doc = Entries<Leaf_>

  const BIN_NONE: byte := 0
  const BIN_STRING: byte := 1
  const BIN_INT32: byte := 2
  const BIN_FLOAT32: byte := 3
  const BIN_POINTER: byte := 4
  const BIN_WIDESTRING: byte := 5
  const BIN_COLOR: byte := 6
  const BIN_UINT64: byte := 7
  const BIN_END: byte := 8
  const BIN_INT64: byte := 10
  const BIN_END_ALT: byte := 11

  /**
   `decode` is Python's UTF-8 decoder with replacement of malformed input, `decodeWide` its UTF-16
   decoder, which raises an exception (None) on malformed input.
   */
  datatype Format = Format(mode: Mode, alt: bool, decode: bytes -> string, decodeWide: bytes -> Option<string>)

  function End(alt: bool): byte {
    if alt then BIN_END_ALT else BIN_END
  }

  // ---------- writer ----------

  predicate InRange(l: Leaf_) {
    match l
    case Text(_) => true
    case Int32(v) => FitsSigned(v, 4)
    case Pointer(v) => FitsSigned(v, 4)
    case Color(v) => FitsSigned(v, 4)
    case UInt64(v) => 0 <= v < Power256(8)
    case Int64(v) => FitsSigned(v, 8)
    case Float32(bits) => |bits| == 4
  }

  predicate AllInRange(es: Doc)
    decreases es
  {
    es != [] ==>
      && (match es[0].value
          case Leaf(l) => InRange(l)
          case Table(sub) => AllInRange(sub))
      && AllInRange(es[1..])
  }

  function Tag(l: Leaf_): byte {
    match l
    case Text(_) => BIN_STRING
    case Int32(_) => BIN_INT32
    case Pointer(_) => BIN_POINTER
    case Color(_) => BIN_COLOR
    case UInt64(_) => BIN_UINT64
    case Int64(_) => BIN_INT64
    case Float32(_) => BIN_FLOAT32
  }

  function Payload(l: Leaf_): bytes
    requires InRange(l)
  {
    match l
    case Text(text) => Utf8(text) + [0]
    case Int32(v) => Signed(v, 4)
    case Pointer(v) => Signed(v, 4)
    case Color(v) => Signed(v, 4)
    case UInt64(v) => LittleEndian(v, 8)
    case Int64(v) => Signed(v, 8)
    case Float32(bits) => bits
  }

  function DumpEntry(e: Entry<Leaf_>, alt: bool): bytes
    requires AllInRange([e])
    decreases e, 0
  {
    match e.value
    case Leaf(l) => [Tag(l)] + (Utf8(e.key) + [0] + Payload(l))
    case Table(sub) => [BIN_NONE] + (Utf8(e.key) + [0] + (DumpEntries(sub, alt) + [End(alt)]))
  }

  /** The pairs of one mapping, without its end marker. */
  function DumpEntries(es: Doc, alt: bool): bytes
    requires AllInRange(es)
    decreases es
  {
    if es == [] then [] else DumpEntry(es[0], alt) + DumpEntries(es[1..], alt)
  }

  datatype DumpError = OutOfRange

  /** `binary_dumps(obj, alt_format)`; an empty top level writes nothing at all. */
  function BinaryDumps(es: Doc, alt: bool): Result<bytes, DumpError> {
    if !AllInRange(es) then Err(OutOfRange)
    else if es == [] then Ok([])
    else Ok(DumpEntries(es, alt) + [End(alt)])
  }

  // ---------- reader ----------

  datatype LoadError = Unterminated | UnknownType | BadWideString | ShortNumber | NotAMapping | Incomplete | Remaining

  /** Position of the first NUL byte, or the length. */
  function Nul(b: bytes): (n: nat)
    ensures n <= |b|
    ensures n < |b| ==> b[n] == 0
    ensures 0 !in b[..n]
  {
    if b == [] || b[0] == 0 then 0 else 1 + Nul(b[1..])
  }

  /** A NUL-terminated string, and the bytes after its terminator. */
  function TakeString(b: bytes): (r: Option<(bytes, bytes)>)
    ensures r.Some? ==> |r.value.1| < |b|
  {
    var n := Nul(b);
    if n == |b| then None else Some((b[..n], b[n + 1..]))
  }

  predicate DoubleNul(b: bytes, i: nat) {
    i + 1 < |b| && b[i] == 0 && b[i + 1] == 0
  }

  /** Position of the first two adjacent NUL bytes, or the length. */
  function WideNul(b: bytes): (n: nat)
    ensures n <= |b| && (n < |b| ==> DoubleNul(b, n))
  {
    if |b| < 2 then |b| else if b[0] == 0 && b[1] == 0 then 0 else 1 + WideNul(b[1..])
  }

  /** A wide string: the position found is rounded up to an even one, and two bytes are skipped. */
  function TakeWide(b: bytes): (r: Option<(bytes, bytes)>)
    ensures r.Some? ==> |r.value.1| < |b|
  {
    var n := WideNul(b);
    if n == |b| then None
    else
      var end := n + n % 2;
      Some((b[..end], if end + 2 <= |b| then b[end + 2..] else []))
  }

  function TakeText(wide: bool, b: bytes): (r: Option<(bytes, bytes)>)
    ensures r.Some? ==> |r.value.1| < |b|
  {
    if wide then TakeWide(b) else TakeString(b)
  }

  /** Bytes of a number of the given type, 0 for a type that is not a number. */
  function Width(tag: byte): nat {
    if tag == BIN_INT32 || tag == BIN_POINTER || tag == BIN_COLOR || tag == BIN_FLOAT32 then 4
    else if tag == BIN_UINT64 || tag == BIN_INT64 then 8
    else 0
  }

  function Number(tag: byte, b: bytes): Leaf_ {
    if tag == BIN_POINTER then Pointer(FromSigned(b))
    else if tag == BIN_COLOR then Color(FromSigned(b))
    else if tag == BIN_INT32 then Int32(FromSigned(b))
    else if tag == BIN_UINT64 then UInt64(FromLittleEndian(b))
    else if tag == BIN_INT64 then Int64(FromSigned(b))
    else Float32(b)
  }

  /** `result.decode(...)`. */
  function DecodeText(f: Format, wide: bool, text: bytes): Result<Leaf_, LoadError> {
    if !wide then Ok(Text(f.decode(text)))
    else if f.decodeWide(text).Some? then Ok(Text(f.decodeWide(text).value)) else Err(BadWideString)
  }

  function TakeLeaf(f: Format, tag: byte, b: bytes): (r: Result<(Leaf_, bytes), LoadError>)
    ensures r.Ok? ==> |r.value.1| <= |b|
  {
    if tag == BIN_STRING || tag == BIN_WIDESTRING then
      match TakeText(tag == BIN_WIDESTRING, b)
      case None => Err(Unterminated)
      case Some((text, rest)) =>
        var leaf :- DecodeText(f, tag == BIN_WIDESTRING, text);
        Ok((leaf, rest))
    else
      var w := Width(tag);
      if w == 0 then Err(UnknownType) else if |b| < w then Err(ShortNumber) else Ok((Number(tag, b[..w]), b[w..]))
  }

  /** The stack of open mappings; `onLeaf` when a merged key led to a leaf, which was pushed like a mapping. */
  datatype State = State(s: Stack<Leaf_>, onLeaf: bool)

  predicate LeadsToLeaf(mode: Mode, es: Doc, key: string) {
    Reenters(mode, es, key) && es[Find(es, key)].value.Leaf?
  }

  /** The value of a pair, after its type byte and key. */
  function LoadValue(f: Format, tag: byte, key: string, b: bytes, st: State): (r: Result<(State, bytes), LoadError>)
    ensures r.Ok? ==> |r.value.1| <= |b|
  {
    if tag == BIN_NONE then
      if st.onLeaf then Err(NotAMapping)
      else if LeadsToLeaf(f.mode, st.s.top, key) then Ok((st.(onLeaf := true), b))
      else Ok((State(Enter(f.mode, st.s, key), false), b))
    else
      var (leaf, rest) :- TakeLeaf(f, tag, b);
      if st.onLeaf then Err(NotAMapping) else Ok((State(StoreLeaf(f.mode, st.s, key, leaf), false), rest))
  }

  /** A type byte other than the end marker, with its key: the state after the pair, and the bytes left. */
  function LoadPair(f: Format, tag: byte, b: bytes, st: State): (r: Result<(State, bytes), LoadError>)
    ensures r.Ok? ==> |r.value.1| <= |b|
  {
    match TakeString(b)
    case None => Err(Unterminated)
    case Some((key, rest)) => LoadValue(f, tag, f.decode(key), rest, st)
  }

  predicate TopLevel(st: State) {
    !st.onLeaf && st.s.outer == []
  }

  /** One turn of the reader's loop, unless it ends there. */
  function LoadTurn(f: Format, tag: byte, b: bytes, st: State): (r: Result<(State, bytes), LoadError>)
    requires tag == End(f.alt) ==> !TopLevel(st)
    ensures r.Ok? ==> |r.value.1| <= |b|
  {
    if tag == End(f.alt) then Ok((State(if st.onLeaf then st.s else Leave(st.s), false), b))
    else LoadPair(f, tag, b, st)
  }

  function LoadFrom(f: Format, b: bytes, st: State): Result<(Doc, bytes), LoadError>
    decreases |b|
  {
    if b == [] then if TopLevel(st) then Ok((st.s.top, [])) else Err(Incomplete)
    else if b[0] == End(f.alt) && TopLevel(st) then Ok((st.s.top, b[1..]))
    else
      var (st', rest) :- LoadTurn(f, b[0], b[1..], st);
      LoadFrom(f, rest, st')
  }

  /** `binary_loads`, with `raise_on_remaining`. */
  function BinaryLoads(f: Format, b: bytes): Result<Doc, LoadError> {
    var (doc, rest) :- LoadFrom(f, b, State(Stack([], []), false));
    if rest != [] then Err(Remaining) else Ok(doc)
  }

  // ---------- what loading a dump does ----------

  /** The reader's merge: as in the text form, but a mapping over a leaf is refused unless it is empty. */
  function BinaryMergePair(mode: Mode, e: Entry<Leaf_>, base: Doc): Option<Doc>
    decreases e, 0
  {
    match e.value
    case Leaf(_) => Some(Store(mode.multi, base, e.key, e.value))
    case Table(sub) =>
      if LeadsToLeaf(mode, base, e.key) then if sub == [] then Some(base) else None
      else
        var (es, i) := Open(mode, base, e.key);
        var filled :- BinaryMergeInto(mode, sub, es[i].value.entries);
        Some(es[i := Entry(e.key, Table(filled))])
  }

  function BinaryMergeInto(mode: Mode, doc: Doc, base: Doc): Option<Doc>
    decreases doc
  {
    if doc == [] then Some(base)
    else
      var next :- BinaryMergePair(mode, doc[0], base);
      BinaryMergeInto(mode, doc[1..], next)
  }

  /** Keys and strings hold no NUL and numbers fit their width: what the format can carry. */
  predicate Carried(es: Doc)
    decreases es
  {
    es != [] ==>
      && '\0' !in es[0].key
      && (match es[0].value
          case Leaf(l) => InRange(l) && (l.Text? ==> '\0' !in l.text)
          case Table(sub) => Carried(sub))
      && Carried(es[1..])
  }

  lemma {:induction false} CarriedInRange(es: Doc)
    requires Carried(es)
    ensures AllInRange(es)
    decreases es
  {
    if es == [] {
    } else {
      if es[0].value.Table? {
        CarriedInRange(es[0].value.entries);
      }
      CarriedInRange(es[1..]);
    }
  }

  ghost predicate Inverts(decode: bytes -> string) {
    forall text: string :: decode(Utf8(text)) == text
  }

  lemma {:induction false} NulAt(a: bytes, b: bytes)
    requires 0 !in a
    ensures Nul(a + [0] + b) == |a|
  {
    if a == [] {
      assert (a + [0] + b)[0] == 0;
    } else {
      assert (a + [0] + b)[1..] == a[1..] + [0] + b;
      NulAt(a[1..], b);
    }
  }

  lemma TakeWritten(text: string, b: bytes)
    requires '\0' !in text
    ensures TakeString(Utf8(text) + [0] + b) == Some((Utf8(text), b))
  {
    var t := Utf8(text);
    NulAt(t, b);
    assert (t + [0] + b)[..|t|] == t && (t + [0] + b)[|t| + 1..] == b;
  }

  lemma TakePayload(f: Format, l: Leaf_, b: bytes)
    requires Inverts(f.decode) && InRange(l) && (l.Text? ==> '\0' !in l.text)
    ensures TakeLeaf(f, Tag(l), Payload(l) + b) == Ok((l, b))
  {
    var p := Payload(l);
    assert (p + b)[..|p|] == p && (p + b)[|p|..] == b;
    match l {
      case Text(text) => TakeWritten(text, b);
      case Int32(v) => SignedInverse(v, 4);
      case Pointer(v) => SignedInverse(v, 4);
      case Color(v) => SignedInverse(v, 4);
      case UInt64(v) => LittleEndianInverse(v, 8);
      case Int64(v) => SignedInverse(v, 8);
      case Float32(_) =>
    }
  }

  lemma LoadKey(f: Format, key: string, tag: byte, rest: bytes, st: State)
    requires Inverts(f.decode) && '\0' !in key
    ensures LoadPair(f, tag, Utf8(key) + [0] + rest, st) == LoadValue(f, tag, key, rest, st)
  {
    TakeWritten(key, rest);
  }

  lemma Regroup(tag: byte, key: bytes, p: bytes, b: bytes)
    ensures [tag] + (key + [0] + p) + b == [tag] + (key + [0] + (p + b))
  {
  }

  function After(f: Format, turn: Result<(State, bytes), LoadError>): Result<(Doc, bytes), LoadError> {
    var (st, rest) :- turn;
    LoadFrom(f, rest, st)
  }

  lemma LoadStep(f: Format, tag: byte, b: bytes, st: State)
    ensures LoadFrom(f, [tag] + b, st) ==
            if tag == End(f.alt) && TopLevel(st) then Ok((st.s.top, b))
            else After(f, LoadTurn(f, tag, b, st))
  {
    assert ([tag] + b)[1..] == b;
  }

  lemma LoadLeaf(f: Format, key: string, l: Leaf_, b: bytes, st: State)
    requires Inverts(f.decode) && '\0' !in key && InRange(l) && (l.Text? ==> '\0' !in l.text)
    ensures LoadFrom(f, [Tag(l)] + (Utf8(key) + [0] + Payload(l)) + b, st) ==
            if st.onLeaf then Err(NotAMapping) else LoadFrom(f, b, State(StoreLeaf(f.mode, st.s, key, l), false))
  {
    TakePayload(f, l, b);
    Regroup(Tag(l), Utf8(key), Payload(l), b);
    LoadStep(f, Tag(l), Utf8(key) + [0] + (Payload(l) + b), st);
    LoadKey(f, key, Tag(l), Payload(l) + b, st);
  }

  lemma LoadOpening(f: Format, key: string, b: bytes, st: State)
    requires Inverts(f.decode) && '\0' !in key
    ensures LoadFrom(f, [BIN_NONE] + (Utf8(key) + [0] + b), st) ==
            if st.onLeaf then Err(NotAMapping)
            else if LeadsToLeaf(f.mode, st.s.top, key) then LoadFrom(f, b, st.(onLeaf := true))
            else LoadFrom(f, b, State(Enter(f.mode, st.s, key), false))
  {
    LoadStep(f, BIN_NONE, Utf8(key) + [0] + b, st);
    LoadKey(f, key, BIN_NONE, b, st);
  }

  lemma LoadEnd(f: Format, b: bytes, st: State)
    requires st.onLeaf || st.s.outer != []
    ensures LoadFrom(f, [End(f.alt)] + b, st) ==
            LoadFrom(f, b, State(if st.onLeaf then st.s else Leave(st.s), false))
  {
    assert ([End(f.alt)] + b)[1..] == b;
  }

  lemma DumpedTable(key: string, sub: Doc, alt: bool, b: bytes)
    requires AllInRange(sub) && AllInRange([Entry(key, Table(sub))])
    ensures DumpEntry(Entry(key, Table(sub)), alt) + b ==
            [BIN_NONE] + (Utf8(key) + [0] + (DumpEntries(sub, alt) + ([End(alt)] + b)))
  {
  }

  /** A pair of any kind is refused below a leaf. */
  lemma LoadOnLeaf(f: Format, e: Entry<Leaf_>, b: bytes, s: Stack<Leaf_>)
    requires Inverts(f.decode) && Carried([e]) && AllInRange([e])
    ensures LoadFrom(f, DumpEntry(e, f.alt) + b, State(s, true)) == Err(NotAMapping)
  {
    match e.value {
      case Leaf(l) => LoadLeaf(f, e.key, l, b, State(s, true));
      case Table(sub) =>
        DumpedTable(e.key, sub, f.alt, b);
        LoadOpening(f, e.key, DumpEntries(sub, f.alt) + ([End(f.alt)] + b), State(s, true));
    }
  }

  /** The pairs of a mapping whose key led to a leaf: none at all, or refused. */
  lemma LoadAllOnLeaf(f: Format, sub: Doc, b: bytes, s: Stack<Leaf_>)
    requires Inverts(f.decode) && Carried(sub) && AllInRange(sub)
    ensures LoadFrom(f, DumpEntries(sub, f.alt) + ([End(f.alt)] + b), State(s, true)) ==
            if sub == [] then LoadFrom(f, b, State(s, false)) else Err(NotAMapping)
  {
    var closing := [End(f.alt)] + b;
    if sub == [] {
      assert DumpEntries(sub, f.alt) + closing == closing;
      LoadEnd(f, b, State(s, true));
    } else {
      var rest := DumpEntries(sub[1..], f.alt) + closing;
      assert [sub[0]][1..] == [];
      assert DumpEntries(sub, f.alt) + closing == DumpEntry(sub[0], f.alt) + rest;
      LoadOnLeaf(f, sub[0], rest, s);
    }
  }

  lemma {:induction false} LoadDumpedPair(f: Format, e: Entry<Leaf_>, b: bytes, s: Stack<Leaf_>)
    requires Inverts(f.decode) && Carried([e]) && AllInRange([e])
    ensures LoadFrom(f, DumpEntry(e, f.alt) + b, State(s, false)) ==
            match BinaryMergePair(f.mode, e, s.top)
            case None => Err(NotAMapping)
            case Some(top) => LoadFrom(f, b, State(s.(top := top), false))
    decreases e, 1
  {
    match e.value {
      case Leaf(l) => LoadLeaf(f, e.key, l, b, State(s, false));
      case Table(sub) => LoadDumpedTable(f, e.key, sub, b, s);
    }
  }

  lemma {:induction false} LoadDumpedTable(f: Format, key: string, sub: Doc, b: bytes, s: Stack<Leaf_>)
    requires Inverts(f.decode) && '\0' !in key && Carried(sub) && AllInRange(sub)
    requires AllInRange([Entry(key, Table(sub))])
    ensures LoadFrom(f, DumpEntry(Entry(key, Table(sub)), f.alt) + b, State(s, false)) ==
            match BinaryMergePair(f.mode, Entry(key, Table(sub)), s.top)
            case None => Err(NotAMapping)
            case Some(top) => LoadFrom(f, b, State(s.(top := top), false))
    decreases sub, 1
  {
    var closing := [End(f.alt)] + b;
    DumpedTable(key, sub, f.alt, b);
    LoadOpening(f, key, DumpEntries(sub, f.alt) + closing, State(s, false));
    if LeadsToLeaf(f.mode, s.top, key) {
      LoadAllOnLeaf(f, sub, b, s);
    } else {
      var inner := Enter(f.mode, s, key);
      LoadDumped(f, sub, closing, inner);
      var filled := BinaryMergeInto(f.mode, sub, inner.top);
      if filled.Some? {
        LoadEnd(f, b, State(inner.(top := filled.value), false));
        EnterFillLeave(f.mode, s, key, filled.value);
      }
    }
  }

  /** Loading the dump of a document, then more bytes, merges it into the open mapping or is refused. */
  lemma {:induction false} LoadDumped(f: Format, es: Doc, b: bytes, s: Stack<Leaf_>)
    requires Inverts(f.decode) && Carried(es) && AllInRange(es)
    ensures LoadFrom(f, DumpEntries(es, f.alt) + b, State(s, false)) ==
            match BinaryMergeInto(f.mode, es, s.top)
            case None => Err(NotAMapping)
            case Some(top) => LoadFrom(f, b, State(s.(top := top), false))
    decreases es, 0
  {
    if es == [] {
      assert DumpEntries(es, f.alt) + b == b;
    } else {
      var rest := DumpEntries(es[1..], f.alt) + b;
      assert DumpEntries(es, f.alt) + b == DumpEntry(es[0], f.alt) + rest;
      assert [es[0]][1..] == [];
      LoadDumpedPair(f, es[0], rest, s);
      var next := BinaryMergePair(f.mode, es[0], s.top);
      if next.Some? {
        LoadDumped(f, es[1..], b, s.(top := next.value));
      }
    }
  }

  // ---------- theorems ----------

  const EMPTY: State := State(Stack([], []), false)

  lemma {:induction false} BinaryMergeAppends(mode: Mode, doc: Doc, base: Doc)
    requires Storable(mode, doc) && Apart(mode, doc, base)
    ensures BinaryMergeInto(mode, doc, base) == Some(base + doc)
    decreases doc
  {
    if doc == [] {
      assert base + doc == base;
    } else {
      StepApart(mode, doc, base);
      if doc[0].value.Table? {
        var sub := doc[0].value.entries;
        BinaryMergeAppends(mode, sub, []);
        assert [] + sub == sub;
        var es := base + [Entry(doc[0].key, Table([]))];
        assert es[|base| := doc[0]] == base + [doc[0]];
      }
      assert BinaryMergePair(mode, doc[0], base) == Some(base + [doc[0]]);
      BinaryMergeAppends(mode, doc[1..], base + [doc[0]]);
      assert base + [doc[0]] + doc[1..] == base + doc;
    }
  }

  lemma LoadClosed(f: Format, doc: Doc, extra: bytes)
    ensures LoadFrom(f, [End(f.alt)] + extra, State(Stack([], doc), false)) == Ok((doc, extra))
  {
    assert ([End(f.alt)] + extra)[1..] == extra;
  }

  /** The pairs of a document, the end marker and any bytes, from the top level. */
  lemma LoadBody(f: Format, es: Doc, extra: bytes)
    requires Inverts(f.decode) && Carried(es) && AllInRange(es)
    ensures LoadFrom(f, DumpEntries(es, f.alt) + ([End(f.alt)] + extra), EMPTY) ==
            match BinaryMergeInto(f.mode, es, [])
            case None => Err(NotAMapping)
            case Some(doc) => Ok((doc, extra))
  {
    LoadDumped(f, es, [End(f.alt)] + extra, EMPTY.s);
    var merged := BinaryMergeInto(f.mode, es, []);
    if merged.Some? {
      LoadClosed(f, merged.value, extra);
    }
  }

  /** What `binary_loads` makes of a written document followed by any bytes. */
  lemma LoadWritten(f: Format, es: Doc, extra: bytes)
    requires Inverts(f.decode) && Carried(es)
    ensures var w := BinaryDumps(es, f.alt);
            w.Ok? && (es != [] || extra == [] ==>
              BinaryLoads(f, w.value + extra) ==
              match BinaryMergeInto(f.mode, es, [])
              case None => Err(NotAMapping)
              case Some(doc) => if extra == [] then Ok(doc) else Err(Remaining))
  {
    CarriedInRange(es);
    if es != [] {
      var pairs, closing := DumpEntries(es, f.alt), [End(f.alt)];
      LoadBody(f, es, extra);
      assert pairs + closing + extra == pairs + (closing + extra);
    }
  }

  /**
   Binary round trip, in both formats and including the empty document: documents with distinct
   keys under every mapper, documents with duplicates for a VDFDict that does not merge.
   */
  lemma BinaryRoundTrip(f: Format, es: Doc)
    requires Inverts(f.decode) && Carried(es) && Storable(f.mode, es)
    ensures BinaryDumps(es, f.alt).Ok? && BinaryLoads(f, BinaryDumps(es, f.alt).value) == Ok(es)
  {
    LoadWritten(f, es, []);
    var w := BinaryDumps(es, f.alt).value;
    assert w + [] == w;
    BinaryMergeAppends(f.mode, es, []);
    assert [] + es == es;
  }

  /** Bytes after the end of a non-empty document are never accepted. */
  lemma ExtraBytesRejected(f: Format, es: Doc, extra: bytes)
    requires Inverts(f.decode) && Carried(es) && es != [] && extra != []
    ensures BinaryDumps(es, f.alt).Ok? && BinaryLoads(f, BinaryDumps(es, f.alt).value + extra).Err?
  {
    LoadWritten(f, es, extra);
  }

  // ---------- assumptions that can be met ----------

  /** There is a decoder that inverts the encoder: no two texts have the same encoding. */
  lemma InverseExists() returns (decode: bytes -> string)
    ensures Inverts(decode)
  {
    decode := (b: bytes) => if exists text :: Utf8(text) == b then var text :| Utf8(text) == b; text else "";
    forall text: string
      ensures decode(Utf8(text)) == text
    {
      var found := decode(Utf8(text));
      Utf8Injective(found, text);
    }
  }

  // ---------- wide strings ----------

  lemma {:induction false} NoEarlierDoubleNul(b: bytes, i: nat)
    requires i < WideNul(b)
    ensures !DoubleNul(b, i)
  {
    if i > 0 {
      NoEarlierDoubleNul(b[1..], i - 1);
    }
  }

  /**
   The reader's terminator may be found too early: an encoding of even length is read back exactly when no
   two zero bytes are adjacent in it, be they of one character or of two.
   */
  lemma WideReadsBack(text: bytes, rest: bytes)
    requires |text| % 2 == 0
    ensures TakeWide(text + [0, 0] + rest) == Some((text, rest)) <==> forall i: nat :: !DoubleNul(text, i)
  {
    var b, n := text + [0, 0] + rest, WideNul(text + [0, 0] + rest);
    assert DoubleNul(b, |text|);
    if |text| < n {
      NoEarlierDoubleNul(b, |text|);
    }
    forall i: nat
      ensures DoubleNul(text, i) <==> i + 1 < |text| && DoubleNul(b, i)
    {
    }
    if n + n % 2 == |text| {
      assert b[..|text|] == text && b[|text| + 2..] == rest;
      forall i: nat
        ensures !DoubleNul(text, i)
      {
        if i < n {
          NoEarlierDoubleNul(b, i);
        }
      }
    } else {
      assert DoubleNul(text, n);
      assert |b[..n + n % 2]| != |text|;
    }
  }

  /** The two characters of these bytes are read as one: the scan finds the end across them. */
  lemma WideMisread(rest: bytes)
    ensures TakeWide([0x61, 0, 0, 1] + [0, 0] + rest) == Some(([0x61, 0], [0, 0] + rest))
  {
    var b := [0x61, 0, 0, 1] + [0, 0] + rest;
    assert b[0] == 0x61 && b[1] == 0 && b[1..][0] == 0 && b[1..][1] == 0;
    assert WideNul(b[1..]) == 0 && WideNul(b) == 1;
    assert b[..2] == [0x61, 0] && b[4..] == [0, 0] + rest;
  }
}
