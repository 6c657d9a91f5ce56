/**
 The binary form byte by byte: which bytes the writer puts down for every key and value, and what the reader
 makes of any such bytes, whoever wrote them.
 */
module VdfLayout {
  import opened Outcomes
  import opened Bytes
  import opened VdfTree
  import opened VdfStack
  import opened VdfBinary

  /** A pair in a file: its key's bytes, and its value's, without the NULs that end them. */
  datatype Record =
    | TextRecord(key: bytes, text: bytes)
    | WideRecord(key: bytes, text: bytes)
    | Int32Record(key: bytes, number: bytes)
    | FloatRecord(key: bytes, number: bytes)
    | PointerRecord(key: bytes, number: bytes)
    | ColorRecord(key: bytes, number: bytes)
    | UInt64Record(key: bytes, number: bytes)
    | Int64Record(key: bytes, number: bytes)
    | TableRecord(key: bytes, records: seq<Record>)

  function Ending(alt: bool): byte {
    if alt then 11 else 8
  }

  /** The type byte. */
  function RecordTag(r: Record): byte {
    match r
    case TextRecord(_, _) => 1
    case WideRecord(_, _) => 5
    case Int32Record(_, _) => 2
    case FloatRecord(_, _) => 3
    case PointerRecord(_, _) => 4
    case ColorRecord(_, _) => 6
    case UInt64Record(_, _) => 7
    case Int64Record(_, _) => 10
    case TableRecord(_, _) => 0
  }

  /** What follows the key: text up to a NUL or two, a number, or records up to the end marker. */
  function RecordValue(r: Record, alt: bool): bytes
    decreases r, 0
  {
    match r
    case TextRecord(_, text) => text + [0]
    case WideRecord(_, text) => text + [0, 0]
    case TableRecord(_, records) => RecordsBytes(records, alt) + [Ending(alt)]
    case _ => r.number
  }

  function RecordBytes(r: Record, alt: bool): bytes
    decreases r, 1
  {
    [RecordTag(r)] + (r.key + [0] + RecordValue(r, alt))
  }

  function RecordsBytes(rs: seq<Record>, alt: bool): bytes
    decreases rs
  {
    if rs == [] then [] else RecordBytes(rs[0], alt) + RecordsBytes(rs[1..], alt)
  }

  // ---------- numbers ----------

  /** Four bytes, the lowest first. */
  function Unsigned4(b: seq<int>): int
    requires |b| == 4
  {
    b[0] + 0x100 * b[1] + 0x1_0000 * b[2] + 0x100_0000 * b[3]
  }

  /** The highest bit is the sign. */
  function Signed4(b: seq<int>): int
    requires |b| == 4
  {
    Unsigned4(b) - if b[3] >= 0x80 then 0x1_0000_0000 else 0
  }

  function Unsigned8(b: seq<int>): int
    requires |b| == 8
  {
    Unsigned4(b[..4]) + 0x1_0000_0000 * Unsigned4(b[4..])
  }

  function Signed8(b: seq<int>): int
    requires |b| == 8
  {
    Unsigned8(b) - if b[7] >= 0x80 then 0x1_0000_0000_0000_0000 else 0
  }

  /** Byte `j` is the number divided by 256 to the j, rounded down, modulo 256: for negative numbers too. */
  function Four(v: int): bytes {
    [v % 0x100, v / 0x100 % 0x100, v / 0x1_0000 % 0x100, v / 0x100_0000 % 0x100]
  }

  function Eight(v: int): bytes {
    Four(v) + Four(v / 0x1_0000_0000)
  }

  lemma FourBytes(n: nat, k: nat)
    ensures LittleEndian(n, k + 4) == Four(n) + LittleEndian(n / 0x1_0000_0000, k)
  {
    var n1, n2, n3, n4 := n / 0x100, n / 0x1_0000, n / 0x100_0000, n / 0x1_0000_0000;
    assert n1 / 0x100 == n2 && n2 / 0x100 == n3 && n3 / 0x100 == n4;
    var rest := LittleEndian(n4, k);
    assert LittleEndian(n3, k + 1) == [n3 % 0x100] + rest;
    assert LittleEndian(n2, k + 2) == [n2 % 0x100] + ([n3 % 0x100] + rest);
    assert LittleEndian(n1, k + 3) == [n1 % 0x100] + ([n2 % 0x100] + ([n3 % 0x100] + rest));
    assert LittleEndian(n, k + 4) == [n % 0x100] + ([n1 % 0x100] + ([n2 % 0x100] + ([n3 % 0x100] + rest)));
  }

  lemma LittleEndianIs(n: nat)
    ensures LittleEndian(n, 4) == Four(n) && LittleEndian(n, 8) == Eight(n)
  {
    FourBytes(n, 0);
    FourBytes(n, 4);
    FourBytes(n / 0x1_0000_0000, 0);
  }

  lemma Powers()
    ensures Power256(4) == 0x1_0000_0000 && Power256(8) == 0x1_0000_0000_0000_0000
  {
    assert Power256(1) == 0x100 * Power256(0) && Power256(2) == 0x100 * Power256(1);
    assert Power256(3) == 0x100 * Power256(2) && Power256(4) == 0x100 * Power256(3);
    assert Power256(5) == 0x100 * Power256(4) && Power256(6) == 0x100 * Power256(5);
    assert Power256(7) == 0x100 * Power256(6) && Power256(8) == 0x100 * Power256(7);
  }

  lemma Signed4Is(v: int)
    requires FitsSigned(v, 4)
    ensures Signed(v, 4) == Four(v)
  {
    Powers();
    LittleEndianIs(if v < 0 then v + 0x1_0000_0000 else v);
    FourOfSum(v, 1);
  }

  lemma Signed8Is(v: int)
    requires FitsSigned(v, 8)
    ensures Signed(v, 8) == Eight(v)
  {
    Powers();
    LittleEndianIs(if v < 0 then v + 0x1_0000_0000_0000_0000 else v);
    if v < 0 {
      EightOfSum(v);
    }
  }

  lemma EightOfSum(v: int)
    ensures Eight(v + 0x1_0000_0000_0000_0000) == Eight(v)
  {
    assert (v + 0x1_0000_0000_0000_0000) / 0x1_0000_0000 == v / 0x1_0000_0000 + 0x1_0000_0000;
    FourOfSum(v, 0x1_0000_0000);
    FourOfSum(v / 0x1_0000_0000, 1);
  }

  lemma ByteOfSum(x: int, m: int)
    ensures (x + 0x100 * m) % 0x100 == x % 0x100
  {
  }

  lemma Quotients(v: int, k: int)
    ensures (v + 0x1_0000_0000 * k) / 0x100 == v / 0x100 + 0x100 * (0x1_0000 * k)
    ensures (v + 0x1_0000_0000 * k) / 0x1_0000 == v / 0x1_0000 + 0x100 * (0x100 * k)
    ensures (v + 0x1_0000_0000 * k) / 0x100_0000 == v / 0x100_0000 + 0x100 * k
  {
  }

  lemma FourOfSum(v: int, k: int)
    ensures Four(v + 0x1_0000_0000 * k) == Four(v)
  {
    Quotients(v, k);
    ByteOfSum(v, 0x100_0000 * k);
    ByteOfSum(v / 0x100, 0x1_0000 * k);
    ByteOfSum(v / 0x1_0000, 0x100 * k);
    ByteOfSum(v / 0x100_0000, k);
  }

  // ---------- reading bytes as numbers ----------

  lemma FromFour(b: bytes)
    requires |b| == 4
    ensures FromLittleEndian(b) == Unsigned4(b) < 0x1_0000_0000 && FromSigned(b) == Signed4(b)
  {
    Powers();
    FromSplit(b, []);
    assert b + [] == b;
  }

  lemma FromSplit(b: bytes, rest: bytes)
    requires |b| == 4
    ensures FromLittleEndian(b + rest) == Unsigned4(b) + 0x1_0000_0000 * FromLittleEndian(rest)
  {
    var all := b + rest;
    assert all == [b[0]] + ([b[1]] + ([b[2]] + ([b[3]] + rest)));
    FromFirst(b[0], [b[1]] + ([b[2]] + ([b[3]] + rest)));
    FromFirst(b[1], [b[2]] + ([b[3]] + rest));
    FromFirst(b[2], [b[3]] + rest);
    FromFirst(b[3], rest);
  }

  lemma FromFirst(x: byte, rest: bytes)
    ensures FromLittleEndian([x] + rest) == x as int + 0x100 * FromLittleEndian(rest)
  {
    assert ([x] + rest)[1..] == rest;
  }

  lemma FromEight(b: bytes)
    requires |b| == 8
    ensures FromLittleEndian(b) == Unsigned8(b) && FromSigned(b) == Signed8(b)
  {
    Powers();
    assert b == b[..4] + b[4..];
    FromSplit(b[..4], b[4..]);
    FromFour(b[..4]);
    FromFour(b[4..]);
    assert b[4..][3] == b[7];
  }

  // ---------- reading any file ----------

  ghost predicate NoZeros(b: bytes) {
    0 !in b
  }

  ghost predicate NoZeroPair(b: bytes) {
    forall i :: 0 <= i < |b| - 1 ==> b[i] != 0 || b[i + 1] != 0
  }

  ghost predicate IsRecord(f: Format, r: Record)
    decreases r, 0
  {
    && NoZeros(r.key)
    && match r
       case TextRecord(_, text) => NoZeros(text)
       case WideRecord(_, text) => |text| % 2 == 0 && NoZeroPair(text) && f.decodeWide(text).Some?
       case TableRecord(_, records) => AreRecords(f, records)
       case UInt64Record(_, number) => |number| == 8
       case Int64Record(_, number) => |number| == 8
       case _ => |r.number| == 4
  }

  ghost predicate AreRecords(f: Format, rs: seq<Record>)
    decreases rs
  {
    rs != [] ==> IsRecord(f, rs[0]) && AreRecords(f, rs[1..])
  }

  ghost function RecordNode(f: Format, r: Record): Node<Leaf_>
    requires IsRecord(f, r)
    decreases r, 0
  {
    match r
    case TextRecord(_, text) => Leaf(Text(f.decode(text)))
    case WideRecord(_, text) => Leaf(Text(f.decodeWide(text).value))
    case Int32Record(_, number) => Leaf(Int32(Signed4(number)))
    case FloatRecord(_, number) => Leaf(Float32(number))
    case PointerRecord(_, number) => Leaf(Pointer(Signed4(number)))
    case ColorRecord(_, number) => Leaf(Color(Signed4(number)))
    case UInt64Record(_, number) => Leaf(UInt64(Unsigned8(number)))
    case Int64Record(_, number) => Leaf(Int64(Signed8(number)))
    case TableRecord(_, records) => Table(RecordsDoc(f, records))
  }

  /** The document that records stand for. */
  ghost function RecordsDoc(f: Format, rs: seq<Record>): (doc: Doc)
    requires AreRecords(f, rs)
    decreases rs
  {
    if rs == [] then [] else [Entry(f.decode(rs[0].key), RecordNode(f, rs[0]))] + RecordsDoc(f, rs[1..])
  }

  lemma TakeRaw(text: bytes, b: bytes)
    requires NoZeros(text)
    ensures TakeString(text + [0] + b) == Some((text, b))
  {
    NulAt(text, b);
    assert (text + [0] + b)[..|text|] == text && (text + [0] + b)[|text| + 1..] == b;
  }

  lemma TakeRawWide(text: bytes, b: bytes)
    requires |text| % 2 == 0 && NoZeroPair(text)
    ensures TakeWide(text + [0, 0] + b) == Some((text, b))
  {
    WideReadsBack(text, b);
    forall i: nat
      ensures !DoubleNul(text, i)
    {
    }
  }

  lemma TakeNumber(f: Format, tag: byte, number: bytes, b: bytes)
    requires tag in {2, 3, 4, 6, 7, 10} && |number| == if tag == 7 || tag == 10 then 8 else 4
    ensures TakeLeaf(f, tag, number + b) == Ok((Number(tag, number), b))
  {
    assert (number + b)[..|number|] == number && (number + b)[|number|..] == b;
  }

  lemma TakeRecord(f: Format, r: Record, b: bytes)
    requires IsRecord(f, r) && !r.TableRecord?
    ensures TakeLeaf(f, RecordTag(r), RecordValue(r, f.alt) + b) == Ok((RecordNode(f, r).leaf, b))
  {
    match r {
      case TextRecord(_, text) =>
        TakeRaw(text, b);
      case WideRecord(_, text) =>
        TakeRawWide(text, b);
      case UInt64Record(_, number) =>
        FromEight(number);
        TakeNumber(f, 7, number, b);
      case Int64Record(_, number) =>
        FromEight(number);
        TakeNumber(f, 10, number, b);
      case Int32Record(_, number) =>
        FromFour(number);
        TakeNumber(f, 2, number, b);
      case FloatRecord(_, number) =>
        TakeNumber(f, 3, number, b);
      case PointerRecord(_, number) =>
        FromFour(number);
        TakeNumber(f, 4, number, b);
      case ColorRecord(_, number) =>
        FromFour(number);
        TakeNumber(f, 6, number, b);
    }
  }

  /** A type byte, a key and its NUL. */
  lemma LoadRecord(f: Format, tag: byte, key: bytes, rest: bytes, st: State)
    requires NoZeros(key) && tag != Ending(f.alt)
    ensures LoadFrom(f, [tag] + (key + [0] + rest), st) == After(f, LoadValue(f, tag, f.decode(key), rest, st))
  {
    LoadStep(f, tag, key + [0] + rest, st);
    TakeRaw(key, rest);
  }

  lemma LoadLeafRecord(f: Format, r: Record, b: bytes, st: State)
    requires IsRecord(f, r) && !r.TableRecord?
    ensures LoadFrom(f, RecordBytes(r, f.alt) + b, st) ==
            if st.onLeaf then Err(NotAMapping)
            else LoadFrom(f, b, State(StoreLeaf(f.mode, st.s, f.decode(r.key), RecordNode(f, r).leaf), false))
  {
    TakeRecord(f, r, b);
    Regroup(RecordTag(r), r.key, RecordValue(r, f.alt), b);
    LoadRecord(f, RecordTag(r), r.key, RecordValue(r, f.alt) + b, st);
  }

  lemma TableGroup(key: bytes, records: seq<Record>, alt: bool, b: bytes)
    ensures RecordBytes(TableRecord(key, records), alt) + b ==
            [0] + (key + [0] + (RecordsBytes(records, alt) + ([Ending(alt)] + b)))
  {
    Regroup(0, key, RecordsBytes(records, alt) + [Ending(alt)], b);
    assert RecordsBytes(records, alt) + [Ending(alt)] + b == RecordsBytes(records, alt) + ([Ending(alt)] + b);
  }

  lemma LoadTableRecord(f: Format, key: bytes, rest: bytes, st: State)
    requires NoZeros(key)
    ensures LoadFrom(f, [0] + (key + [0] + rest), st) ==
            if st.onLeaf then Err(NotAMapping)
            else if LeadsToLeaf(f.mode, st.s.top, f.decode(key)) then LoadFrom(f, rest, st.(onLeaf := true))
            else LoadFrom(f, rest, State(Enter(f.mode, st.s, f.decode(key)), false))
  {
    LoadRecord(f, 0, key, rest, st);
  }

  lemma RecordsOnLeaf(f: Format, rs: seq<Record>, b: bytes, s: Stack<Leaf_>)
    requires AreRecords(f, rs)
    ensures LoadFrom(f, RecordsBytes(rs, f.alt) + ([Ending(f.alt)] + b), State(s, true)) ==
            if rs == [] then LoadFrom(f, b, State(s, false)) else Err(NotAMapping)
  {
    var closing := [Ending(f.alt)] + b;
    if rs == [] {
      assert RecordsBytes(rs, f.alt) + closing == closing;
      LoadEnd(f, b, State(s, true));
    } else {
      var rest := RecordsBytes(rs[1..], f.alt) + closing;
      assert RecordsBytes(rs, f.alt) + closing == RecordBytes(rs[0], f.alt) + rest;
      if rs[0].TableRecord? {
        TableGroup(rs[0].key, rs[0].records, f.alt, rest);
        LoadTableRecord(f, rs[0].key, RecordsBytes(rs[0].records, f.alt) + ([Ending(f.alt)] + rest), State(s, true));
      } else {
        LoadLeafRecord(f, rs[0], rest, State(s, true));
      }
    }
  }

  lemma {:induction false} LoadTable(f: Format, r: Record, b: bytes, s: Stack<Leaf_>)
    requires r.TableRecord? && IsRecord(f, r)
    ensures LoadFrom(f, RecordBytes(r, f.alt) + b, State(s, false)) ==
            match BinaryMergePair(f.mode, Entry(f.decode(r.key), RecordNode(f, r)), s.top)
            case None => Err(NotAMapping)
            case Some(top) => LoadFrom(f, b, State(s.(top := top), false))
    decreases r, 1
  {
    var key, sub := f.decode(r.key), RecordsDoc(f, r.records);
    var closing := [Ending(f.alt)] + b;
    TableGroup(r.key, r.records, f.alt, b);
    LoadTableRecord(f, r.key, RecordsBytes(r.records, f.alt) + closing, State(s, false));
    if LeadsToLeaf(f.mode, s.top, key) {
      RecordsOnLeaf(f, r.records, b, s);
    } else {
      var inner := Enter(f.mode, s, key);
      LoadRecords(f, r.records, closing, inner);
      var filled := BinaryMergeInto(f.mode, sub, inner.top);
      if filled.Some? {
        LoadEnd(f, b, State(inner.(top := filled.value), false));
        EnterFillLeave(f.mode, s, key, filled.value);
      }
    }
  }

  /** Records, then more bytes: they are merged into the open mapping, or refused below a leaf. */
  lemma {:induction false} LoadRecords(f: Format, rs: seq<Record>, b: bytes, s: Stack<Leaf_>)
    requires AreRecords(f, rs)
    ensures LoadFrom(f, RecordsBytes(rs, f.alt) + b, State(s, false)) ==
            match BinaryMergeInto(f.mode, RecordsDoc(f, rs), s.top)
            case None => Err(NotAMapping)
            case Some(top) => LoadFrom(f, b, State(s.(top := top), false))
    decreases rs, 0
  {
    if rs == [] {
      assert RecordsBytes(rs, f.alt) + b == b;
    } else {
      var rest := RecordsBytes(rs[1..], f.alt) + b;
      var first := Entry(f.decode(rs[0].key), RecordNode(f, rs[0]));
      assert RecordsBytes(rs, f.alt) + b == RecordBytes(rs[0], f.alt) + rest;
      assert RecordsDoc(f, rs)[1..] == RecordsDoc(f, rs[1..]);
      if rs[0].TableRecord? {
        LoadTable(f, rs[0], rest, s);
      } else {
        LoadLeafRecord(f, rs[0], rest, State(s, false));
      }
      var next := BinaryMergePair(f.mode, first, s.top);
      if next.Some? {
        LoadRecords(f, rs[1..], b, s.(top := next.value));
      }
    }
  }

  /**
   A file of records, whoever wrote it and whatever the decoder, loads as the document they stand for, merged
   from left to right; it fails where a mapping meets a leaf, and when bytes are left after the end marker.
   */
  lemma ReadsRecords(f: Format, rs: seq<Record>, extra: bytes)
    requires AreRecords(f, rs)
    ensures BinaryLoads(f, RecordsBytes(rs, f.alt) + ([Ending(f.alt)] + extra)) ==
            match BinaryMergeInto(f.mode, RecordsDoc(f, rs), [])
            case None => Err(NotAMapping)
            case Some(doc) => if extra == [] then Ok(doc) else Err(Remaining)
  {
    LoadRecords(f, rs, [Ending(f.alt)] + extra, Stack([], []));
    var merged := BinaryMergeInto(f.mode, RecordsDoc(f, rs), []);
    if merged.Some? {
      LoadClosed(f, merged.value, extra);
    }
  }

  // ---------- what the reader refuses ----------

  /** After any records: the state in which the rest of the file is read. */
  lemma AfterRecords(f: Format, rs: seq<Record>, rest: bytes) returns (s: Stack<Leaf_>)
    requires AreRecords(f, rs) && BinaryMergeInto(f.mode, RecordsDoc(f, rs), []).Some?
    ensures s == Stack([], BinaryMergeInto(f.mode, RecordsDoc(f, rs), []).value)
    ensures LoadFrom(f, RecordsBytes(rs, f.alt) + rest, State(Stack([], []), false))
            == LoadFrom(f, rest, State(s, false))
  {
    LoadRecords(f, rs, rest, Stack([], []));
    s := Stack([], BinaryMergeInto(f.mode, RecordsDoc(f, rs), []).value);
  }

  /** A type byte that is none of the listed ones, the other format's end marker included. */
  lemma UnknownTypeRaised(f: Format, rs: seq<Record>, tag: byte, key: bytes, rest: bytes)
    requires AreRecords(f, rs) && BinaryMergeInto(f.mode, RecordsDoc(f, rs), []).Some?
    requires tag !in {0, 1, 2, 3, 4, 5, 6, 7, 10} && tag != Ending(f.alt) && NoZeros(key)
    ensures BinaryLoads(f, RecordsBytes(rs, f.alt) + ([tag] + (key + [0] + rest))) == Err(UnknownType)
  {
    var s := AfterRecords(f, rs, [tag] + (key + [0] + rest));
    LoadRecord(f, tag, key, rest, State(s, false));
  }

  lemma TakeShort(f: Format, tag: byte, rest: bytes)
    requires (tag in {2, 3, 4, 6} && |rest| < 4) || (tag in {7, 10} && |rest| < 8)
    ensures TakeLeaf(f, tag, rest) == Err(ShortNumber)
  {
  }

  lemma ValueFails(f: Format, tag: byte, key: string, rest: bytes, s: Stack<Leaf_>, e: LoadError)
    requires tag != 0 && TakeLeaf(f, tag, rest) == Err(e)
    ensures LoadValue(f, tag, key, rest, State(s, false)) == Err(e)
  {
  }

  /** A number of which bytes are missing. */
  lemma ShortNumberRaised(f: Format, rs: seq<Record>, tag: byte, key: bytes, rest: bytes)
    requires AreRecords(f, rs) && BinaryMergeInto(f.mode, RecordsDoc(f, rs), []).Some? && NoZeros(key)
    requires (tag in {2, 3, 4, 6} && |rest| < 4) || (tag in {7, 10} && |rest| < 8)
    ensures BinaryLoads(f, RecordsBytes(rs, f.alt) + ([tag] + (key + [0] + rest))) == Err(ShortNumber)
  {
    var s := AfterRecords(f, rs, [tag] + (key + [0] + rest));
    LoadRecord(f, tag, key, rest, State(s, false));
    TakeShort(f, tag, rest);
    ValueFails(f, tag, f.decode(key), rest, s, ShortNumber);
  }

  /** A wide string that is not UTF-16. */
  lemma BadWideRaised(f: Format, rs: seq<Record>, key: bytes, text: bytes, rest: bytes)
    requires AreRecords(f, rs) && BinaryMergeInto(f.mode, RecordsDoc(f, rs), []).Some? && NoZeros(key)
    requires |text| % 2 == 0 && NoZeroPair(text) && f.decodeWide(text) == None
    ensures BinaryLoads(f, RecordsBytes(rs, f.alt) + ([5] + (key + [0] + (text + [0, 0] + rest)))) == Err(BadWideString)
  {
    var s := AfterRecords(f, rs, [5] + (key + [0] + (text + [0, 0] + rest)));
    LoadRecord(f, 5, key, text + [0, 0] + rest, State(s, false));
    TakeRawWide(text, rest);
  }

  /** A key, or a text, that no NUL ends. */
  lemma UnterminatedRaised(f: Format, rs: seq<Record>, tag: byte, text: bytes)
    requires AreRecords(f, rs) && BinaryMergeInto(f.mode, RecordsDoc(f, rs), []).Some?
    requires tag != Ending(f.alt) && NoZeros(text)
    ensures BinaryLoads(f, RecordsBytes(rs, f.alt) + ([tag] + text)) == Err(Unterminated)
    ensures BinaryLoads(f, RecordsBytes(rs, f.alt) + ([1] + (text + [0] + text))) == Err(Unterminated)
  {
    var s := AfterRecords(f, rs, [tag] + text);
    LoadStep(f, tag, text, State(s, false));
    NoNul(text);
    s := AfterRecords(f, rs, [1] + (text + [0] + text));
    LoadRecord(f, 1, text, text, State(s, false));
  }

  lemma NoNul(text: bytes)
    requires NoZeros(text)
    ensures TakeString(text) == None
  {
  }

  /** A file whose end marker is missing, or that ends inside a mapping, and a file that ends at once. */
  lemma EndOfFile(f: Format, rs: seq<Record>, key: bytes)
    requires AreRecords(f, rs) && BinaryMergeInto(f.mode, RecordsDoc(f, rs), []).Some?
    ensures BinaryLoads(f, RecordsBytes(rs, f.alt)) == Ok(BinaryMergeInto(f.mode, RecordsDoc(f, rs), []).value)
    ensures NoZeros(key) ==> BinaryLoads(f, RecordsBytes(rs, f.alt) + ([0] + (key + [0]))) == Err(Incomplete)
  {
    var s := AfterRecords(f, rs, []);
    assert RecordsBytes(rs, f.alt) + [] == RecordsBytes(rs, f.alt);
    if NoZeros(key) {
      assert key + [0] + [] == key + [0];
      s := AfterRecords(f, rs, [0] + (key + [0] + []));
      LoadTableRecord(f, key, [], State(s, false));
    }
  }

  // ---------- what the writer puts down ----------

  predicate Fits(l: Leaf_) {
    match l
    case Text(_) => true
    case Int32(v) => -0x8000_0000 <= v < 0x8000_0000
    case Pointer(v) => -0x8000_0000 <= v < 0x8000_0000
    case Color(v) => -0x8000_0000 <= v < 0x8000_0000
    case UInt64(v) => 0 <= v < 0x1_0000_0000_0000_0000
    case Int64(v) => -0x8000_0000_0000_0000 <= v < 0x8000_0000_0000_0000
    case Float32(bits) => |bits| == 4
  }

  predicate AllFit(es: Doc)
    decreases es
  {
    es != [] ==>
      && (match es[0].value
          case Leaf(l) => Fits(l)
          case Table(sub) => AllFit(sub))
      && AllFit(es[1..])
  }

  function RecordOf(e: Entry<Leaf_>): Record
    decreases e, 0
  {
    var key := Utf8(e.key);
    match e.value
    case Table(sub) => TableRecord(key, RecordsOf(sub))
    case Leaf(l) =>
      match l
      case Text(text) => TextRecord(key, Utf8(text))
      case Int32(v) => Int32Record(key, Four(v))
      case Pointer(v) => PointerRecord(key, Four(v))
      case Color(v) => ColorRecord(key, Four(v))
      case UInt64(v) => UInt64Record(key, Eight(v))
      case Int64(v) => Int64Record(key, Eight(v))
      case Float32(bits) => FloatRecord(key, bits)
  }

  /** The records of a document, in order. */
  function RecordsOf(es: Doc): seq<Record>
    decreases es
  {
    if es == [] then [] else [RecordOf(es[0])] + RecordsOf(es[1..])
  }

  lemma {:induction false} RangesAre(es: Doc)
    ensures AllInRange(es) <==> AllFit(es)
    decreases es
  {
    Powers();
    if es != [] {
      if es[0].value.Table? {
        RangesAre(es[0].value.entries);
      }
      RangesAre(es[1..]);
    }
  }

  lemma PayloadIs(e: Entry<Leaf_>, alt: bool)
    requires e.value.Leaf? && InRange(e.value.leaf)
    ensures Payload(e.value.leaf) == RecordValue(RecordOf(e), alt) && Tag(e.value.leaf) == RecordTag(RecordOf(e))
  {
    match e.value.leaf {
      case Text(_) =>
      case Int32(v) => Signed4Is(v);
      case Pointer(v) => Signed4Is(v);
      case Color(v) => Signed4Is(v);
      case UInt64(v) => LittleEndianIs(v);
      case Int64(v) => Signed8Is(v);
      case Float32(_) =>
    }
  }

  lemma {:induction false} EntryIs(e: Entry<Leaf_>, alt: bool)
    requires AllInRange([e])
    ensures DumpEntry(e, alt) == RecordBytes(RecordOf(e), alt)
    decreases e, 0
  {
    match e.value {
      case Leaf(l) => PayloadIs(e, alt);
      case Table(sub) => EntriesAre(sub, alt);
    }
  }

  lemma {:induction false} EntriesAre(es: Doc, alt: bool)
    requires AllInRange(es)
    ensures DumpEntries(es, alt) == RecordsBytes(RecordsOf(es), alt)
    decreases es
  {
    if es != [] {
      assert [es[0]][1..] == [];
      EntryIs(es[0], alt);
      EntriesAre(es[1..], alt);
      assert RecordsOf(es)[1..] == RecordsOf(es[1..]);
    }
  }

  /**
   `binary_dumps` writes the records of the document, byte for byte, and the end marker; it fails exactly
   when a number is out of its type's range.
   */
  lemma WritesRecords(es: Doc, alt: bool)
    ensures BinaryDumps(es, alt) ==
            if !AllFit(es) then Err(OutOfRange)
            else if es == [] then Ok([])
            else Ok(RecordsBytes(RecordsOf(es), alt) + [Ending(alt)])
  {
    RangesAre(es);
    if AllFit(es) {
      EntriesAre(es, alt);
    }
  }
}
