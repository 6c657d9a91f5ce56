/**
 The flat form of translation files: `flatten_json` turns nested sections into dotted keys,
 `unflatten_dict` turns them back.
 */
module FlatJson {
  import opened Dicts
  import opened Outcomes
  import opened VdfMerge
  import opened VdfTree

  /** A JSON leaf: a string, or something that flattening skips. */
  datatype Scalar = Text(text: string) | NotText

  type Doc = Entries<Scalar>
  type Flat = Mapping<string, string>

  // ---------- dotted keys ----------

  predicate Dotless(s: string) {
    '.' !in s
  }

  /** `key.split(".")`. */
  function Split(key: string): (parts: seq<string>)
    ensures parts != [] && forall i :: 0 <= i < |parts| ==> Dotless(parts[i])
  {
    if key == "" then [""]
    else
      var rest := Split(key[1..]);
      if key[0] == '.' then [""] + rest else [[key[0]] + rest[0]] + rest[1..]
  }

  /** `".".join(path)`. */
  function Join(path: seq<string>): string {
    if path == [] then "" else if |path| == 1 then path[0] else path[0] + "." + Join(path[1..])
  }

  lemma {:induction false} SplitDotless(part: string)
    requires Dotless(part)
    ensures Split(part) == [part]
  {
    if part != "" {
      SplitDotless(part[1..]);
      assert part == [part[0]] + part[1..];
    }
  }

  lemma {:induction false} SplitAtDot(part: string, rest: string)
    requires Dotless(part)
    ensures Split(part + "." + rest) == [part] + Split(rest)
  {
    if part == "" {
      assert (part + "." + rest)[1..] == rest;
    } else {
      SplitAtDot(part[1..], rest);
      assert (part + "." + rest)[1..] == part[1..] + "." + rest;
      assert part == [part[0]] + part[1..];
    }
  }

  lemma {:induction false} SplitJoin(path: seq<string>)
    requires path != [] && forall i :: 0 <= i < |path| ==> Dotless(path[i])
    ensures Split(Join(path)) == path
  {
    if |path| == 1 {
      SplitDotless(path[0]);
    } else {
      SplitJoin(path[1..]);
      SplitAtDot(path[0], Join(path[1..]));
    }
  }

  lemma Regroup(a: string, b: string, c: string, d: string)
    ensures a + (b + c + d) == a + b + c + d
    ensures a == "" ==> a + b + c == b + c
  {
  }

  lemma JoinMore(part: string, parts: seq<string>)
    requires parts != []
    ensures Join([part] + parts) == part + "." + Join(parts)
  {
    assert ([part] + parts)[1..] == parts;
  }

  lemma JoinCons(c: char, parts: seq<string>)
    requires parts != []
    ensures Join([[c] + parts[0]] + parts[1..]) == [c] + Join(parts)
  {
    if |parts| > 1 {
      JoinMore([c] + parts[0], parts[1..]);
      Regroup([c], parts[0], ".", Join(parts[1..]));
    }
  }

  lemma {:induction false} JoinSplit(key: string)
    ensures Join(Split(key)) == key
  {
    if key != "" {
      JoinSplit(key[1..]);
      var rest := Split(key[1..]);
      assert key == [key[0]] + key[1..];
      if key[0] == '.' {
        JoinMore("", rest);
        Regroup("", ".", Join(rest), "");
      } else {
        JoinCons(key[0], rest);
      }
    }
  }

  /** `f"{prefix}.{key}" if prefix else key`. */
  function Composed(prefix: string, key: string): string {
    if prefix != "" then prefix + "." + key else key
  }

  lemma {:induction false} JoinAppend(path: seq<string>, key: string)
    requires path != [] && path[0] != ""
    ensures Join(path) != "" && Join(path + [key]) == Composed(Join(path), key)
  {
    if |path| == 1 {
      assert (path + [key])[1..] == [key];
    } else {
      assert (path + [key])[1..] == path[1..] + [key];
      JoinTail(path[1..], key);
      assert path[0] + "." + (Join(path[1..]) + "." + key) == path[0] + "." + Join(path[1..]) + "." + key;
    }
  }

  lemma {:induction false} JoinTail(path: seq<string>, key: string)
    requires path != []
    ensures Join(path + [key]) == Join(path) + "." + key
  {
    if |path| == 1 {
      assert (path + [key])[1..] == [key];
    } else {
      assert (path + [key])[1..] == path[1..] + [key];
      JoinTail(path[1..], key);
      assert path[0] + "." + (Join(path[1..]) + "." + key) == path[0] + "." + Join(path[1..]) + "." + key;
    }
  }

  // ---------- flatten ----------

  /** `flatten_json`, with the pairs of `flat` already collected. */
  function Flatten(doc: Doc, prefix: string, flat: Flat): Flat
    decreases doc
  {
    if doc == [] then flat
    else Flatten(doc[1..], prefix, FlattenNode(doc[0].value, Composed(prefix, doc[0].key), flat))
  }

  function FlattenNode(node: Node<Scalar>, composed: string, flat: Flat): Flat
    decreases node, 0
  {
    match node
    case Table(sub) => PutAll(flat, Flatten(sub, composed, []))
    case Leaf(Text(value)) => Put(flat, composed, value)
    case Leaf(NotText) => flat
  }

  function FlattenJson(doc: Doc): Flat {
    Flatten(doc, "", [])
  }

  /** Sections with distinct, non-empty keys without dots. */
  ghost predicate Plain(doc: Doc)
    decreases doc
  {
    && (forall i, j :: 0 <= i < j < |doc| ==> doc[i].key != doc[j].key)
    && (forall i :: 0 <= i < |doc| ==> doc[i].key != "" && Dotless(doc[i].key))
    && (forall i :: 0 <= i < |doc| && doc[i].value.Table? ==> Plain(doc[i].value.entries))
  }

  /** The strings of a document with their paths below `at`, in document order. */
  function Paths(doc: Doc, at: seq<string>): Mapping<seq<string>, string>
    decreases doc
  {
    if doc == [] then [] else PathsOf(doc[0].value, at + [doc[0].key]) + Paths(doc[1..], at)
  }

  function PathsOf(node: Node<Scalar>, at: seq<string>): Mapping<seq<string>, string>
    decreases node, 0
  {
    match node
    case Table(sub) => Paths(sub, at)
    case Leaf(Text(value)) => [(at, value)]
    case Leaf(NotText) => []
  }

  function Joined(items: Mapping<seq<string>, string>): (d: Flat)
    ensures |d| == |items| && forall i :: 0 <= i < |d| ==> d[i] == (Join(items[i].0), items[i].1)
  {
    seq(|items|, i requires 0 <= i < |items| => (Join(items[i].0), items[i].1))
  }

  function TextAt(doc: Doc, path: seq<string>): Option<string> {
    var leaf: Option<Scalar> := LeafAt(doc, path);
    if leaf.Some? && leaf.value.Text? then Some(leaf.value.text) else None
  }

  lemma PlainParts(doc: Doc)
    requires Plain(doc) && doc != []
    ensures Plain(doc[1..]) && doc[0].key != "" && Dotless(doc[0].key)
    ensures doc[0].value.Table? ==> Plain(doc[0].value.entries)
    ensures forall i :: 0 < i < |doc| ==> doc[i].key != doc[0].key
  {
  }

  /** A path that leads below `at`, through a key of the document, and has no dots or empty parts. */
  ghost predicate Below(doc: Doc, at: seq<string>, path: seq<string>) {
    && |path| > |at| && path[..|at|] == at
    && (exists i :: 0 <= i < |doc| && doc[i].key == path[|at|])
    && (forall i :: |at| <= i < |path| ==> path[i] != "" && Dotless(path[i]))
  }

  lemma {:induction false} PathsBelow(doc: Doc, at: seq<string>, j: nat)
    requires Plain(doc) && j < |Paths(doc, at)|
    ensures Below(doc, at, Paths(doc, at)[j].0)
    decreases doc
  {
    PlainParts(doc);
    var here := at + [doc[0].key];
    var first := PathsOf(doc[0].value, here);
    if j < |first| {
      var path := first[j].0;
      if doc[0].value.Table? {
        PathsBelow(doc[0].value.entries, here, j);
        assert path[..|at|] == path[..|here|][..|at|];
        assert path[|at|] == path[..|here|][|at|];
      }
    } else {
      PathsBelow(doc[1..], at, j - |first|);
      var i :| 0 <= i < |doc[1..]| && doc[1..][i].key == Paths(doc, at)[j].0[|at|];
      assert doc[i + 1].key == Paths(doc, at)[j].0[|at|];
    }
  }

  lemma {:induction false} PathsDistinct(doc: Doc, at: seq<string>)
    requires Plain(doc)
    ensures Distinct(Paths(doc, at))
    decreases doc
  {
    if doc != [] {
      PlainParts(doc);
      var here := at + [doc[0].key];
      var first, rest := PathsOf(doc[0].value, here), Paths(doc[1..], at);
      if doc[0].value.Table? {
        PathsDistinct(doc[0].value.entries, here);
      }
      PathsDistinct(doc[1..], at);
      forall j | 0 <= j < |first|
        ensures Get(rest, first[j].0).None?
      {
        FirstKeyOf(doc, at, j);
        NotInRest(doc, at, first[j].0);
      }
      DistinctConcat(first, rest);
    }
  }

  lemma FirstKeyOf(doc: Doc, at: seq<string>, j: nat)
    requires Plain(doc) && doc != [] && j < |PathsOf(doc[0].value, at + [doc[0].key])|
    ensures var path := PathsOf(doc[0].value, at + [doc[0].key])[j].0;
            |path| > |at| && path[|at|] == doc[0].key
  {
    PlainParts(doc);
    var here := at + [doc[0].key];
    if doc[0].value.Table? {
      var path := PathsOf(doc[0].value, here)[j].0;
      PathsBelow(doc[0].value.entries, here, j);
      assert path[|at|] == path[..|here|][|at|];
    }
  }

  lemma NotInRest(doc: Doc, at: seq<string>, path: seq<string>)
    requires Plain(doc) && doc != [] && |path| > |at| && path[|at|] == doc[0].key
    ensures Get(Paths(doc[1..], at), path).None?
  {
    var rest := Paths(doc[1..], at);
    PlainParts(doc);
    forall j | 0 <= j < |rest|
      ensures rest[j].0 != path
    {
      PathsBelow(doc[1..], at, j);
      var i :| 0 <= i < |doc[1..]| && doc[1..][i].key == rest[j].0[|at|];
      assert doc[1..][i] == doc[i + 1];
    }
    GetAt(rest, path);
  }

  lemma LeafAtFirst(doc: Doc, path: seq<string>)
    requires doc != [] && path != []
    ensures LeafAt(doc, path) ==
            if path[0] == doc[0].key then LeafOf(KindIn(doc[0].value, path[1..])) else LeafAt(doc[1..], path)
  {
  }

  /** The paths and strings listed are those found by looking a path up. */
  lemma {:induction false} PathsAreTexts(doc: Doc, at: seq<string>, path: seq<string>)
    requires Plain(doc)
    ensures Get(Paths(doc, at), at + path) == TextAt(doc, path)
    decreases doc
  {
    if doc == [] {
    } else {
      PlainParts(doc);
      var here, full := at + [doc[0].key], at + path;
      var first, rest := PathsOf(doc[0].value, here), Paths(doc[1..], at);
      GetConcat(first, rest, full);
      GetAt(first, full);
      PathsAreTexts(doc[1..], at, path);
      if path != [] && path[0] == doc[0].key {
        LeafAtFirst(doc, path);
        NotInRest(doc, at, full);
        assert full == here + path[1..];
        assert here == full <==> path[1..] == [];
        if doc[0].value.Table? {
          PathsAreTexts(doc[0].value.entries, here, path[1..]);
        }
      } else {
        if path != [] {
          LeafAtFirst(doc, path);
        }
        if Get(first, full).Some? {
          var j :| 0 <= j < |first| && first[j].0 == full;
          FirstKeyOf(doc, at, j);
        }
      }
    }
  }

  /** Paths whose dotted keys can be told apart. */
  ghost predicate Dotted(items: Mapping<seq<string>, string>) {
    forall j :: 0 <= j < |items| ==>
      items[j].0 != [] && forall i :: 0 <= i < |items[j].0| ==> Dotless(items[j].0[i])
  }

  lemma {:induction false} JoinedGet(items: Mapping<seq<string>, string>, key: string)
    requires Dotted(items)
    ensures Get(Joined(items), key) == Get(items, Split(key))
  {
    if items != [] {
      JoinedGet(items[1..], key);
      assert Joined(items)[1..] == Joined(items[1..]);
      SplitJoin(items[0].0);
      JoinSplit(key);
    }
  }

  lemma JoinedDistinct(items: Mapping<seq<string>, string>)
    requires Dotted(items) && Distinct(items)
    ensures Distinct(Joined(items))
  {
    DistinctAt(items);
    DistinctAt(Joined(items));
    forall i, j | 0 <= i < j < |items|
      ensures Joined(items)[i].0 != Joined(items)[j].0
    {
      SplitJoin(items[i].0);
      SplitJoin(items[j].0);
    }
  }

  lemma JoinedConcat(a: Mapping<seq<string>, string>, b: Mapping<seq<string>, string>)
    ensures Joined(a + b) == Joined(a) + Joined(b)
  {
  }

  lemma {:induction false} DistinctSuffix<K, V>(a: Mapping<K, V>, b: Mapping<K, V>)
    requires Distinct(a + b)
    ensures Distinct(b) && Distinct(a)
  {
    DistinctAt(a + b);
    DistinctAt(a);
    DistinctAt(b);
    assert forall i :: 0 <= i < |a| ==> (a + b)[i] == a[i];
    assert forall i :: 0 <= i < |b| ==> (a + b)[|a| + i] == b[i];
  }

  /** `flatten_json` collects the listed paths as dotted keys. */
  lemma {:induction false} FlattenIsPaths(doc: Doc, at: seq<string>, flat: Flat)
    requires Plain(doc) && (at == [] || at[0] != "") && Distinct(flat + Joined(Paths(doc, at)))
    ensures Flatten(doc, Join(at), flat) == flat + Joined(Paths(doc, at))
    decreases doc
  {
    if doc == [] {
      assert flat + Joined(Paths(doc, at)) == flat;
    } else {
      PlainParts(doc);
      var here := at + [doc[0].key];
      var first, rest := PathsOf(doc[0].value, here), Paths(doc[1..], at);
      FlatSteps(flat, first, rest);
      HereComposed(at, doc[0].key);
      NodeIsPaths(doc[0].value, here, flat);
      FlattenIsPaths(doc[1..], at, flat + Joined(first));
    }
  }

  lemma HereComposed(at: seq<string>, key: string)
    requires (at == [] || at[0] != "") && key != ""
    ensures Join(at + [key]) == Composed(Join(at), key) && (at + [key])[0] != ""
  {
    if at != [] {
      JoinAppend(at, key);
    } else {
      assert at + [key] == [key];
    }
  }

  lemma FlatSteps(flat: Flat, first: Mapping<seq<string>, string>, rest: Mapping<seq<string>, string>)
    requires Distinct(flat + Joined(first + rest))
    ensures flat + Joined(first + rest) == flat + Joined(first) + Joined(rest)
    ensures Distinct(flat + Joined(first)) && Distinct(flat + Joined(first) + Joined(rest))
  {
    JoinedConcat(first, rest);
    assert flat + Joined(first + rest) == flat + Joined(first) + Joined(rest);
    DistinctSuffix(flat + Joined(first), Joined(rest));
  }

  lemma {:induction false} NodeIsPaths(node: Node<Scalar>, at: seq<string>, flat: Flat)
    requires node.Table? ==> Plain(node.entries)
    requires at != [] && at[0] != "" && Distinct(flat + Joined(PathsOf(node, at)))
    ensures FlattenNode(node, Join(at), flat) == flat + Joined(PathsOf(node, at))
    decreases node, 0
  {
    var items := Joined(PathsOf(node, at));
    match node {
      case Table(sub) =>
        DistinctSuffix(flat, items);
        assert [] + items == items;
        FlattenIsPaths(sub, at, []);
        PutAllNew(flat, items);
      case Leaf(Text(value)) =>
        assert items == [(Join(at), value)];
        PutAllNew(flat, items);
      case Leaf(NotText) =>
        assert flat + items == flat;
    }
  }

  /** The flat form of plain sections has a dotted key for each string, and nothing else. */
  lemma FlattenMeaning(doc: Doc)
    requires Plain(doc)
    ensures FlattenJson(doc) == Joined(Paths(doc, [])) && Distinct(FlattenJson(doc))
    ensures Dotted(Paths(doc, [])) && Distinct(Paths(doc, []))
    ensures forall key :: Get(FlattenJson(doc), key) == TextAt(doc, Split(key))
  {
    var items := Paths(doc, []);
    forall j | 0 <= j < |items|
      ensures items[j].0 != [] && forall i :: 0 <= i < |items[j].0| ==> Dotless(items[j].0[i])
    {
      PathsBelow(doc, [], j);
    }
    PathsDistinct(doc, []);
    JoinedDistinct(items);
    assert [] + Joined(items) == Joined(items);
    FlattenIsPaths(doc, [], []);
    forall key: string
      ensures Get(FlattenJson(doc), key) == TextAt(doc, Split(key))
    {
      JoinedGet(items, key);
      PathsAreTexts(doc, [], Split(key));
      assert [] + Split(key) == Split(key);
    }
  }

  // ---------- unflatten ----------

  /** One key of `unflatten_dict`: open the sections of the path, or give up at a leaf, and store the value. */
  function Insert(doc: Doc, path: seq<string>, value: string): Doc
    requires path != []
    decreases |path|
  {
    if |path| == 1 then Store(false, doc, path[0], Leaf(Text(value)))
    else
      var i := Find(doc, path[0]);
      if i < |doc| && doc[i].value.Leaf? then doc
      else
        var section := if i < |doc| then doc[i].value.entries else [];
        Store(false, doc, path[0], Table(Insert(section, path[1..], value)))
  }

  function InsertAll(doc: Doc, items: Mapping<seq<string>, string>): Doc
    requires forall i :: 0 <= i < |items| ==> items[i].0 != []
    decreases |items|
  {
    if items == [] then doc else InsertAll(Insert(doc, items[0].0, items[0].1), items[1..])
  }

  function Pathed(flat: Flat): (items: Mapping<seq<string>, string>)
    ensures |items| == |flat| && forall i :: 0 <= i < |items| ==> items[i] == (Split(flat[i].0), flat[i].1)
  {
    seq(|flat|, i requires 0 <= i < |flat| => (Split(flat[i].0), flat[i].1))
  }

  /** `unflatten_dict`. */
  function UnflattenDict(flat: Flat): Doc {
    InsertAll([], Pathed(flat))
  }

  /** The document around a cursor: each outer section holds the next one under its key. */
  function Zip(trail: seq<(Doc, string)>, cursor: Doc): Doc
    decreases |trail|
  {
    if trail == [] then cursor
    else
      var (outer, key) := trail[|trail| - 1];
      Zip(trail[..|trail| - 1], Store(false, outer, key, Table(cursor)))
  }

  lemma ZipInto(trail: seq<(Doc, string)>, outer: Doc, key: string, cursor: Doc)
    ensures Zip(trail + [(outer, key)], cursor) == Zip(trail, Store(false, outer, key, Table(cursor)))
  {
    assert (trail + [(outer, key)])[..|trail|] == trail;
  }

  /** `setdefault(part, {})` makes no difference to what is stored below. */
  lemma StoreAfterDefault(doc: Doc, key: string, section: Doc)
    requires Find(doc, key) == |doc|
    ensures Store(false, doc + [Entry(key, Table([]))], key, Table(section)) == Store(false, doc, key, Table(section))
  {
    FindUnique(doc + [Entry(key, Table([]))], key, |doc|);
  }

  /** One key: a cursor walks down its parts, opening sections, unless a leaf is in the way. */
  method InsertKey(doc: Doc, parts: seq<string>, value: string) returns (out: Doc)
    requires parts != []
    ensures out == Insert(doc, parts, value)
  {
    var cursor: Doc, trail: seq<(Doc, string)>, blocked := doc, [], false;
    var n := 0;
    while n < |parts| - 1 && !blocked
      invariant n < |parts|
      invariant Zip(trail, if blocked then cursor else Insert(cursor, parts[n..], value)) == Insert(doc, parts, value)
      decreases |parts| - n, !blocked
    {
      var part := parts[n];
      var i := Find(cursor, part);
      assert parts[n..][1..] == parts[n + 1..];
      if i < |cursor| && cursor[i].value.Leaf? {
        blocked := true;
      } else {
        if i == |cursor| {
          ghost var rest := Insert([], parts[n + 1..], value);
          StoreAfterDefault(cursor, part, rest);
          cursor := cursor + [Entry(part, Table([]))];
        }
        ZipInto(trail, cursor, part, Insert(cursor[i].value.entries, parts[n + 1..], value));
        trail := trail + [(cursor, part)];
        cursor := cursor[i].value.entries;
        n := n + 1;
      }
    }
    if !blocked {
      assert parts[n..] == [parts[n]];
      cursor := Store(false, cursor, parts[n], Leaf(Text(value)));
    }
    out := Zip(trail, cursor);
  }

  /** `unflatten_dict`. */
  method Unflatten(flat: Flat) returns (out: Doc)
    ensures out == UnflattenDict(flat)
  {
    out := [];
    for k := 0 to |flat|
      invariant InsertAll(out, Pathed(flat)[k..]) == UnflattenDict(flat)
    {
      var parts, value := Split(flat[k].0), flat[k].1;
      assert Pathed(flat)[k..][0] == (parts, value) && Pathed(flat)[k..][1..] == Pathed(flat)[k + 1..];
      out := InsertKey(out, parts, value);
    }
  }

  /** No section is empty. */
  ghost predicate NoEmpty(doc: Doc)
    decreases doc
  {
    forall i :: 0 <= i < |doc| && doc[i].value.Table? ==> doc[i].value.entries != [] && NoEmpty(doc[i].value.entries)
  }

  lemma {:induction false} InsertKeeps(doc: Doc, path: seq<string>, value: string)
    requires path != [] && (forall i :: 0 <= i < |path| ==> path[i] != "" && Dotless(path[i]))
    requires Plain(doc) && NoEmpty(doc)
    ensures Plain(Insert(doc, path, value)) && NoEmpty(Insert(doc, path, value)) && Insert(doc, path, value) != []
    decreases |path|
  {
    var i := Find(doc, path[0]);
    if |path| > 1 && !(i < |doc| && doc[i].value.Leaf?) {
      var section := if i < |doc| then doc[i].value.entries else [];
      InsertKeeps(section, path[1..], value);
    }
  }

  // ---------- unflatten undoes flatten ----------

  predicate Texts(doc: Doc)
    decreases doc
  {
    forall i :: 0 <= i < |doc| ==>
      match doc[i].value
      case Leaf(l) => l.Text?
      case Table(sub) => Texts(sub)
  }

  /** The paths of `items` below the section `key`. */
  function Under(key: string, items: Mapping<seq<string>, string>): (r: Mapping<seq<string>, string>)
    ensures |r| == |items| && forall i :: 0 <= i < |r| ==> r[i] == ([key] + items[i].0, items[i].1)
  {
    seq(|items|, i requires 0 <= i < |items| => ([key] + items[i].0, items[i].1))
  }

  lemma {:induction false} PathsUnder(doc: Doc, key: string, at: seq<string>)
    ensures Paths(doc, [key] + at) == Under(key, Paths(doc, at))
    decreases doc
  {
    if doc != [] {
      var here := at + [doc[0].key];
      assert [key] + at + [doc[0].key] == [key] + here;
      if doc[0].value.Table? {
        PathsUnder(doc[0].value.entries, key, here);
      }
      PathsUnder(doc[1..], key, at);
      var first, rest := PathsOf(doc[0].value, here), Paths(doc[1..], at);
      assert PathsOf(doc[0].value, [key] + here) == Under(key, first);
      assert Under(key, first + rest) == Under(key, first) + Under(key, rest);
    }
  }

  lemma {:induction false} PathsNonEmpty(doc: Doc, at: seq<string>)
    requires NoEmpty(doc) && Texts(doc) && doc != []
    ensures Paths(doc, at) != []
    decreases doc
  {
    var here := at + [doc[0].key];
    if doc[0].value.Table? {
      PathsNonEmpty(doc[0].value.entries, here);
    }
    assert PathsOf(doc[0].value, here) != [];
  }

  predicate NewKey(doc: Doc, key: string) {
    Find(doc, key) == |doc|
  }

  lemma {:induction false} InsertUnder(base: Doc, key: string, section: Doc, items: Mapping<seq<string>, string>)
    requires NewKey(base, key) && forall i :: 0 <= i < |items| ==> items[i].0 != []
    ensures InsertAll(base + [Entry(key, Table(section))], Under(key, items)) ==
            base + [Entry(key, Table(InsertAll(section, items)))]
    decreases |items|
  {
    if items != [] {
      var (path, value) := items[0];
      InsertIntoSection(base, key, section, path, value);
      assert Under(key, items)[1..] == Under(key, items[1..]);
      InsertUnder(base, key, Insert(section, path, value), items[1..]);
    }
  }

  lemma InsertIntoSection(base: Doc, key: string, section: Doc, path: seq<string>, value: string)
    requires NewKey(base, key) && path != []
    ensures Insert(base + [Entry(key, Table(section))], [key] + path, value) ==
            base + [Entry(key, Table(Insert(section, path, value)))]
  {
    var doc := base + [Entry(key, Table(section))];
    FindUnique(doc, key, |base|);
    assert ([key] + path)[1..] == path;
  }

  /** The first path into a new section makes the section. */
  lemma InsertNewSection(base: Doc, key: string, path: seq<string>, value: string)
    requires NewKey(base, key) && path != []
    ensures Insert(base, [key] + path, value) == base + [Entry(key, Table(Insert([], path, value)))]
  {
    assert ([key] + path)[1..] == path;
  }

  lemma NewSection(base: Doc, key: string, items: Mapping<seq<string>, string>)
    requires NewKey(base, key) && items != [] && forall i :: 0 <= i < |items| ==> items[i].0 != []
    ensures InsertAll(base, Under(key, items)) == base + [Entry(key, Table(InsertAll([], items)))]
  {
    var (path, value) := items[0];
    InsertNewSection(base, key, path, value);
    assert Under(key, items)[1..] == Under(key, items[1..]);
    InsertUnder(base, key, Insert([], path, value), items[1..]);
  }

  lemma {:induction false} InsertAllConcat(doc: Doc, a: Mapping<seq<string>, string>, b: Mapping<seq<string>, string>)
    requires forall i :: 0 <= i < |a| ==> a[i].0 != []
    requires forall i :: 0 <= i < |b| ==> b[i].0 != []
    ensures InsertAll(doc, a + b) == InsertAll(InsertAll(doc, a), b)
    decreases |a|
  {
    if a == [] {
      assert a + b == b;
    } else {
      assert (a + b)[1..] == a[1..] + b;
      InsertAllConcat(Insert(doc, a[0].0, a[0].1), a[1..], b);
    }
  }

  lemma PathsNotEmpty(doc: Doc)
    requires Plain(doc)
    ensures forall i :: 0 <= i < |Paths(doc, [])| ==> Paths(doc, [])[i].0 != []
  {
    forall i | 0 <= i < |Paths(doc, [])|
      ensures Paths(doc, [])[i].0 != []
    {
      PathsBelow(doc, [], i);
    }
  }

  lemma {:induction false} RebuildEntry(base: Doc, e: Entry<Scalar>)
    requires e.value.Table? ==> Plain(e.value.entries) && NoEmpty(e.value.entries) && Texts(e.value.entries)
    requires if e.value.Leaf? then e.value.leaf.Text? else e.value.entries != []
    requires NewKey(base, e.key)
    ensures forall i :: 0 <= i < |PathsOf(e.value, [e.key])| ==> PathsOf(e.value, [e.key])[i].0 != []
    ensures InsertAll(base, PathsOf(e.value, [e.key])) == base + [e]
    decreases e, 0
  {
    var first := PathsOf(e.value, [e.key]);
    match e.value {
      case Leaf(l) =>
        assert InsertAll(base, first) == InsertAll(Insert(base, [e.key], l.text), first[1..]);
      case Table(sub) =>
        assert [e.key] + [] == [e.key];
        PathsUnder(sub, e.key, []);
        PathsNotEmpty(sub);
        PathsNonEmpty(sub, []);
        NewSection(base, e.key, Paths(sub, []));
        Rebuild([], sub);
        assert [] + sub == sub;
    }
  }

  lemma NewKeys(base: Doc, doc: Doc)
    requires Plain(doc) && doc != [] && forall i :: 0 <= i < |doc| ==> NewKey(base, doc[i].key)
    ensures forall i :: 0 <= i < |doc[1..]| ==> NewKey(base + [doc[0]], doc[1..][i].key)
  {
    forall i | 0 <= i < |doc[1..]|
      ensures NewKey(base + [doc[0]], doc[1..][i].key)
    {
      assert doc[1..][i] == doc[i + 1];
      FindUnique(base + [doc[0]], doc[i + 1].key, |base| + 1);
    }
  }

  lemma {:induction false} Rebuild(base: Doc, doc: Doc)
    requires Plain(doc) && NoEmpty(doc) && Texts(doc)
    requires forall i :: 0 <= i < |doc| ==> NewKey(base, doc[i].key)
    requires forall i :: 0 <= i < |Paths(doc, [])| ==> Paths(doc, [])[i].0 != []
    ensures InsertAll(base, Paths(doc, [])) == base + doc
    decreases doc
  {
    if doc == [] {
      assert base + doc == base;
    } else {
      RebuildFirst(base, doc);
      PlainParts(doc);
      NewKeys(base, doc);
      Rebuild(base + [doc[0]], doc[1..]);
      Consed(base, doc);
    }
  }

  lemma Consed(base: Doc, doc: Doc)
    requires doc != []
    ensures base + [doc[0]] + doc[1..] == base + doc
  {
  }

  lemma {:induction false} RebuildFirst(base: Doc, doc: Doc)
    requires Plain(doc) && NoEmpty(doc) && Texts(doc) && doc != []
    requires forall i :: 0 <= i < |doc| ==> NewKey(base, doc[i].key)
    requires forall i :: 0 <= i < |Paths(doc, [])| ==> Paths(doc, [])[i].0 != []
    ensures forall i :: 0 <= i < |Paths(doc[1..], [])| ==> Paths(doc[1..], [])[i].0 != []
    ensures InsertAll(base, Paths(doc, [])) == InsertAll(base + [doc[0]], Paths(doc[1..], []))
    decreases doc, 0
  {
    PlainParts(doc);
    PathsNotEmpty(doc[1..]);
    assert [] + [doc[0].key] == [doc[0].key];
    RebuildEntry(base, doc[0]);
    InsertAllConcat(base, PathsOf(doc[0].value, [doc[0].key]), Paths(doc[1..], []));
  }

  lemma PathedJoined(items: Mapping<seq<string>, string>)
    requires Dotted(items)
    ensures Pathed(Joined(items)) == items
  {
    forall i | 0 <= i < |items|
      ensures Pathed(Joined(items))[i] == items[i]
    {
      SplitJoin(items[i].0);
    }
  }

  /** Unflattening gives back the nested dict that was flattened, order included. */
  lemma UnflattenFlatten(doc: Doc)
    requires Plain(doc) && NoEmpty(doc) && Texts(doc)
    ensures UnflattenDict(FlattenJson(doc)) == doc
  {
    FlattenMeaning(doc);
    PathedJoined(Paths(doc, []));
    PathsNotEmpty(doc);
    Rebuild([], doc);
    assert [] + doc == doc;
  }

  // ---------- which keys survive unflattening ----------

  /** A leaf stands at a shorter path. */
  predicate Blocked(doc: Doc, path: seq<string>)
    requires path != []
  {
    |path| > 1 &&
    var i := Find(doc, path[0]);
    i < |doc| && (doc[i].value.Leaf? || Blocked(doc[i].value.entries, path[1..]))
  }

  lemma {:induction false} LeafEndsPath(doc: Doc, path: seq<string>, longer: seq<string>)
    requires path < longer && LeafAt(doc, path).Some?
    ensures LeafAt(doc, longer).None? && Blocked(doc, longer)
    decreases |path|
  {
    var i := Find(doc, path[0]);
    assert longer[0] == path[0];
    LeafAtStep(doc, path);
    LeafAtStep(doc, longer);
    if doc[i].value.Table? {
      LeafEndsPath(doc[i].value.entries, path[1..], longer[1..]);
    }
  }

  lemma {:induction false} Blocker(doc: Doc, path: seq<string>) returns (leaf: seq<string>)
    requires path != [] && Blocked(doc, path)
    ensures leaf < path && LeafAt(doc, leaf).Some?
    decreases |path|
  {
    var i := Find(doc, path[0]);
    leaf := path[..1];
    LeafAtStep(doc, leaf);
    if doc[i].value.Table? {
      var below := Blocker(doc[i].value.entries, path[1..]);
      leaf := [path[0]] + below;
      assert leaf[1..] == below && path == [path[0]] + path[1..];
      LeafAtStep(doc, leaf);
    }
  }

  /** What storing one key does to the leaf at any path: it stops at a leaf, and replaces a section. */
  lemma {:induction false} InsertLeafAt(doc: Doc, path: seq<string>, value: string, at: seq<string>)
    requires path != []
    ensures LeafAt(Insert(doc, path, value), at) ==
            if Blocked(doc, path) then LeafAt(doc, at)
            else if at == path then Some(Text(value))
            else if path < at then None
            else LeafAt(doc, at)
    decreases |path|
  {
    var i := Find(doc, path[0]);
    HeadAndTail(path, at);
    if at != [] {
      LeafAtStep(doc, at);
    }
    if |path| == 1 {
      LeafAtStore(doc, path[0], Leaf(Text(value)), at);
    } else if !(i < |doc| && doc[i].value.Leaf?) {
      var section := if i < |doc| then doc[i].value.entries else [];
      LeafAtStore(doc, path[0], Table(Insert(section, path[1..], value)), at);
      if at != [] && at[0] == path[0] {
        InsertLeafAt(section, path[1..], value, at[1..]);
      }
    }
  }

  lemma HeadAndTail(path: seq<string>, at: seq<string>)
    requires path != []
    ensures at == path <==> at != [] && at[0] == path[0] && at[1..] == path[1..]
    ensures path < at <==> at != [] && at[0] == path[0] && path[1..] < at[1..]
  {
    assert path == [path[0]] + path[1..];
    if at != [] {
      assert at == [at[0]] + at[1..];
    }
  }

  /** Another path of the items leads through this one. */
  ghost predicate Led(items: Mapping<seq<string>, string>, at: seq<string>) {
    exists j :: 0 <= j < |items| && items[j].0 < at
  }

  ghost predicate NonEmptyPaths(items: Mapping<seq<string>, string>) {
    forall j :: 0 <= j < |items| ==> items[j].0 != []
  }

  /** The shortest of the paths that lead to a path is led to by none. */
  lemma {:induction false} ShortestLead(items: Mapping<seq<string>, string>, at: seq<string>) returns (j: nat)
    requires Led(items, at)
    ensures j < |items| && items[j].0 < at && !Led(items, items[j].0)
    decreases |at|
  {
    j :| 0 <= j < |items| && items[j].0 < at;
    if Led(items, items[j].0) {
      var path := items[j].0;
      j := ShortestLead(items, path);
      assert items[j].0 < at;
    }
  }

  ghost function Survivor(items: Mapping<seq<string>, string>, at: seq<string>): Option<Scalar> {
    if Led(items, at) || Get(items, at).None? then None else Some(Text(Get(items, at).value))
  }

  lemma {:induction false} Survivors(items: Mapping<seq<string>, string>, at: seq<string>)
    requires NonEmptyPaths(items) && Distinct(items)
    ensures LeafAt(InsertAll([], items), at) == Survivor(items, at)
    decreases |items|, 0
  {
    if items != [] {
      var n := |items| - 1;
      var before, path := items[..n], items[n].0;
      assert items == before + [(path, items[n].1)];
      LastInsert(before, path, items[n].1);
      LastIsNew(before, path, items[n].1);
      Survivors(before, at);
      InsertLeafAt(InsertAll([], before), path, items[n].1, at);
      BlockedWhenLed(before, path);
      SurvivorStep(items, at);
    }
  }

  lemma LastInsert(before: Mapping<seq<string>, string>, path: seq<string>, value: string)
    requires NonEmptyPaths(before) && path != []
    ensures NonEmptyPaths(before + [(path, value)])
    ensures InsertAll([], before + [(path, value)]) == Insert(InsertAll([], before), path, value)
  {
    var last := [(path, value)];
    InsertAllConcat([], before, last);
    assert last[1..] == [];
  }

  lemma LastIsNew(before: Mapping<seq<string>, string>, path: seq<string>, value: string)
    requires Distinct(before + [(path, value)])
    ensures Distinct(before) && Get(before, path).None?
  {
    DistinctSuffix(before, [(path, value)]);
    assert [(path, value)] + [] == [(path, value)];
    NotBefore(before, (path, value), []);
  }

  lemma {:induction false} BlockedWhenLed(items: Mapping<seq<string>, string>, path: seq<string>)
    requires NonEmptyPaths(items) && Distinct(items) && path != []
    ensures Blocked(InsertAll([], items), path) <==> Led(items, path)
    decreases |items|, 1
  {
    var doc := InsertAll([], items);
    if Led(items, path) {
      var j := ShortestLead(items, path);
      GetAt(items, items[j].0);
      Survivors(items, items[j].0);
      LeafEndsPath(doc, items[j].0, path);
    }
    if Blocked(doc, path) {
      var leaf := Blocker(doc, path);
      Survivors(items, leaf);
      GetAt(items, leaf);
    }
  }

  lemma LedStep(items: Mapping<seq<string>, string>, last: (seq<string>, string), at: seq<string>)
    ensures Led(items + [last], at) <==> Led(items, at) || last.0 < at
  {
    var all := items + [last];
    assert all[|items|] == last && forall i :: 0 <= i < |items| ==> all[i] == items[i];
  }

  lemma SurvivorStep(items: Mapping<seq<string>, string>, at: seq<string>)
    requires items != [] && Distinct(items) && Get(items[..|items| - 1], items[|items| - 1].0).None?
    ensures var n := |items| - 1;
            Survivor(items, at) ==
            if Led(items[..n], items[n].0) then if at == items[n].0 then None else if items[n].0 < at then None
                                                else Survivor(items[..n], at)
            else if at == items[n].0 then Some(Text(items[n].1))
            else if items[n].0 < at then None
            else Survivor(items[..n], at)
  {
    var n := |items| - 1;
    var before, last := items[..n], items[n];
    assert items == before + [last];
    LedStep(before, last, at);
    GetConcat(before, [last], at);
    assert Get([last], at) == if at == last.0 then Some(last.1) else None;
  }

  /** A flat dict whose keys have no empty parts. */
  ghost predicate FlatKeys(flat: Flat) {
    Distinct(flat) && PlainPaths(Pathed(flat))
  }

  ghost predicate PlainPaths(items: Mapping<seq<string>, string>) {
    forall j :: 0 <= j < |items| ==>
      items[j].0 != [] && forall i :: 0 <= i < |items[j].0| ==> items[j].0[i] != "" && Dotless(items[j].0[i])
  }

  ghost predicate SameDict<K(!new), V(!new)>(a: Mapping<K, V>, b: Mapping<K, V>) {
    forall k :: Get(a, k) == Get(b, k)
  }

  /** `key` is `other`, a dot and more: a section has to stand where `other` wants a string. */
  ghost predicate Leads(other: string, key: string) {
    Split(other) < Split(key)
  }

  /** Some key of the flat dict leads through to this one. */
  ghost predicate LedThrough(flat: Flat, key: string) {
    exists j :: 0 <= j < |flat| && Leads(flat[j].0, key)
  }

  /** No key leads through another. */
  ghost predicate PrefixFree(flat: Flat) {
    forall i :: 0 <= i < |flat| ==> !LedThrough(flat, flat[i].0)
  }

  lemma SplitCons(c: char, rest: string)
    ensures Split([c] + rest) == if c == '.' then [""] + Split(rest) else [[c] + Split(rest)[0]] + Split(rest)[1..]
  {
    assert ([c] + rest)[1..] == rest;
  }

  lemma {:induction false} SplitConcat(a: string, b: string)
    ensures Split(a + "." + b) == Split(a) + Split(b)
  {
    if a == "" {
      assert (a + "." + b)[1..] == b;
    } else {
      var c, rest := a[0], a[1..];
      SplitConcat(rest, b);
      assert a == [c] + rest && a + "." + b == [c] + (rest + "." + b);
      SplitCons(c, rest);
      SplitCons(c, rest + "." + b);
      FrontOfSum(c, Split(rest), Split(b));
    }
  }

  lemma FrontOfSum(c: char, s: seq<string>, t: seq<string>)
    requires s != []
    ensures [[c] + (s + t)[0]] + (s + t)[1..] == [[c] + s[0]] + s[1..] + t
    ensures [""] + (s + t) == [""] + s + t
  {
  }

  lemma {:induction false} JoinConcat(a: seq<string>, b: seq<string>)
    requires a != [] && b != []
    ensures Join(a + b) == Join(a) + "." + Join(b)
  {
    if |a| == 1 {
      assert a + b == [a[0]] + b;
      JoinMore(a[0], b);
    } else {
      JoinConcat(a[1..], b);
      assert a + b == [a[0]] + (a[1..] + b) && a == [a[0]] + a[1..];
      JoinMore(a[0], a[1..] + b);
      JoinMore(a[0], a[1..]);
      assert a[0] + "." + (Join(a[1..]) + "." + Join(b)) == a[0] + "." + Join(a[1..]) + "." + Join(b);
    }
  }

  /** In terms of the strings: a key leads to those that begin with it and a dot. */
  lemma LeadsIsDottedPrefix(other: string, key: string)
    ensures Leads(other, key) <==> other + "." <= key
  {
    if Leads(other, key) {
      var rest := Split(key)[|Split(other)|..];
      assert Split(key) == Split(other) + rest;
      JoinSplit(other);
      JoinSplit(key);
      JoinConcat(Split(other), rest);
    }
    if other + "." <= key {
      var rest := key[|other + "."|..];
      assert key == other + "." + rest;
      SplitConcat(other, rest);
    }
  }

  lemma {:induction false} PathedGet(flat: Flat, key: string)
    ensures Get(flat, key) == Get(Pathed(flat), Split(key))
  {
    if flat != [] {
      PathedGet(flat[1..], key);
      assert Pathed(flat)[1..] == Pathed(flat[1..]);
      JoinSplit(key);
      JoinSplit(flat[0].0);
    }
  }

  lemma PathedDistinct(flat: Flat)
    requires Distinct(flat)
    ensures Distinct(Pathed(flat)) && NonEmptyPaths(Pathed(flat))
  {
    DistinctAt(flat);
    DistinctAt(Pathed(flat));
    forall i, j | 0 <= i < j < |flat|
      ensures Pathed(flat)[i].0 != Pathed(flat)[j].0
    {
      JoinSplit(flat[i].0);
      JoinSplit(flat[j].0);
    }
  }

  lemma {:induction false} InsertAllKeeps(doc: Doc, items: Mapping<seq<string>, string>)
    requires Plain(doc) && NoEmpty(doc) && PlainPaths(items)
    ensures Plain(InsertAll(doc, items)) && NoEmpty(InsertAll(doc, items))
    decreases |items|
  {
    if items != [] {
      InsertKeeps(doc, items[0].0, items[0].1);
      InsertAllKeeps(Insert(doc, items[0].0, items[0].1), items[1..]);
    }
  }

  lemma UnflattenIsPlain(flat: Flat)
    requires FlatKeys(flat)
    ensures Plain(UnflattenDict(flat)) && NoEmpty(UnflattenDict(flat))
  {
    InsertAllKeeps([], Pathed(flat));
  }

  /**
   Which keys survive unflattening, in any insertion order: those to which no other key leads. Of two
   conflicting keys that is the shorter one, whether it comes first or last.
   */
  lemma SurvivingKeys(flat: Flat, key: string)
    requires FlatKeys(flat)
    ensures Get(FlattenJson(UnflattenDict(flat)), key) == if LedThrough(flat, key) then None else Get(flat, key)
  {
    var items := Pathed(flat);
    UnflattenIsPlain(flat);
    FlattenMeaning(UnflattenDict(flat));
    PathedDistinct(flat);
    PathedGet(flat, key);
    Survivors(items, Split(key));
    LedIsLedThrough(flat, key);
  }

  lemma LedIsLedThrough(flat: Flat, key: string)
    ensures Led(Pathed(flat), Split(key)) <==> LedThrough(flat, key)
  {
    if Led(Pathed(flat), Split(key)) {
      var j :| 0 <= j < |flat| && Pathed(flat)[j].0 < Split(key);
      assert Leads(flat[j].0, key);
    }
    if LedThrough(flat, key) {
      var j :| 0 <= j < |flat| && Leads(flat[j].0, key);
      assert Pathed(flat)[j].0 < Split(key);
    }
  }

  /** A key that is led to is led to by a key that survives. */
  lemma LeadingSurvivor(flat: Flat, key: string) returns (other: string)
    requires LedThrough(flat, key)
    ensures Get(flat, other).Some? && Leads(other, key) && !LedThrough(flat, other)
  {
    LedIsLedThrough(flat, key);
    var j := ShortestLead(Pathed(flat), Split(key));
    other := flat[j].0;
    LedIsLedThrough(flat, other);
    GetAt(flat, other);
  }

  /**
   Flattening gives back the flat dict that was unflattened, in whatever order its keys were inserted,
   exactly when no key leads through another.
   */
  lemma FlattenUnflatten(flat: Flat)
    requires FlatKeys(flat)
    ensures SameDict(FlattenJson(UnflattenDict(flat)), flat) <==> PrefixFree(flat)
  {
    forall key: string
      ensures Get(FlattenJson(UnflattenDict(flat)), key) == if LedThrough(flat, key) then None else Get(flat, key)
    {
      SurvivingKeys(flat, key);
    }
    forall key: string
      ensures Get(flat, key).Some? <==> exists i :: 0 <= i < |flat| && flat[i].0 == key
    {
      GetAt(flat, key);
    }
  }

  lemma TwoInserts(p: seq<string>, x: string, q: seq<string>, y: string)
    requires p != [] && q != []
    ensures InsertAll([], [(p, x), (q, y)]) == Insert(Insert([], p, x), q, y)
  {
    LastInsert([], p, x);
    LastInsert([(p, x)], q, y);
    assert [] + [(p, x)] == [(p, x)] && [(p, x)] + [(q, y)] == [(p, x), (q, y)];
  }

  lemma SectionOrString(a: string, b: string, x: string, y: string)
    ensures var doc: Doc := [Entry(a, Leaf(Text(y)))];
            Insert(Insert([], [a, b], x), [a], y) == doc && Insert(Insert([], [a], y), [a, b], x) == doc
  {
    var section: Doc := [Entry(b, Leaf(Text(x)))];
    assert [a, b][1..] == [b] && Insert([], [b], x) == section;
    assert Insert([], [a, b], x) == [Entry(a, Table(section))];
    assert Insert([], [a], y) == [Entry(a, Leaf(Text(y)))];
  }

  /** The later of two conflicting keys can win: "a" overwrites the section that "a.b" opened. */
  lemma LaterKeyWins(x: string, y: string)
    ensures UnflattenDict([("a.b", x), ("a", y)]) == [Entry("a", Leaf(Text(y)))]
    ensures UnflattenDict([("a", y), ("a.b", x)]) == [Entry("a", Leaf(Text(y)))]
  {
    SplitDotless("a");
    SplitDotless("b");
    SplitAtDot("a", "b");
    assert "a" + "." + "b" == "a.b";
    var long, short := Split("a.b"), Split("a");
    assert long == ["a", "b"] && short == ["a"];
    assert Pathed([("a.b", x), ("a", y)]) == [(long, x), (short, y)];
    assert Pathed([("a", y), ("a.b", x)]) == [(short, y), (long, x)];
    TwoInserts(long, x, short, y);
    TwoInserts(short, y, long, x);
    SectionOrString("a", "b", x, y);
  }
}
