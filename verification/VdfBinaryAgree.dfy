/**
 Exactly when a binary load gives what the text load gives, for every document and mapper, and exactly
 when a binary load gives back the document that was dumped.
 */
module VdfBinaryAgree {
  import opened Outcomes
  import opened VdfBinary
  import opened VdfBinaryMerge
  import opened VdfLoadable
  import opened VdfMerge
  import opened VdfTree

  // ---------- what a dropped mapping leaves, by the assignments ----------

  /** Entry `i` of a log is a mapping assigned where a leaf stands, and no leaf is assigned there or above later. */
  ghost predicate Dropped(log: seq<Assignment<Leaf_>>, i: nat)
    requires i < |log|
  {
    && log[i].leaf.None? && LeafOf(BinaryKindAfter(log[..i], log[i].path, None)).Some?
    && forall j :: i < j < |log| && log[j].leaf.Some? ==> !(log[j].path <= log[i].path)
  }

  ghost predicate DroppedAt(log: seq<Assignment<Leaf_>>, path: seq<string>) {
    exists i :: 0 <= i < |log| && log[i].path == path && Dropped(log, i)
  }

  lemma KindOne(log: seq<Assignment<Leaf_>>, a: Assignment<Leaf_>, path: seq<string>)
    ensures KindAfter(true, log + [a], path, None) ==
            if a.path == path then Some(KindOf(a))
            else if a.path < path && a.leaf.Some? then None
            else KindAfter(true, log, path, None)
  {
    KindAfterConcat(true, log, [a], path, None);
    assert [a][1..] == [];
  }

  lemma DroppedOne(log: seq<Assignment<Leaf_>>, a: Assignment<Leaf_>, path: seq<string>)
    ensures DroppedAt(log + [a], path) <==>
            if a.leaf.Some? then DroppedAt(log, path) && !(a.path <= path)
            else DroppedAt(log, path) || (a.path == path && LeafOf(BinaryKindAfter(log, path, None)).Some?)
  {
    var all, n := log + [a], |log|;
    assert all[..n] == log && all[n] == a;
    forall i | 0 <= i < n
      ensures all[..i] == log[..i] && all[i] == log[i]
      ensures Dropped(all, i) <==> Dropped(log, i) && (a.leaf.Some? ==> !(a.path <= log[i].path))
    {
      assert all[..i] == log[..i];
    }
    assert Dropped(all, n) <==> a.leaf.None? && LeafOf(BinaryKindAfter(log, a.path, None)).Some?;
    if DroppedAt(log, path) {
      var i :| 0 <= i < n && log[i].path == path && Dropped(log, i);
      assert all[i].path == path;
    }
  }

  /**
   At which paths the two merges differ, told by the assignments: where a mapping was dropped. There the
   binary merge has a leaf and the text merge a mapping.
   */
  lemma {:induction false} DifferAtDropped(log: seq<Assignment<Leaf_>>, path: seq<string>)
    ensures var (binary, text) := (BinaryKindAfter(log, path, None), KindAfter(true, log, path, None));
            if DroppedAt(log, path) then LeafOf(binary).Some? && text == Some(TableKind) else binary == text
    decreases |log|
  {
    if log != [] {
      var n := |log| - 1;
      assert log == log[..n] + [log[n]];
      DifferAtDropped(log[..n], path);
      DroppedOne(log[..n], log[n], path);
      BinaryKindOne(log[..n], log[n], path);
      KindOne(log[..n], log[n], path);
    }
  }

  // ---------- plain dicts ----------

  /** Equal, but for leaves of `b` where `t` has an empty mapping. */
  predicate AlikeNode(b: Node<Leaf_>, t: Node<Leaf_>)
    decreases b
  {
    match b
    case Leaf(_) => b == t || t == Table([])
    case Table(sub) => t.Table? && Alike(sub, t.entries)
  }

  predicate Alike(b: Doc, t: Doc)
    decreases b
  {
    |b| == |t| && forall i :: 0 <= i < |b| ==> b[i].key == t[i].key && AlikeNode(b[i].value, t[i].value)
  }

  lemma StoreAlike(b: Doc, t: Doc, key: string, bn: Node<Leaf_>, tn: Node<Leaf_>)
    requires Alike(b, t) && AlikeNode(bn, tn)
    ensures Alike(Store(false, b, key, bn), Store(false, t, key, tn))
  {
    FindSameKeys(b, t, key);
  }

  lemma {:induction false} PairAlike(mode: Mode, e: Entry<Leaf_>, b: Doc, t: Doc)
    requires !mode.multi && mode.merge && Alike(b, t) && BinaryMergePair(mode, e, b).Some?
    ensures Alike(BinaryMergePair(mode, e, b).value, MergePair(mode, e, t))
    decreases e, 0
  {
    FindSameKeys(b, t, e.key);
    match e.value {
      case Leaf(_) => StoreAlike(b, t, e.key, e.value, e.value);
      case Table(sub) =>
        var (ts, j) := Open(mode, t, e.key);
        if !LeadsToLeaf(mode, b, e.key) {
          var (bs, i) := Open(mode, b, e.key);
          MergeAlike(mode, sub, bs[i].value.entries, ts[j].value.entries);
        }
    }
  }

  lemma {:induction false} MergeAlike(mode: Mode, doc: Doc, b: Doc, t: Doc)
    requires !mode.multi && mode.merge && Alike(b, t) && BinaryMergeInto(mode, doc, b).Some?
    ensures Alike(BinaryMergeInto(mode, doc, b).value, MergeInto(mode, doc, t))
    decreases doc
  {
    if doc != [] {
      PairAlike(mode, doc[0], b, t);
      MergeAlike(mode, doc[1..], BinaryMergePair(mode, doc[0], b).value, MergePair(mode, doc[0], t));
    }
  }

  ghost predicate SameKindAt(b: Doc, t: Doc, path: seq<string>) {
    KindAt(b, path) == KindAt(t, path)
  }

  ghost predicate SameKinds(b: Doc, t: Doc) {
    forall path :: path != [] ==> SameKindAt(b, t, path)
  }

  lemma KindAtEntry(es: Doc, i: nat, path: seq<string>)
    requires i < |es| && Find(es, es[i].key) == i
    ensures KindAt(es, [es[i].key] + path) == KindIn(es[i].value, path)
  {
    assert ([es[i].key] + path)[1..] == path;
  }

  lemma {:induction false} SameKindsSame(b: Doc, t: Doc)
    requires Alike(b, t) && DistinctKeys(t) && SameKinds(b, t)
    ensures b == t
    decreases b
  {
    forall i | 0 <= i < |b|
      ensures b[i] == t[i]
    {
      FindSameKeys(b, t, b[i].key);
      assert Find(t, t[i].key) == i;
      KindAtEntry(b, i, []);
      KindAtEntry(t, i, []);
      assert SameKindAt(b, t, [b[i].key] + []);
      if b[i].value.Table? {
        forall path: seq<string> | path != []
          ensures SameKindAt(b[i].value.entries, t[i].value.entries, path)
        {
          assert SameKindAt(b, t, [b[i].key] + path);
          KindAtEntry(b, i, path);
          KindAtEntry(t, i, path);
        }
        SameKindsSame(b[i].value.entries, t[i].value.entries);
      }
    }
  }

  /**
   A merging load into a plain dict agrees with the text load exactly when nothing is read below a leaf
   and no empty mapping is dropped.
   */
  lemma PlainAgrees(mode: Mode, doc: Doc)
    requires !mode.multi && mode.merge
    ensures var log := Assignments(doc, []);
            BinaryMergeInto(mode, doc, []) == Some(MergeInto(mode, doc, [])) <==>
            forall i :: 0 <= i < |log| ==> !ReadsBelowLeaf(log, i) && !Dropped(log, i)
  {
    var log, text, binary := Assignments(doc, []), MergeInto(mode, doc, []), BinaryMergeInto(mode, doc, []);
    BinaryMergeMeaning(mode, doc);
    if binary.Some? {
      forall path: seq<string> | path != []
        ensures SameKindAt(binary.value, text, path) <==> !DroppedAt(log, path)
      {
        DifferAtDropped(log, path);
        MergeMeaning(mode, doc, [], [], path);
        assert [] + path == path;
      }
      AssignmentsBelow(doc, []);
      if forall i :: 0 <= i < |log| ==> !Dropped(log, i) {
        MergeAlike(mode, doc, [], []);
        MergeIntoLoadable(mode, doc, []);
        PlainLoadable(mode, text);
        SameKindsSame(binary.value, text);
      } else {
        var i :| 0 <= i < |log| && Dropped(log, i);
        assert [] < log[i].path && DroppedAt(log, log[i].path);
      }
    }
  }

  // ---------- a VDFDict that merges ----------

  /** Pairs at all levels. */
  function Size(es: Doc): nat
    decreases es
  {
    if es == [] then 0 else 1 + NodeSize(es[0].value) + Size(es[1..])
  }

  function NodeSize(node: Node<Leaf_>): nat {
    match node
    case Leaf(_) => 0
    case Table(sub) => Size(sub)
  }

  lemma {:induction false} SizeAppend(es: Doc, e: Entry<Leaf_>)
    ensures Size(es + [e]) == Size(es) + 1 + NodeSize(e.value)
    decreases |es|
  {
    if es == [] {
      assert es + [e] == [e] && [e][1..] == [];
    } else {
      assert (es + [e])[1..] == es[1..] + [e];
      SizeAppend(es[1..], e);
    }
  }

  lemma {:induction false} SizeReplace(es: Doc, i: nat, e: Entry<Leaf_>)
    requires i < |es|
    ensures Size(es[i := e]) == Size(es) - NodeSize(es[i].value) + NodeSize(e.value)
    ensures NodeSize(es[i].value) <= Size(es)
    decreases |es|
  {
    if i == 0 {
      assert es[i := e][1..] == es[1..];
    } else {
      assert es[i := e][1..] == es[1..][i - 1 := e];
      SizeReplace(es[1..], i - 1, e);
    }
  }

  lemma KindAtKey(es: Doc, key: string)
    ensures var i := Find(es, key);
            KindAt(es, [key]) == if i == |es| then None else KindIn(es[i].value, [])
  {
    assert [key][1..] == [];
  }

  lemma FindAppend(es: Doc, e: Entry<Leaf_>, key: string)
    ensures Find(es + [e], key) == if Find(es, key) == |es| && key != e.key then |es| + 1 else Find(es, key)
  {
    var after := es + [e];
    assert after[..|es|] == es;
    FindPrefix(after, |es|, key);
    assert Find(after, key) > |es| ==> after[|es|].key != key;
  }

  lemma KindAtAppend(es: Doc, e: Entry<Leaf_>, path: seq<string>)
    requires path != []
    ensures KindAt(es + [e], path) ==
            if path[0] == e.key && Find(es, e.key) == |es| then KindIn(e.value, path[1..]) else KindAt(es, path)
  {
    FindAppend(es, e, path[0]);
  }

  lemma KindAtReplace(es: Doc, key: string, node: Node<Leaf_>, path: seq<string>)
    requires path != [] && Find(es, key) < |es|
    ensures KindAt(es[Find(es, key) := Entry(key, node)], path) ==
            if path[0] == key then KindIn(node, path[1..]) else KindAt(es, path)
  {
    FindSameKeys(es, es[Find(es, key) := Entry(key, node)], path[0]);
  }

  /** `t` has grown from `t0` as `b` has from `b0`, and more if `more` holds. */
  ghost predicate Grown(b0: Doc, b: Doc, t0: Doc, t: Doc, more: bool) {
    SameKinds(b, t) && Size(t) - Size(t0) >= Size(b) - Size(b0) + if more then 1 else 0
  }

  lemma AppendGrown(b: Doc, t: Doc, key: string, bn: Node<Leaf_>, tn: Node<Leaf_>, more: bool)
    requires SameKinds(b, t) && forall path :: KindIn(bn, path) == KindIn(tn, path)
    requires NodeSize(tn) >= NodeSize(bn) + if more then 1 else 0
    ensures Grown(b, b + [Entry(key, bn)], t, t + [Entry(key, tn)], more)
  {
    SizeAppend(b, Entry(key, bn));
    SizeAppend(t, Entry(key, tn));
    KindAtKey(b, key);
    KindAtKey(t, key);
    assert SameKindAt(b, t, [key]);
    forall path: seq<string> | path != []
      ensures SameKindAt(b + [Entry(key, bn)], t + [Entry(key, tn)], path)
    {
      assert SameKindAt(b, t, path);
      KindAtAppend(b, Entry(key, bn), path);
      KindAtAppend(t, Entry(key, tn), path);
    }
  }

  lemma ReplaceGrown(b: Doc, t: Doc, i: nat, j: nat, key: string, bs: Doc, ts: Doc, more: bool)
    requires SameKinds(b, t) && i == Find(b, key) < |b| && j == Find(t, key) < |t|
    requires b[i].value.Table? && t[j].value.Table?
    requires Grown(b[i].value.entries, bs, t[j].value.entries, ts, more)
    ensures Grown(b, b[i := Entry(key, Table(bs))], t, t[j := Entry(key, Table(ts))], more)
  {
    SizeReplace(b, i, Entry(key, Table(bs)));
    SizeReplace(t, j, Entry(key, Table(ts)));
    var b', t' := b[i := Entry(key, Table(bs))], t[j := Entry(key, Table(ts))];
    forall path: seq<string> | path != []
      ensures SameKindAt(b', t', path)
    {
      KindAtReplace(b, key, Table(bs), path);
      KindAtReplace(t, key, Table(ts), path);
      assert SameKindAt(b, t, path);
      assert path[1..] != [] ==> SameKindAt(bs, ts, path[1..]);
    }
  }

  /** A mapping that text merging appends after a leaf, where the binary form has only the leaf. */
  lemma DroppedGrown(b: Doc, t: Doc, key: string)
    requires SameKinds(b, t) && Find(t, key) < |t|
    ensures Grown(b, b, t, t + [Entry(key, Table([]))], true)
  {
    SizeAppend(t, Entry(key, Table([])));
    forall path: seq<string> | path != []
      ensures SameKindAt(b, t + [Entry(key, Table([]))], path)
    {
      assert SameKindAt(b, t, path);
      KindAtAppend(t, Entry(key, Table([])), path);
    }
  }

  lemma SameKindsBelow(b: Doc, t: Doc, i: nat, j: nat, key: string)
    requires SameKinds(b, t) && i == Find(b, key) < |b| && j == Find(t, key) < |t|
    requires b[i].value.Table? && t[j].value.Table?
    ensures SameKinds(b[i].value.entries, t[j].value.entries)
  {
    forall path: seq<string> | path != []
      ensures SameKindAt(b[i].value.entries, t[j].value.entries, path)
    {
      KindAtEntry(b, i, path);
      KindAtEntry(t, j, path);
      assert SameKindAt(b, t, [key] + path);
    }
  }

  lemma {:induction false} PairGrown(mode: Mode, e: Entry<Leaf_>, b: Doc, t: Doc)
    requires mode.multi && mode.merge && SameKinds(b, t) && BinaryMergePair(mode, e, b).Some?
    ensures Grown(b, BinaryMergePair(mode, e, b).value, t, MergePair(mode, e, t), PairMeetsLeaf(mode, e, t))
    decreases e, 0
  {
    KindAtKey(b, e.key);
    KindAtKey(t, e.key);
    assert SameKindAt(b, t, [e.key]);
    match e.value {
      case Leaf(_) => AppendGrown(b, t, e.key, e.value, e.value, false);
      case Table(sub) =>
        var (bs, i) := Open(mode, b, e.key);
        var (ts, j) := Open(mode, t, e.key);
        if LeadsToLeaf(mode, b, e.key) {
          DroppedGrown(b, t, e.key);
          assert ts[j := Entry(e.key, Table([]))] == ts;
        } else {
          var filled := BinaryMergeInto(mode, sub, bs[i].value.entries).value;
          var full := MergeInto(mode, sub, ts[j].value.entries);
          if Find(b, e.key) < |b| {
            SameKindsBelow(b, t, i, j, e.key);
            MergeGrown(mode, sub, bs[i].value.entries, ts[j].value.entries);
            ReplaceGrown(b, t, i, j, e.key, filled, full, MeetsLeaf(mode, sub, ts[j].value.entries));
          } else {
            MergeGrown(mode, sub, [], []);
            forall path: seq<string>
              ensures KindIn(Table(filled), path) == KindIn(Table(full), path)
            {
              assert path != [] ==> SameKindAt(filled, full, path);
            }
            AppendGrown(b, t, e.key, Table(filled), Table(full), MeetsLeaf(mode, sub, []));
            assert bs[i := Entry(e.key, Table(filled))] == b + [Entry(e.key, Table(filled))];
            assert ts[j := Entry(e.key, Table(full))] == t + [Entry(e.key, Table(full))];
          }
        }
    }
  }

  lemma {:induction false} MergeGrown(mode: Mode, doc: Doc, b: Doc, t: Doc)
    requires mode.multi && mode.merge && SameKinds(b, t) && BinaryMergeInto(mode, doc, b).Some?
    ensures Grown(b, BinaryMergeInto(mode, doc, b).value, t, MergeInto(mode, doc, t), MeetsLeaf(mode, doc, t))
    decreases doc
  {
    if doc != [] {
      PairGrown(mode, doc[0], b, t);
      MergeGrown(mode, doc[1..], BinaryMergePair(mode, doc[0], b).value, MergePair(mode, doc[0], t));
    }
  }

  /** A merging load into a VDFDict agrees with the text load exactly when no mapping is read where a leaf is. */
  lemma MultiAgrees(mode: Mode, doc: Doc, base: Doc)
    requires mode.multi && mode.merge
    ensures BinaryMergeInto(mode, doc, base) == Some(MergeInto(mode, doc, base)) <==> !MeetsLeaf(mode, doc, base)
  {
    if !MeetsLeaf(mode, doc, base) {
      MergesAlike(mode, doc, base);
    } else if BinaryMergeInto(mode, doc, base).Some? {
      MergeGrown(mode, doc, base, base);
    }
  }

  predicate PairReadsInLeaf(mode: Mode, e: Entry<Leaf_>, base: Doc)
    decreases e, 0
  {
    match e.value
    case Leaf(_) => false
    case Table(sub) =>
      var (es, i) := Open(mode, base, e.key);
      if LeadsToLeaf(mode, base, e.key) then sub != [] else ReadsInLeaf(mode, sub, es[i].value.entries)
  }

  /** While the document is merged as text, a mapping with something in it is read where merging finds a leaf. */
  predicate ReadsInLeaf(mode: Mode, doc: Doc, base: Doc)
    decreases doc
  {
    doc != [] && (PairReadsInLeaf(mode, doc[0], base) || ReadsInLeaf(mode, doc[1..], MergePair(mode, doc[0], base)))
  }

  lemma {:induction false} PairRefusedMulti(mode: Mode, e: Entry<Leaf_>, b: Doc, t: Doc)
    requires mode.multi && mode.merge && SameKinds(b, t)
    ensures BinaryMergePair(mode, e, b) == None <==> PairReadsInLeaf(mode, e, t)
    decreases e, 0
  {
    KindAtKey(b, e.key);
    KindAtKey(t, e.key);
    assert SameKindAt(b, t, [e.key]);
    if e.value.Table? && !LeadsToLeaf(mode, b, e.key) {
      var (bs, i) := Open(mode, b, e.key);
      var (ts, j) := Open(mode, t, e.key);
      if Find(b, e.key) < |b| {
        SameKindsBelow(b, t, i, j, e.key);
      }
      RefusedMulti(mode, e.value.entries, bs[i].value.entries, ts[j].value.entries);
    }
  }

  lemma {:induction false} RefusedMulti(mode: Mode, doc: Doc, b: Doc, t: Doc)
    requires mode.multi && mode.merge && SameKinds(b, t)
    ensures BinaryMergeInto(mode, doc, b) == None <==> ReadsInLeaf(mode, doc, t)
    decreases doc
  {
    if doc != [] {
      PairRefusedMulti(mode, doc[0], b, t);
      if BinaryMergePair(mode, doc[0], b).Some? {
        PairGrown(mode, doc[0], b, t);
        RefusedMulti(mode, doc[1..], BinaryMergePair(mode, doc[0], b).value, MergePair(mode, doc[0], t));
      }
    }
  }

  // ---------- every mapper ----------

  lemma {:induction false} NeverMeetsLeaf(mode: Mode, doc: Doc, base: Doc)
    requires !mode.merge
    ensures !MeetsLeaf(mode, doc, base)
    decreases doc
  {
    if doc != [] {
      if doc[0].value.Table? {
        var (es, i) := Open(mode, base, doc[0].key);
        NeverMeetsLeaf(mode, doc[0].value.entries, es[i].value.entries);
      }
      NeverMeetsLeaf(mode, doc[1..], MergePair(mode, doc[0], base));
    }
  }

  /** The documents of which a binary load makes what the text load makes. */
  ghost predicate Agrees(mode: Mode, doc: Doc) {
    if !mode.merge then true
    else if mode.multi then !MeetsLeaf(mode, doc, [])
    else
      var log := Assignments(doc, []);
      forall i :: 0 <= i < |log| ==> !ReadsBelowLeaf(log, i) && !Dropped(log, i)
  }

  /** The documents of which a binary load raises an error. */
  ghost predicate Refuses(mode: Mode, doc: Doc) {
    if !mode.merge then false
    else if mode.multi then ReadsInLeaf(mode, doc, [])
    else
      var log := Assignments(doc, []);
      exists i :: 0 <= i < |log| && ReadsBelowLeaf(log, i)
  }

  /** For every document and mapper, when the binary merge is the text merge, and when it is refused. */
  lemma BinaryMergeAgrees(mode: Mode, doc: Doc)
    ensures BinaryMergeInto(mode, doc, []) == Some(MergeInto(mode, doc, [])) <==> Agrees(mode, doc)
    ensures BinaryMergeInto(mode, doc, []) == None <==> Refuses(mode, doc)
  {
    if !mode.merge {
      NeverMeetsLeaf(mode, doc, []);
      MergesAlike(mode, doc, []);
    } else if mode.multi {
      MultiAgrees(mode, doc, []);
      RefusedMulti(mode, doc, [], []);
    } else {
      PlainAgrees(mode, doc);
      BinaryMergeMeaning(mode, doc);
    }
  }

  /** The same for files: when loading a dump gives what loading the text gives, and when it fails. */
  lemma BinaryLoadAgrees(f: Format, es: Doc)
    requires Inverts(f.decode) && Carried(es)
    ensures var w := BinaryDumps(es, f.alt);
            && w.Ok?
            && (BinaryLoads(f, w.value) == Ok(MergeInto(f.mode, es, [])) <==> Agrees(f.mode, es))
            && (BinaryLoads(f, w.value).Err? <==> Refuses(f.mode, es))
            && (BinaryLoads(f, w.value).Err? ==> BinaryLoads(f, w.value) == Err(NotAMapping))
  {
    BinaryMergeAgrees(f.mode, es);
    LoadWritten(f, es, []);
    var w := BinaryDumps(es, f.alt).value;
    assert w + [] == w;
  }

  // ---------- round trips, exactly ----------

  lemma StoreSize(multi: bool, es: Doc, key: string, node: Node<Leaf_>)
    ensures Size(Store(multi, es, key, node)) <= Size(es) + 1 + NodeSize(node)
  {
    SizeAppend(es, Entry(key, node));
    var i := StoreAt(multi, es, key);
    if i < |es| {
      SizeReplace(es, i, Entry(key, node));
    }
  }

  /** One pair adds itself and what is in it, or less: less where it meets a leaf. */
  lemma {:induction false} PairSize(mode: Mode, e: Entry<Leaf_>, base: Doc)
    requires BinaryMergePair(mode, e, base).Some?
    ensures Size(BinaryMergePair(mode, e, base).value) + (if PairMeetsLeaf(mode, e, base) then 1 else 0) <=
            Size(base) + 1 + NodeSize(e.value)
    decreases e, 0
  {
    match e.value {
      case Leaf(_) => StoreSize(mode.multi, base, e.key, e.value);
      case Table(sub) =>
        if !LeadsToLeaf(mode, base, e.key) {
          var (es, i) := Open(mode, base, e.key);
          StoreSize(mode.multi, base, e.key, Table([]));
          MergeSize(mode, sub, es[i].value.entries);
          SizeReplace(es, i, Entry(e.key, Table(BinaryMergeInto(mode, sub, es[i].value.entries).value)));
        }
    }
  }

  lemma {:induction false} MergeSize(mode: Mode, doc: Doc, base: Doc)
    requires BinaryMergeInto(mode, doc, base).Some?
    ensures Size(BinaryMergeInto(mode, doc, base).value) + (if MeetsLeaf(mode, doc, base) then 1 else 0) <=
            Size(base) + Size(doc)
    decreases doc
  {
    if doc != [] {
      PairSize(mode, doc[0], base);
      MergeSize(mode, doc[1..], BinaryMergePair(mode, doc[0], base).value);
      if !PairMeetsLeaf(mode, doc[0], base) {
        PairMergesAlike(mode, doc[0], base);
      }
    }
  }

  /**
   Binary round trip, for every mapper: a document comes back exactly when it does in the text form and no
   mapping in it meets a leaf.
   */
  lemma BinaryRoundTripExactly(f: Format, es: Doc)
    requires Inverts(f.decode) && Carried(es)
    ensures var w := BinaryDumps(es, f.alt);
            w.Ok? && (BinaryLoads(f, w.value) == Ok(es) <==> Loadable(f.mode, es) && !MeetsLeaf(f.mode, es, []))
  {
    LoadWritten(f, es, []);
    var w := BinaryDumps(es, f.alt).value;
    assert w + [] == w;
    LoadedExactly(f.mode, es);
    var merged := BinaryMergeInto(f.mode, es, []);
    if merged == Some(es) {
      MergeSize(f.mode, es, []);
    }
    if !MeetsLeaf(f.mode, es, []) {
      MergesAlike(f.mode, es, []);
    }
  }
}
