/**
 What the binary load makes of duplicate keys: when it merges as the text form does, when it is refused,
 and, for a plain dict, what it leaves at every path.
 */
module VdfBinaryMerge {
  import opened Outcomes
  import opened VdfBinary
  import opened VdfMerge
  import opened VdfTree

  // ---------- against the text form ----------

  predicate NoEmptyMapping(es: Doc)
    decreases es
  {
    es != [] ==>
      && (es[0].value.Table? ==> es[0].value.entries != [] && NoEmptyMapping(es[0].value.entries))
      && NoEmptyMapping(es[1..])
  }

  predicate PairMeetsLeaf(mode: Mode, e: Entry<Leaf_>, base: Doc)
    decreases e, 0
  {
    match e.value
    case Leaf(_) => false
    case Table(sub) =>
      var (es, i) := Open(mode, base, e.key);
      LeadsToLeaf(mode, base, e.key) || MeetsLeaf(mode, sub, es[i].value.entries)
  }

  /** While the document is merged as text, some mapping is read where merging finds a leaf. */
  predicate MeetsLeaf(mode: Mode, doc: Doc, base: Doc)
    decreases doc
  {
    doc != [] && (PairMeetsLeaf(mode, doc[0], base) || MeetsLeaf(mode, doc[1..], MergePair(mode, doc[0], base)))
  }

  lemma {:induction false} PairMergesAlike(mode: Mode, e: Entry<Leaf_>, base: Doc)
    requires !PairMeetsLeaf(mode, e, base)
    ensures BinaryMergePair(mode, e, base) == Some(MergePair(mode, e, base))
    decreases e, 0
  {
    if e.value.Table? {
      var (es, i) := Open(mode, base, e.key);
      MergesAlike(mode, e.value.entries, es[i].value.entries);
    }
  }

  /** A binary load that never meets a leaf merges exactly as the text load does. */
  lemma {:induction false} MergesAlike(mode: Mode, doc: Doc, base: Doc)
    requires !MeetsLeaf(mode, doc, base)
    ensures BinaryMergeInto(mode, doc, base) == Some(MergeInto(mode, doc, base))
    decreases doc
  {
    if doc != [] {
      PairMergesAlike(mode, doc[0], base);
      MergesAlike(mode, doc[1..], MergePair(mode, doc[0], base));
    }
  }

  lemma {:induction false} PairRefused(mode: Mode, e: Entry<Leaf_>, base: Doc)
    requires NoEmptyMapping([e]) && PairMeetsLeaf(mode, e, base)
    ensures BinaryMergePair(mode, e, base) == None
    decreases e, 0
  {
    var sub := e.value.entries;
    if !LeadsToLeaf(mode, base, e.key) {
      var (es, i) := Open(mode, base, e.key);
      Refused(mode, sub, es[i].value.entries);
    }
  }

  lemma {:induction false} Refused(mode: Mode, doc: Doc, base: Doc)
    requires NoEmptyMapping(doc) && MeetsLeaf(mode, doc, base)
    ensures BinaryMergeInto(mode, doc, base) == None
    decreases doc
  {
    assert [doc[0]][1..] == [];
    if PairMeetsLeaf(mode, doc[0], base) {
      PairRefused(mode, doc[0], base);
    } else {
      PairMergesAlike(mode, doc[0], base);
      Refused(mode, doc[1..], MergePair(mode, doc[0], base));
    }
  }

  /** Without empty mappings the binary merge is refused exactly when a mapping meets a leaf, and else is the text's. */
  lemma BinaryMergeWithoutEmpty(mode: Mode, doc: Doc, base: Doc)
    requires NoEmptyMapping(doc)
    ensures BinaryMergeInto(mode, doc, base) ==
            if MeetsLeaf(mode, doc, base) then None else Some(MergeInto(mode, doc, base))
  {
    if MeetsLeaf(mode, doc, base) {
      Refused(mode, doc, base);
    } else {
      MergesAlike(mode, doc, base);
    }
  }

  /** The same pairs that the text form merges can be refused, or lose a mapping, in the binary form. */
  lemma BinaryMergeDiffers()
    ensures var mode := Mode(false, true);
            var leaf: Entry<Leaf_> := Entry("k", Leaf(Text("v")));
            var full: Entry<Leaf_> := Entry("k", Table([leaf]));
            var empty: Entry<Leaf_> := Entry("k", Table([]));
            && BinaryMergeInto(mode, [leaf, full], []) == None && MergeInto(mode, [leaf, full], []) == [full]
            && BinaryMergeInto(mode, [leaf, empty], []) == Some([leaf]) && MergeInto(mode, [leaf, empty], []) == [empty]
  {
    var mode := Mode(false, true);
    var leaf: Entry<Leaf_> := Entry("k", Leaf(Text("v")));
    var full: Entry<Leaf_> := Entry("k", Table([leaf]));
    var empty: Entry<Leaf_> := Entry("k", Table([]));
    TwoPairs(mode, leaf, full);
    TwoPairs(mode, leaf, empty);
    assert [] + [leaf] == [leaf] && Find([leaf], "k") == 0;
    assert [leaf][1..] == [];
    assert MergeInto(mode, [leaf], []) == MergePair(mode, leaf, []) == [leaf];
  }

  lemma TwoPairs(mode: Mode, a: Entry<Leaf_>, b: Entry<Leaf_>)
    ensures MergeInto(mode, [a, b], []) == MergePair(mode, b, MergePair(mode, a, []))
    ensures BinaryMergePair(mode, a, []).Some? ==>
              BinaryMergeInto(mode, [a, b], []) == BinaryMergePair(mode, b, BinaryMergePair(mode, a, []).value)
  {
    assert [a, b][1..] == [b] && [b][1..] == [];
    assert MergeInto(mode, [a, b], []) == MergeInto(mode, [b], MergePair(mode, a, []));
    var first := BinaryMergePair(mode, a, []);
    if first.Some? {
      assert BinaryMergeInto(mode, [a, b], []) == BinaryMergeInto(mode, [b], first.value);
      assert BinaryMergePair(mode, b, first.value).Some? ==>
          BinaryMergeInto(mode, [], BinaryMergePair(mode, b, first.value).value)
          == BinaryMergePair(mode, b, first.value);
    }
  }

  // ---------- by the order of assignments ----------

  /**
   What is at `path` after the assignments of a binary merging load: as in the text form, but a mapping
   assigned where a leaf stands leaves the leaf.
   */
  function BinaryKindAfter(log: seq<Assignment<Leaf_>>, path: seq<string>, before: Option<Kind<Leaf_>>):
    Option<Kind<Leaf_>>
  {
    if log == [] then before
    else
      var now :=
        if log[0].path == path then if log[0].leaf.None? && LeafOf(before).Some? then before else Some(KindOf(log[0]))
        else if log[0].path < path && log[0].leaf.Some? then None
        else before;
      BinaryKindAfter(log[1..], path, now)
  }

  /** Entry `i` of a log is a mapping with something in it, assigned where a leaf stands. */
  predicate ReadsBelowLeaf(log: seq<Assignment<Leaf_>>, i: nat)
    requires i < |log|
  {
    && log[i].leaf.None? && LeafOf(BinaryKindAfter(log[..i], log[i].path, None)).Some?
    && i + 1 < |log| && log[i].path < log[i + 1].path
  }

  lemma {:induction false} BinaryKindConcat(a: seq<Assignment<Leaf_>>, b: seq<Assignment<Leaf_>>, path: seq<string>,
                                            before: Option<Kind<Leaf_>>)
    ensures BinaryKindAfter(a + b, path, before) == BinaryKindAfter(b, path, BinaryKindAfter(a, path, before))
    decreases |a|
  {
    if a == [] {
      assert a + b == b;
    } else {
      assert (a + b)[1..] == a[1..] + b;
      var now :=
        if a[0].path == path then if a[0].leaf.None? && LeafOf(before).Some? then before else Some(KindOf(a[0]))
        else if a[0].path < path && a[0].leaf.Some? then None
        else before;
      BinaryKindConcat(a[1..], b, path, now);
    }
  }

  /** One more assignment, after a log that left `before` at the path. */
  lemma BinaryKindOne(log: seq<Assignment<Leaf_>>, a: Assignment<Leaf_>, path: seq<string>)
    ensures var before := BinaryKindAfter(log, path, None);
            BinaryKindAfter(log + [a], path, None) ==
            if a.path == path then if a.leaf.None? && LeafOf(before).Some? then before else Some(KindOf(a))
            else if a.path < path && a.leaf.Some? then None
            else before
  {
    BinaryKindConcat(log, [a], path, None);
    assert [a][1..] == [];
  }

  /** All paths of the log lead below `at`. */
  ghost predicate AllBelow(log: seq<Assignment<Leaf_>>, at: seq<string>) {
    forall i :: 0 <= i < |log| ==> at < log[i].path
  }

  lemma {:induction false} AssignmentsBelow(doc: Doc, at: seq<string>)
    ensures AllBelow(Assignments(doc, at), at)
    ensures doc != [] ==> Assignments(doc, at) != [] && Assignments(doc, at)[0].path == at + [doc[0].key]
    decreases doc
  {
    if doc != [] {
      var here := at + [doc[0].key];
      if doc[0].value.Table? {
        AssignmentsBelow(doc[0].value.entries, here);
      }
      AssignmentsBelow(doc[1..], at);
    }
  }

  lemma {:induction false} BelowUnchanged(log: seq<Assignment<Leaf_>>, at: seq<string>, path: seq<string>,
                                          before: Option<Kind<Leaf_>>)
    requires AllBelow(log, at) && !(at < path)
    ensures BinaryKindAfter(log, path, before) == before
    decreases |log|
  {
    if log != [] {
      assert at < log[0].path;
      assert AllBelow(log[1..], at);
      BelowUnchanged(log[1..], at, path, before);
    }
  }

  /** The first entry of the log, after `done`, is a mapping with something in it where a leaf stands. */
  predicate RefusedFirst(done: seq<Assignment<Leaf_>>, log: seq<Assignment<Leaf_>>) {
    && |log| > 1 && log[0].leaf.None? && log[0].path < log[1].path
    && LeafOf(BinaryKindAfter(done, log[0].path, None)).Some?
  }

  predicate LogRefused(done: seq<Assignment<Leaf_>>, log: seq<Assignment<Leaf_>>)
    decreases |log|
  {
    log != [] && (RefusedFirst(done, log) || LogRefused(done + [log[0]], log[1..]))
  }

  lemma {:induction false} LogRefusedConcat(done: seq<Assignment<Leaf_>>, a: seq<Assignment<Leaf_>>,
                                            b: seq<Assignment<Leaf_>>)
    requires a != [] && b != [] ==> !(a[|a| - 1].path < b[0].path)
    ensures LogRefused(done, a + b) <==> LogRefused(done, a) || LogRefused(done + a, b)
    decreases |a|
  {
    if a == [] {
      assert a + b == b && done + a == done;
    } else {
      assert (a + b)[1..] == a[1..] + b && done + [a[0]] + a[1..] == done + a;
      LogRefusedConcat(done + [a[0]], a[1..], b);
    }
  }

  lemma {:induction false} LogRefusedAt(done: seq<Assignment<Leaf_>>, log: seq<Assignment<Leaf_>>)
    ensures LogRefused(done, log) <==> exists i :: |done| <= i < |done + log| && ReadsBelowLeaf(done + log, i)
    decreases |log|
  {
    if log != [] {
      var all, n := done + log, |done|;
      assert done + [log[0]] + log[1..] == all && all[..n] == done && all[n] == log[0];
      LogRefusedAt(done + [log[0]], log[1..]);
      assert RefusedFirst(done, log) <==> ReadsBelowLeaf(all, n);
      if exists i :: n <= i < |all| && ReadsBelowLeaf(all, i) {
        var i :| n <= i < |all| && ReadsBelowLeaf(all, i);
        assert i == n || n + 1 <= i;
      }
    }
  }

  /** The mapping open at `at` holds what the assignments so far leave below `at`. */
  ghost predicate Reflects(doc: Doc, at: seq<string>, done: seq<Assignment<Leaf_>>) {
    forall path :: path != [] ==> KindAt(doc, path) == BinaryKindAfter(done, at + path, None)
  }

  lemma LeadsToLeafHere(mode: Mode, doc: Doc, key: string)
    requires mode.merge
    ensures LeadsToLeaf(mode, doc, key) <==> LeafOf(KindAt(doc, [key])).Some?
  {
    assert [key][1..] == [];
    assert KindAt(doc, [key]) == var i := Find(doc, key); if i == |doc| then None else KindIn(doc[i].value, []);
  }

  lemma PathParts(at: seq<string>, key: string, path: seq<string>)
    requires path != []
    ensures path[0] == key ==> at + path == at + [key] + path[1..] && [key] + path[1..] == path
    ensures at + [key] == at + path <==> path[0] == key && path[1..] == []
    ensures at + [key] < at + path <==> path[0] == key && path[1..] != []
  {
    assert (at + path)[|at|] == path[0] && (at + [key])[|at|] == key;
    assert path == [path[0]] + path[1..];
    if path[0] == key {
      assert at + path == at + [key] + path[1..];
    }
  }

  lemma LeafReflects(key: string, l: Leaf_, doc: Doc, at: seq<string>, done: seq<Assignment<Leaf_>>)
    requires Reflects(doc, at, done)
    ensures Reflects(Store(false, doc, key, Leaf(l)), at, done + [Assignment(at + [key], Some(l))])
  {
    forall path | path != []
      ensures KindAt(Store(false, doc, key, Leaf(l)), path) ==
              BinaryKindAfter(done + [Assignment(at + [key], Some(l))], at + path, None)
    {
      KindAtStore(doc, key, Leaf(l), path);
      BinaryKindOne(done, Assignment(at + [key], Some(l)), at + path);
      PathParts(at, key, path);
    }
  }

  /** A mapping without content, where a leaf stands. */
  lemma EmptyReflects(key: string, doc: Doc, at: seq<string>, done: seq<Assignment<Leaf_>>)
    requires Reflects(doc, at, done) && LeafOf(KindAt(doc, [key])).Some?
    ensures Reflects(doc, at, done + [Assignment(at + [key], None)])
  {
    forall path | path != []
      ensures KindAt(doc, path) == BinaryKindAfter(done + [Assignment(at + [key], None)], at + path, None)
    {
      BinaryKindOne(done, Assignment(at + [key], None), at + path);
      PathParts(at, key, path);
    }
  }

  lemma OpenedReflects(mode: Mode, key: string, doc: Doc, at: seq<string>, done: seq<Assignment<Leaf_>>)
    requires !mode.multi && mode.merge && Reflects(doc, at, done)
    ensures var (es, i) := Open(mode, doc, key);
            Reflects(es[i].value.entries, at + [key], done + [Assignment(at + [key], None)])
  {
    var (es, i) := Open(mode, doc, key);
    var here := at + [key];
    forall path | path != []
      ensures KindAt(es[i].value.entries, path) == BinaryKindAfter(done + [Assignment(here, None)], here + path, None)
    {
      BelowOpened(mode, doc, key, path);
      assert at + ([key] + path) == here + path;
      BinaryKindOne(done, Assignment(here, None), here + path);
    }
  }

  lemma FilledReflects(key: string, filled: Doc, doc: Doc, at: seq<string>, done: seq<Assignment<Leaf_>>,
                       log: seq<Assignment<Leaf_>>)
    requires Reflects(doc, at, done) && LeafOf(KindAt(doc, [key])).None? && AllBelow(log, at + [key])
    requires Reflects(filled, at + [key], done + [Assignment(at + [key], None)] + log)
    ensures Reflects(Store(false, doc, key, Table(filled)), at, done + [Assignment(at + [key], None)] + log)
  {
    var here := at + [key];
    var begun := done + [Assignment(here, None)];
    forall path | path != []
      ensures KindAt(Store(false, doc, key, Table(filled)), path) == BinaryKindAfter(begun + log, at + path, None)
    {
      KindAtStore(doc, key, Table(filled), path);
      PathParts(at, key, path);
      if !(here < at + path) {
        BinaryKindOne(done, Assignment(here, None), at + path);
        BinaryKindConcat(begun, log, at + path, None);
        BelowUnchanged(log, here, at + path, BinaryKindAfter(begun, at + path, None));
      }
    }
  }

  lemma {:induction false} PairByLog(mode: Mode, e: Entry<Leaf_>, doc: Doc, at: seq<string>,
                                     done: seq<Assignment<Leaf_>>)
    requires !mode.multi && mode.merge && Reflects(doc, at, done)
    ensures var (log, after) := (PairAssignments(e, at), BinaryMergePair(mode, e, doc));
            && (after.None? <==> LogRefused(done, log))
            && (after.Some? ==> Reflects(after.value, at, done + log))
    decreases e, 0
  {
    var here := at + [e.key];
    match e.value {
      case Leaf(l) => LeafReflects(e.key, l, doc, at, done);
      case Table(sub) =>
        var opening: Assignment<Leaf_> := Assignment(here, None);
        var inner := Assignments(sub, here);
        var log := [opening] + inner;
        assert log[1..] == inner && done + log == done + [opening] + inner;
        AssignmentsBelow(sub, here);
        LeadsToLeafHere(mode, doc, e.key);
        assert KindAt(doc, [e.key]) == BinaryKindAfter(done, here, None);
        if LeadsToLeaf(mode, doc, e.key) {
          if sub == [] {
            assert log == [opening];
            EmptyReflects(e.key, doc, at, done);
          }
        } else {
          var (es, i) := Open(mode, doc, e.key);
          OpenedReflects(mode, e.key, doc, at, done);
          MergeByLog(mode, sub, es[i].value.entries, here, done + [opening]);
          var filled := BinaryMergeInto(mode, sub, es[i].value.entries);
          if filled.Some? {
            FilledReflects(e.key, filled.value, doc, at, done, inner);
            OpenIsStore(mode, doc, e.key, filled.value);
          }
        }
    }
  }

  lemma {:induction false} MergeByLog(mode: Mode, more: Doc, doc: Doc, at: seq<string>, done: seq<Assignment<Leaf_>>)
    requires !mode.multi && mode.merge && Reflects(doc, at, done)
    ensures var (log, after) := (Assignments(more, at), BinaryMergeInto(mode, more, doc));
            && (after.None? <==> LogRefused(done, log))
            && (after.Some? ==> Reflects(after.value, at, done + log))
    decreases more
  {
    if more == [] {
      assert done + Assignments(more, at) == done;
    } else {
      var first, rest := PairAssignments(more[0], at), Assignments(more[1..], at);
      PairByLog(mode, more[0], doc, at, done);
      PairEnds(more, at);
      LogRefusedConcat(done, first, rest);
      var next := BinaryMergePair(mode, more[0], doc);
      if next.Some? {
        MergeByLog(mode, more[1..], next.value, at, done + first);
        assert done + first + rest == done + (first + rest);
      }
    }
  }

  /** The last assignment of a pair does not lead to the first of the next. */
  lemma PairEnds(more: Doc, at: seq<string>)
    requires more != []
    ensures var (first, rest) := (PairAssignments(more[0], at), Assignments(more[1..], at));
            first != [] && (rest != [] ==> !(first[|first| - 1].path < rest[0].path))
  {
    var here := at + [more[0].key];
    if more[0].value.Table? {
      AssignmentsBelow(more[0].value.entries, here);
    }
    AssignmentsBelow(more[1..], at);
  }

  /**
   A merging binary load into a plain dict, told by the order of assignments alone: it is refused exactly
   when something is read below a leaf, and else has at every path what the assignments leave there.
   */
  lemma BinaryMergeMeaning(mode: Mode, doc: Doc)
    requires !mode.multi && mode.merge
    ensures var (log, after) := (Assignments(doc, []), BinaryMergeInto(mode, doc, []));
            && (after.None? <==> exists i :: 0 <= i < |log| && ReadsBelowLeaf(log, i))
            && (after.Some? ==>
                  forall path :: path != [] ==> KindAt(after.value, path) == BinaryKindAfter(log, path, None))
  {
    var log := Assignments(doc, []);
    assert Reflects([], [], []);
    MergeByLog(mode, doc, [], [], []);
    LogRefusedAt([], log);
    assert [] + log == log;
    var after := BinaryMergeInto(mode, doc, []);
    if after.Some? {
      forall path: seq<string> | path != []
        ensures KindAt(after.value, path) == BinaryKindAfter(log, path, None)
      {
        assert [] + path == path;
      }
    }
  }

  /** The same for files. */
  lemma BinaryMergingLoad(f: Format, es: Doc)
    requires Inverts(f.decode) && Carried(es) && !f.mode.multi && f.mode.merge
    ensures var (log, w) := (Assignments(es, []), BinaryDumps(es, f.alt));
            && w.Ok?
            && (if exists i :: 0 <= i < |log| && ReadsBelowLeaf(log, i)
                then BinaryLoads(f, w.value) == Err(NotAMapping)
                else
                  && BinaryLoads(f, w.value).Ok?
                  && forall path :: path != [] ==>
                       KindAt(BinaryLoads(f, w.value).value, path) == BinaryKindAfter(log, path, None))
  {
    BinaryMergeMeaning(f.mode, es);
    LoadWritten(f, es, []);
    var w := BinaryDumps(es, f.alt).value;
    assert w + [] == w;
  }
}
