/**
 What the merging load means, told by the order of assignments alone: every pair of the text
 assigns to a path, and the last assignment that concerns a path decides what is there.
 */
module VdfMerge {
  import opened Outcomes
  import opened VdfTree

  /** A pair of the text: a leaf assigned to its path, or (None) a mapping opened there. */
  datatype Assignment<L> = Assignment(path: seq<string>, leaf: Option<L>)

  function PairAssignments<L>(e: Entry<L>, at: seq<string>): seq<Assignment<L>>
    decreases e, 0
  {
    var here := at + [e.key];
    match e.value
    case Leaf(l) => [Assignment(here, Some(l))]
    case Table(sub) => [Assignment(here, None)] + Assignments(sub, here)
  }

  /** The pairs of a document in text order, under the path `at`. */
  function Assignments<L>(doc: Entries<L>, at: seq<string>): seq<Assignment<L>>
    decreases doc
  {
    if doc == [] then [] else PairAssignments(doc[0], at) + Assignments(doc[1..], at)
  }

  /** What stands at a path: a leaf or a mapping. */
  datatype Kind<L> = LeafKind(leaf: L) | TableKind

  function KindOf<L>(a: Assignment<L>): Kind<L> {
    if a.leaf.Some? then LeafKind(a.leaf.value) else TableKind
  }

  /**
   What is at `path` after the assignments, from what was there `before` them: an assignment to the
   path itself decides it; a leaf assigned to a shorter path removes it, and so does a mapping
   assigned to a shorter path when mappings are not merged.
   */
  function KindAfter<L>(merge: bool, log: seq<Assignment<L>>, path: seq<string>, before: Option<Kind<L>>):
    Option<Kind<L>>
  {
    if log == [] then before
    else
      var now :=
        if log[0].path == path then Some(KindOf(log[0]))
        else if log[0].path < path && (log[0].leaf.Some? || !merge) then None
        else before;
      KindAfter(merge, log[1..], path, now)
  }

  function KindIn<L>(node: Node<L>, path: seq<string>): Option<Kind<L>>
    decreases node, 0
  {
    match node
    case Leaf(l) => if path == [] then Some(LeafKind(l)) else None
    case Table(sub) => KindAt(sub, path)
  }

  /** Looking up `doc[path[0]][path[1]]...`: what is there, if anything. */
  function KindAt<L>(doc: Entries<L>, path: seq<string>): Option<Kind<L>>
    decreases doc
  {
    if path == [] then Some(TableKind)
    else
      var i := Find(doc, path[0]);
      if i == |doc| then None else KindIn(doc[i].value, path[1..])
  }

  function LeafOf<L>(kind: Option<Kind<L>>): Option<L> {
    if kind.Some? && kind.value.LeafKind? then Some(kind.value.leaf) else None
  }

  /** The leaf at a path, if there is one. */
  function LeafAt<L>(doc: Entries<L>, path: seq<string>): Option<L> {
    LeafOf(KindAt(doc, path))
  }

  lemma LeafAtStep<L>(doc: Entries<L>, path: seq<string>)
    requires path != []
    ensures var i := Find(doc, path[0]);
            LeafAt(doc, path) ==
            if i == |doc| then None
            else match doc[i].value
              case Leaf(l) => if |path| == 1 then Some(l) else None
              case Table(sub) => LeafAt(sub, path[1..])
  {
    assert path[1..] == [] <==> |path| == 1;
    var i := Find(doc, path[0]);
    assert KindAt(doc, path) == if i == |doc| then None else KindIn(doc[i].value, path[1..]);
  }

  lemma LeafAtStore<L>(es: Entries<L>, key: string, node: Node<L>, path: seq<string>)
    ensures LeafAt(Store(false, es, key, node), path) ==
            if path != [] && path[0] == key then LeafOf(KindIn(node, path[1..])) else LeafAt(es, path)
  {
    KindAtStore(es, key, node, path);
  }

  lemma FindUnique<L>(es: Entries<L>, key: string, i: nat)
    requires i <= |es|
    requires i < |es| ==> es[i].key == key
    requires forall j :: 0 <= j < i ==> es[j].key != key
    ensures Find(es, key) == i
  {
    var k := Find(es, key);
    assert !(k < i);
    assert !(i < k);
  }

  lemma KindAtStore<L>(es: Entries<L>, key: string, node: Node<L>, path: seq<string>)
    ensures KindAt(Store(false, es, key, node), path) ==
            if path != [] && path[0] == key then KindIn(node, path[1..]) else KindAt(es, path)
  {
    if path != [] {
      var i, after := Find(es, key), Store(false, es, key, node);
      if path[0] == key {
        FindUnique(after, key, i);
      } else {
        var j := Find(es, path[0]);
        if j == |es| {
          FindUnique(after, path[0], |after|);
        } else {
          FindUnique(after, path[0], j);
        }
      }
    }
  }

  lemma {:induction false} KindAfterConcat<L>(merge: bool, a: seq<Assignment<L>>, b: seq<Assignment<L>>,
                                              path: seq<string>, before: Option<Kind<L>>)
    ensures KindAfter(merge, a + b, path, before) == KindAfter(merge, b, path, KindAfter(merge, a, path, before))
    decreases |a|
  {
    if a == [] {
      assert a + b == b;
    } else {
      assert (a + b)[1..] == a[1..] + b;
      var now :=
        if a[0].path == path then Some(KindOf(a[0]))
        else if a[0].path < path && (a[0].leaf.Some? || !merge) then None
        else before;
      KindAfterConcat(merge, a[1..], b, path, now);
    }
  }

  /** Assignments below `at` do not concern a path that does not lead below `at`. */
  lemma {:induction false} OutsideUnchanged<L>(merge: bool, doc: Entries<L>, at: seq<string>, path: seq<string>,
                                               before: Option<Kind<L>>)
    requires !(at < path)
    ensures KindAfter(merge, Assignments(doc, at), path, before) == before
    decreases doc
  {
    if doc == [] {
    } else {
      var here, first := at + [doc[0].key], PairAssignments(doc[0], at);
      assert here <= path ==> at < path;
      if doc[0].value.Table? {
        OutsideUnchanged(merge, doc[0].value.entries, here, path, before);
        assert first[1..] == Assignments(doc[0].value.entries, here);
      }
      KindAfterConcat(merge, first, Assignments(doc[1..], at), path, before);
      OutsideUnchanged(merge, doc[1..], at, path, before);
    }
  }

  lemma OpenIsStore<L>(mode: Mode, base: Entries<L>, key: string, filled: Entries<L>)
    requires !mode.multi
    ensures var (es, i) := Open(mode, base, key);
            es[i := Entry(key, Table(filled))] == Store(false, base, key, Table(filled))
  {
  }

  lemma BelowOpened<L>(mode: Mode, base: Entries<L>, key: string, path: seq<string>)
    requires !mode.multi && path != []
    ensures var (es, i) := Open(mode, base, key);
            KindAt(es[i].value.entries, path) == if mode.merge then KindAt(base, [key] + path) else None
  {
    assert ([key] + path)[1..] == path;
    var i := Find(base, key);
    if i < |base| && base[i].value.Leaf? {
      assert KindIn(base[i].value, path) == None;
    }
  }

  lemma NotBelow(at: seq<string>, key: string, path: seq<string>)
    requires path == [] || path[0] != key
    ensures !(at + [key] <= at + path)
  {
    assert (at + [key])[|at|] == key;
    if path != [] {
      assert (at + path)[|at|] == path[0];
    }
  }

  /** One pair of the document, a leaf or a mapping with everything in it. */
  lemma {:induction false} MergePairMeaning<L>(mode: Mode, e: Entry<L>, base: Entries<L>, at: seq<string>,
                                               path: seq<string>)
    requires !mode.multi
    ensures KindAt(MergePair(mode, e, base), path) ==
            KindAfter(mode.merge, PairAssignments(e, at), at + path, KindAt(base, path))
    decreases e, 0
  {
    var here, log := at + [e.key], PairAssignments(e, at);
    var inside := path != [] && path[0] == e.key;
    if inside {
      assert at + path == here + path[1..];
    } else {
      NotBelow(at, e.key, path);
    }
    match e.value {
      case Leaf(l) =>
        KindAtStore(base, e.key, e.value, path);
      case Table(sub) =>
        var (es, i) := Open(mode, base, e.key);
        var filled := MergeInto(mode, sub, es[i].value.entries);
        OpenIsStore(mode, base, e.key, filled);
        KindAtStore(base, e.key, Table(filled), path);
        assert log[1..] == Assignments(sub, here);
        if !inside || |path| == 1 {
          OutsideUnchanged(mode.merge, sub, here, at + path, if inside then Some(TableKind) else KindAt(base, path));
        } else {
          BelowOpened(mode, base, e.key, path[1..]);
          assert [e.key] + path[1..] == path;
          MergeMeaning(mode, sub, es[i].value.entries, here, path[1..]);
        }
    }
  }

  /**
   For a plain dict, merging or not, the load leaves at every path exactly what the last
   assignment concerning that path put there.
   */
  lemma {:induction false} MergeMeaning<L>(mode: Mode, doc: Entries<L>, base: Entries<L>, at: seq<string>,
                                           path: seq<string>)
    requires !mode.multi
    ensures KindAt(MergeInto(mode, doc, base), path) ==
            KindAfter(mode.merge, Assignments(doc, at), at + path, KindAt(base, path))
    decreases doc
  {
    if doc == [] {
    } else {
      MergePairMeaning(mode, doc[0], base, at, path);
      MergeMeaning(mode, doc[1..], MergePair(mode, doc[0], base), at, path);
      var first, rest := PairAssignments(doc[0], at), Assignments(doc[1..], at);
      KindAfterConcat(mode.merge, first, rest, at + path, KindAt(base, path));
    }
  }
}
