/**
 Which documents a load can leave, and which ones reading back gives again: for every mapper the two
 are the same.
 */
module VdfLoadable {
  import opened VdfTree
  import opened VdfStack

  /**
   Pair `j` is kept apart from those before it. A plain dict must not have its key yet; a VDFDict that
   merges re-enters an earlier mapping, though not when a leaf comes first.
   */
  predicate KeptApart<L>(mode: Mode, es: Entries<L>, j: nat)
    requires j < |es|
  {
    var f := Find(es, es[j].key);
    f == j || (mode.multi && (es[j].value.Leaf? || !mode.merge || (f < |es| && es[f].value.Leaf?)))
  }

  /** From pair `n` on every pair is kept apart, and so are those of the mappings below. */
  ghost predicate LoadableFrom<L>(mode: Mode, es: Entries<L>, n: nat)
    decreases es
  {
    && (forall j :: n <= j < |es| ==> KeptApart(mode, es, j))
    && (forall j :: n <= j < |es| && es[j].value.Table? ==> LoadableFrom(mode, es[j].value.entries, 0))
  }

  ghost predicate Loadable<L>(mode: Mode, es: Entries<L>) {
    LoadableFrom(mode, es, 0)
  }

  // ---------- loadable documents are read back ----------

  lemma FindPrefix<L>(es: Entries<L>, n: nat, key: string)
    requires n <= |es|
    ensures Find(es[..n], key) == if Find(es, key) < n then Find(es, key) else n
  {
    var f, g := Find(es, key), Find(es[..n], key);
    assert g < n ==> es[..n][g].key == es[g].key;
    assert f < n ==> es[..n][f].key == es[f].key;
    assert f <= g || g < f;
  }

  lemma NextAppended<L>(mode: Mode, doc: Entries<L>, base: Entries<L>)
    requires doc != [] && LoadableFrom(mode, base + doc, |base|)
    ensures Store(mode.multi, base, doc[0].key, doc[0].value) == base + [doc[0]] || doc[0].value.Table?
    ensures doc[0].value.Table? ==>
              && Open(mode, base, doc[0].key) == (base + [Entry(doc[0].key, Table([]))], |base|)
              && LoadableFrom(mode, doc[0].value.entries, 0)
  {
    var all, n := base + doc, |base|;
    assert all[n] == doc[0] && all[..n] == base;
    assert KeptApart(mode, all, n);
    FindPrefix(all, n, doc[0].key);
  }

  /** Pairs that are kept apart are appended unchanged, at every depth. */
  lemma {:induction false} MergeIntoAppends<L>(mode: Mode, doc: Entries<L>, base: Entries<L>)
    requires LoadableFrom(mode, base + doc, |base|)
    ensures MergeInto(mode, doc, base) == base + doc
    decreases doc
  {
    if doc == [] {
    } else {
      NextAppended(mode, doc, base);
      if doc[0].value.Table? {
        var sub := doc[0].value.entries;
        assert [] + sub == sub;
        MergeIntoAppends(mode, sub, []);
        var es := base + [Entry(doc[0].key, Table([]))];
        assert es[|base| := doc[0]] == base + [doc[0]];
      }
      assert base + [doc[0]] + doc[1..] == base + doc;
      MergeIntoAppends(mode, doc[1..], base + [doc[0]]);
    }
  }

  // ---------- every load leaves a loadable document ----------

  lemma FindSameKeys<L>(es: Entries<L>, es': Entries<L>, key: string)
    requires |es| == |es'| && forall j :: 0 <= j < |es| ==> es[j].key == es'[j].key
    ensures Find(es, key) == Find(es', key)
  {
    var f, g := Find(es, key), Find(es', key);
    assert f < |es| ==> es'[f].key == key;
    assert g < |es| ==> es[g].key == key;
  }

  ghost predicate LoadableNode<L>(mode: Mode, node: Node<L>) {
    node.Table? ==> Loadable(mode, node.entries)
  }

  /** A mapping under an existing key is made only where a leaf comes first or mappings are not merged. */
  predicate MayStore<L>(mode: Mode, es: Entries<L>, key: string, node: Node<L>) {
    var f := Find(es, key);
    node.Leaf? || !mode.multi || !mode.merge || f == |es| || es[f].value.Leaf?
  }

  lemma AppendLoadable<L>(mode: Mode, es: Entries<L>, key: string, node: Node<L>)
    requires Loadable(mode, es) && LoadableNode(mode, node) && MayStore(mode, es, key, node)
    requires mode.multi || Find(es, key) == |es|
    ensures Loadable(mode, es + [Entry(key, node)])
  {
    var after := es + [Entry(key, node)];
    assert after[..|es|] == es;
    forall j | 0 <= j < |after|
      ensures KeptApart(mode, after, j) && LoadableNode(mode, after[j].value)
    {
      FindPrefix(after, |es|, after[j].key);
      if j < |es| {
        assert KeptApart(mode, es, j);
      }
    }
  }

  lemma ReplaceLoadable<L>(mode: Mode, es: Entries<L>, i: nat, node: Node<L>)
    requires Loadable(mode, es) && LoadableNode(mode, node) && i < |es|
    requires !mode.multi || (es[i].value.Table? && node.Table?)
    ensures Loadable(mode, es[i := Entry(es[i].key, node)])
  {
    var after := es[i := Entry(es[i].key, node)];
    forall j | 0 <= j < |after|
      ensures KeptApart(mode, after, j) && LoadableNode(mode, after[j].value)
    {
      FindSameKeys(es, after, es[j].key);
      assert KeptApart(mode, es, j);
      assert LoadableNode(mode, es[j].value);
    }
  }

  lemma StoreLoadable<L>(mode: Mode, es: Entries<L>, key: string, node: Node<L>)
    requires Loadable(mode, es) && LoadableNode(mode, node) && MayStore(mode, es, key, node)
    ensures Loadable(mode, Store(mode.multi, es, key, node))
  {
    if mode.multi || Find(es, key) == |es| {
      AppendLoadable(mode, es, key, node);
    } else {
      ReplaceLoadable(mode, es, Find(es, key), node);
    }
  }

  lemma OpenLoadable<L>(mode: Mode, es: Entries<L>, key: string)
    requires Loadable(mode, es)
    ensures Loadable(mode, Open(mode, es, key).0)
  {
    var i := Find(es, key);
    if !(mode.merge && i < |es| && es[i].value.Table?) {
      StoreLoadable(mode, es, key, Table([]));
    }
  }

  lemma {:induction false} MergePairLoadable<L>(mode: Mode, e: Entry<L>, base: Entries<L>)
    requires Loadable(mode, base)
    ensures Loadable(mode, MergePair(mode, e, base))
    decreases e, 0
  {
    match e.value {
      case Leaf(_) => StoreLoadable(mode, base, e.key, e.value);
      case Table(sub) =>
        OpenLoadable(mode, base, e.key);
        var (es, i) := Open(mode, base, e.key);
        MergeIntoLoadable(mode, sub, es[i].value.entries);
        ReplaceLoadable(mode, es, i, Table(MergeInto(mode, sub, es[i].value.entries)));
    }
  }

  lemma {:induction false} MergeIntoLoadable<L>(mode: Mode, doc: Entries<L>, base: Entries<L>)
    requires Loadable(mode, base)
    ensures Loadable(mode, MergeInto(mode, doc, base))
    decreases doc
  {
    if doc != [] {
      MergePairLoadable(mode, doc[0], base);
      MergeIntoLoadable(mode, doc[1..], MergePair(mode, doc[0], base));
    }
  }

  /** A document is what reading it leaves exactly when some load leaves it. */
  lemma LoadedExactly<L>(mode: Mode, doc: Entries<L>)
    ensures MergeInto(mode, doc, []) == doc <==> Loadable(mode, doc)
  {
    if Loadable(mode, doc) {
      assert [] + doc == doc;
      MergeIntoAppends(mode, doc, []);
    }
    MergeIntoLoadable(mode, doc, []);
  }

  /** For a plain dict, merging or not, that is to have no key twice, at any level. */
  lemma {:induction false} PlainLoadable<L>(mode: Mode, es: Entries<L>)
    requires !mode.multi
    ensures Loadable(mode, es) <==> DistinctKeys(es)
    decreases es
  {
    forall i | 0 <= i < |es| && es[i].value.Table?
      ensures Loadable(mode, es[i].value.entries) <==> DistinctKeys(es[i].value.entries)
    {
      PlainLoadable(mode, es[i].value.entries);
    }
    if Loadable(mode, es) {
      forall i, j | 0 <= i < j < |es|
        ensures es[i].key != es[j].key
      {
        assert KeptApart(mode, es, j);
      }
    }
    if DistinctKeys(es) {
      forall j | 0 <= j < |es|
        ensures KeptApart(mode, es, j)
      {
        assert Find(es, es[j].key) <= j;
      }
    }
  }

  /** Every document that can be loaded with a VDFDict that does not merge. */
  lemma {:induction false} MultiLoadable<L>(mode: Mode, es: Entries<L>)
    requires mode.multi && !mode.merge
    ensures Loadable(mode, es)
    decreases es
  {
    forall i | 0 <= i < |es| && es[i].value.Table?
      ensures Loadable(mode, es[i].value.entries)
    {
      MultiLoadable(mode, es[i].value.entries);
    }
  }

  // ---------- the same for the stack of open mappings ----------

  ghost predicate LoadableFrame<L>(mode: Mode, f: Frame<L>) {
    Loadable(mode, f.entries) && f.at < |f.entries| && f.entries[f.at].value.Table?
  }

  ghost predicate LoadableStack<L>(mode: Mode, s: Stack<L>) {
    Loadable(mode, s.top) && forall k :: 0 <= k < |s.outer| ==> LoadableFrame(mode, s.outer[k])
  }

  lemma StoreLeafKeeps<L>(mode: Mode, s: Stack<L>, key: string, leaf: L)
    requires LoadableStack(mode, s)
    ensures LoadableStack(mode, StoreLeaf(mode, s, key, leaf))
  {
    StoreLoadable(mode, s.top, key, Leaf(leaf));
  }

  lemma EnterKeeps<L>(mode: Mode, s: Stack<L>, key: string)
    requires LoadableStack(mode, s)
    ensures LoadableStack(mode, Enter(mode, s, key)) && LoadableStack(mode, EnterClosed(mode, s, key))
  {
    OpenLoadable(mode, s.top, key);
  }

  lemma LeaveKeeps<L>(mode: Mode, s: Stack<L>)
    requires LoadableStack(mode, s) && s.outer != []
    ensures LoadableStack(mode, Leave(s))
  {
    var f := s.outer[|s.outer| - 1];
    assert LoadableFrame(mode, f);
    ReplaceLoadable(mode, f.entries, f.at, Table(s.top));
  }
}
