/**
 The loaders' stack of open mappings, on values. The innermost mapping is `top`; each outer
 frame keeps the position of the mapping that is open inside it.
 */
module VdfStack {
  import opened VdfTree

  datatype Frame<L> = Frame(entries: Entries<L>, at: nat)
  datatype Stack<L> = Stack(outer: seq<Frame<L>>, top: Entries<L>)

  function StoreLeaf<L>(mode: Mode, s: Stack<L>, key: string, leaf: L): Stack<L> {
    s.(top := Store(mode.multi, s.top, key, Leaf(leaf)))
  }

  function Enter<L>(mode: Mode, s: Stack<L>, key: string): Stack<L> {
    var (es, i) := Open(mode, s.top, key);
    Stack(s.outer + [Frame(es, i)], es[i].value.entries)
  }

  /** `{}` on the key's own line: the mapping is opened but not descended into. */
  function EnterClosed<L>(mode: Mode, s: Stack<L>, key: string): Stack<L> {
    s.(top := Open(mode, s.top, key).0)
  }

  function Closed<L>(f: Frame<L>, inner: Entries<L>): Entries<L> {
    if f.at < |f.entries| then f.entries[f.at := Entry(f.entries[f.at].key, Table(inner))] else f.entries
  }

  function Leave<L>(s: Stack<L>): Stack<L>
    requires s.outer != []
  {
    var n := |s.outer| - 1;
    Stack(s.outer[..n], Closed(s.outer[n], s.top))
  }

  /** Entering a mapping, filling it and leaving it acts on `top` alone, as one step of `MergeInto` does. */
  lemma EnterFillLeave<L>(mode: Mode, s: Stack<L>, key: string, filled: Entries<L>)
    ensures var (es, i) := Open(mode, s.top, key);
            Leave(Stack(Enter(mode, s, key).outer, filled)) == s.(top := es[i := Entry(key, Table(filled))])
  {
    var inner := Enter(mode, s, key);
    assert inner.outer[..|inner.outer| - 1] == s.outer;
  }
}
