/**
 Documents of the VDF library: ordered lists of (key, value) pairs whose values are
 leaves or nested documents. A plain `dict` target is such a list with distinct keys;
 a `VDFDict` target may hold duplicates.
 */
module VdfTree {
  datatype Node<L> = Leaf(leaf: L) | Table(entries: seq<Entry<L>>)
  datatype Entry<L> = Entry(key: string, value: Node<L>)
  type Entries<L> = seq<Entry<L>>

  /** The loader's options: `multi` is `mapper=VDFDict`, `merge` is `merge_duplicate_keys`. */
  datatype Mode = Mode(multi: bool, merge: bool)

  /** Position of the first pair with the key (`(0, key)` for a VDFDict), or the length. */
  function Find<L>(es: Entries<L>, key: string): (i: nat)
    ensures i <= |es|
    ensures i < |es| ==> es[i].key == key
    ensures forall j :: 0 <= j < i ==> es[j].key != key
  {
    if es == [] || es[0].key == key then 0 else 1 + Find(es[1..], key)
  }

  /** Where `target[key] = value` puts the value: over an existing pair of a dict, else at the end. */
  function StoreAt<L>(multi: bool, es: Entries<L>, key: string): (i: nat)
    ensures i <= |es|
  {
    if multi then |es| else Find(es, key)
  }

  function Place<L>(es: Entries<L>, i: nat, e: Entry<L>): Entries<L>
    requires i <= |es|
  {
    if i < |es| then es[i := e] else es + [e]
  }

  /** `target[key] = value`. */
  function Store<L>(multi: bool, es: Entries<L>, key: string, value: Node<L>): Entries<L> {
    Place(es, StoreAt(multi, es, key), Entry(key, value))
  }

  /** True when a mapping read under `key` re-enters an existing value instead of making a new one. */
  predicate Reenters<L>(mode: Mode, es: Entries<L>, key: string) {
    mode.merge && Find(es, key) < |es|
  }

  /**
   The target after a mapping was opened under `key`, and the position of the mapping that
   the parser descends into: an existing one when merging, otherwise a new, empty one.
   */
  function Open<L>(mode: Mode, es: Entries<L>, key: string): (r: (Entries<L>, nat))
    ensures r.1 < |r.0| && r.0[r.1].key == key && r.0[r.1].value.Table?
  {
    var i := Find(es, key);
    if mode.merge && i < |es| && es[i].value.Table? then (es, i)
    else (Store(mode.multi, es, key, Table([])), StoreAt(mode.multi, es, key))
  }

  /** One pair read into a target that holds `base`: a leaf is stored, a mapping is read into the one opened. */
  function MergePair<L>(mode: Mode, e: Entry<L>, base: Entries<L>): Entries<L>
    decreases e, 0
  {
    match e.value
    case Leaf(_) => Store(mode.multi, base, e.key, e.value)
    case Table(sub) =>
      var (es, i) := Open(mode, base, e.key);
      es[i := Entry(e.key, Table(MergeInto(mode, sub, es[i].value.entries)))]
  }

  /** The document left by reading `doc`, pair by pair, into a target that already holds `base`. */
  function MergeInto<L>(mode: Mode, doc: Entries<L>, base: Entries<L>): Entries<L>
    decreases doc
  {
    if doc == [] then base else MergeInto(mode, doc[1..], MergePair(mode, doc[0], base))
  }

  /** No key occurs twice, at this level or below: the documents a plain dict can hold. */
  ghost predicate DistinctKeys<L>(es: Entries<L>)
    decreases es
  {
    && (forall i, j :: 0 <= i < j < |es| ==> es[i].key != es[j].key)
    && (forall i :: 0 <= i < |es| && es[i].value.Table? ==> DistinctKeys(es[i].value.entries))
  }

  /** The documents a target of this mode can hold and that reading back does not rearrange. */
  ghost predicate Storable<L>(mode: Mode, es: Entries<L>) {
    (mode.multi && !mode.merge) || DistinctKeys(es)
  }

  /** `doc` shares no key with `base`, or duplicates are kept apart. */
  ghost predicate Apart<L>(mode: Mode, doc: Entries<L>, base: Entries<L>) {
    (mode.multi && !mode.merge)
    || forall i, j :: 0 <= i < |doc| && 0 <= j < |base| ==> doc[i].key != base[j].key
  }

  lemma StepApart<L>(mode: Mode, doc: Entries<L>, base: Entries<L>)
    requires doc != [] && Storable(mode, doc) && Apart(mode, doc, base)
    ensures Storable(mode, doc[1..])
    ensures Apart(mode, doc[1..], base + [doc[0]])
    ensures Store(mode.multi, base, doc[0].key, doc[0].value) == base + [doc[0]]
    ensures doc[0].value.Table? ==>
              && Open(mode, base, doc[0].key) == (base + [Entry(doc[0].key, Table([]))], |base|)
              && Storable(mode, doc[0].value.entries)
              && Apart(mode, doc[0].value.entries, [])
              && !Reenters(mode, base, doc[0].key)
  {
    assert doc[0].key == doc[0].key;
    if !(mode.multi && !mode.merge) {
      assert Find(base, doc[0].key) == |base|;
    }
  }
}
