/**
 The loaders' working state as the source keeps it: dictionaries that are changed in place,
 and a stack of references into one growing tree. A dictionary on the stack is at the same time
 a value of the one below it, so writing to the top changes what all of them show.
 `Loader` keeps that structure in step with the value-level stack of `VdfStack`.
 */
module VdfLoader {
  import opened VdfTree
  import opened VdfStack

  datatype Val<L> = Plain(leaf: L) | Ref(dict: Dict<L>)
  datatype Item<L> = Item(key: string, val: Val<L>)

  /** A mapping created by `mapper()`. `rank` numbers the mappings in order of creation. */
  class Dict<L> {
    ghost const rank: nat
    var items: seq<Item<L>>

    constructor (ghost rank: nat)
      ensures items == [] && this.rank == rank
    {
      items := [];
      this.rank := rank;
    }
  }

  /** The items of every mapping created so far, by rank. */
  type Memory<L> = seq<seq<Item<L>>>

  /** The j-th item of the i-th mapping is another mapping. */
  ghost predicate IsRef<L>(mem: Memory<L>, i: nat, j: nat) {
    i < |mem| && j < |mem[i]| && mem[i][j].val.Ref?
  }

  ghost function Child<L>(mem: Memory<L>, i: nat, j: nat): nat
    requires IsRef(mem, i, j)
  {
    mem[i][j].val.dict.rank
  }

  /** The mappings form a forest: each is a value of at most one other, created before it. */
  ghost predicate Linked<L>(mem: Memory<L>) {
    && (forall i: nat, j: nat :: IsRef(mem, i, j) ==> i < Child(mem, i, j) < |mem|)
    && (forall i: nat, j: nat, k: nat, l: nat ::
          IsRef(mem, i, j) && IsRef(mem, k, l) && Child(mem, i, j) == Child(mem, k, l) ==> i == k && j == l)
  }

  /** What the i-th mapping holds, everything below it included. */
  ghost function Content<L>(mem: Memory<L>, i: nat): (es: Entries<L>)
    requires Linked(mem) && i < |mem|
    decreases |mem| - i, 1
    ensures |es| == |mem[i]|
    ensures forall j :: 0 <= j < |es| ==> es[j] == Entry(mem[i][j].key, Shown(mem, i, j))
  {
    seq(|mem[i]|, j requires 0 <= j < |mem[i]| => Entry(mem[i][j].key, Shown(mem, i, j)))
  }

  ghost function Shown<L>(mem: Memory<L>, i: nat, j: nat): Node<L>
    requires Linked(mem) && i < |mem| && j < |mem[i]|
    decreases |mem| - i, 0
  {
    match mem[i][j].val
    case Plain(l) => Leaf(l)
    case Ref(_) =>
      assert IsRef(mem, i, j);
      Table(Content(mem, Child(mem, i, j)))
  }

  /** Changing mappings of `open` only, and creating new ones, leaves a mapping outside it as it was. */
  lemma {:induction false} ContentUnchanged<L>(mem: Memory<L>, mem': Memory<L>, i: nat, open: set<nat>)
    requires Linked(mem) && Linked(mem') && |mem| <= |mem'|
    requires i < |mem| && i !in open
    requires forall k :: 0 <= k < |mem| && k !in open ==> mem'[k] == mem[k]
    requires forall k: nat, j: nat :: IsRef(mem, k, j) && k !in open ==> Child(mem, k, j) !in open
    ensures Content(mem', i) == Content(mem, i)
    decreases |mem| - i
  {
    forall j | 0 <= j < |mem[i]|
      ensures Shown(mem', i, j) == Shown(mem, i, j)
    {
      if IsRef(mem, i, j) {
        ContentUnchanged(mem, mem', Child(mem, i, j), open);
      }
    }
  }

  function Position<L>(items: seq<Item<L>>, key: string): (i: nat)
    ensures i <= |items|
  {
    if items == [] || items[0].key == key then 0 else 1 + Position(items[1..], key)
  }

  /** The stack, by rank, shows the value-level stack `view` in the memory. */
  ghost predicate Shows<L>(mem: Memory<L>, ranks: seq<nat>, view: Stack<L>) {
    && Linked(mem)
    && |ranks| == |view.outer| + 1 && ranks[0] == 0
    && (forall k :: 0 <= k < |ranks| ==> ranks[k] < |mem|)
    && (forall k :: 0 <= k < |view.outer| ==> Nested(mem, ranks, view, k))
    && (forall k :: 0 <= k < |view.outer| ==> Fits(mem, ranks[k], view.outer[k].entries, view.outer[k].at))
    && Fits(mem, ranks[|view.outer|], view.top, |view.top|)
  }

  /** The mapping above the k-th on the stack is the item of it that is open. */
  ghost predicate Nested<L>(mem: Memory<L>, ranks: seq<nat>, view: Stack<L>, k: nat)
    requires |ranks| == |view.outer| + 1 && k < |view.outer|
  {
    IsRef(mem, ranks[k], view.outer[k].at) && Child(mem, ranks[k], view.outer[k].at) == ranks[k + 1]
  }

  /** The i-th mapping shows `es`, except at the position `open`. */
  ghost predicate Fits<L>(mem: Memory<L>, i: nat, es: Entries<L>, open: nat)
    requires Linked(mem) && i < |mem|
  {
    && |mem[i]| == |es|
    && forall j :: 0 <= j < |es| ==>
        && mem[i][j].key == es[j].key
        && (j != open ==> Shown(mem, i, j) == es[j].value)
  }

  ghost function OnStack(ranks: seq<nat>): set<nat> {
    set k | 0 <= k < |ranks| :: ranks[k]
  }

  lemma RanksRise<L>(mem: Memory<L>, ranks: seq<nat>, view: Stack<L>, k: nat, l: nat)
    requires Shows(mem, ranks, view) && k < l < |ranks|
    ensures ranks[k] < ranks[l]
    decreases l - k
  {
    assert Nested(mem, ranks, view, l - 1);
    if k < l - 1 {
      RanksRise(mem, ranks, view, k, l - 1);
    }
  }

  /** A mapping on the stack is a value of the one below it only. */
  lemma OnlyOpened<L>(mem: Memory<L>, ranks: seq<nat>, view: Stack<L>, i: nat, j: nat)
    requires Shows(mem, ranks, view) && IsRef(mem, i, j) && Child(mem, i, j) in OnStack(ranks)
    ensures exists k :: 0 <= k < |view.outer| && i == ranks[k] && j == view.outer[k].at
  {
    var k :| 0 <= k < |ranks| && ranks[k] == Child(mem, i, j);
    assert Nested(mem, ranks, view, k - 1);
    assert 0 <= k - 1 < |view.outer| && i == ranks[k - 1] && j == view.outer[k - 1].at;
  }

  /** Changing the top mapping, and creating new ones, leaves every item unchanged that is not open or on top. */
  lemma ItemUnchanged<L>(mem: Memory<L>, mem': Memory<L>, ranks: seq<nat>, view: Stack<L>, i: nat, j: nat)
    requires Shows(mem, ranks, view) && Linked(mem') && |mem| <= |mem'|
    requires forall k :: 0 <= k < |mem| && k != ranks[|view.outer|] ==> mem'[k] == mem[k]
    requires i < |mem| && j < |mem[i]| && j < |mem'[i]| && mem'[i][j] == mem[i][j]
    requires forall k :: 0 <= k < |view.outer| ==> i != ranks[k] || j != view.outer[k].at
    ensures Shown(mem', i, j) == Shown(mem, i, j)
  {
    if IsRef(mem, i, j) {
      if Child(mem, i, j) in OnStack(ranks) {
        OnlyOpened(mem, ranks, view, i, j);
      }
      forall k: nat, l: nat | IsRef(mem, k, l) && k !in OnStack(ranks)
        ensures Child(mem, k, l) !in OnStack(ranks)
      {
        if Child(mem, k, l) in OnStack(ranks) {
          OnlyOpened(mem, ranks, view, k, l);
        }
      }
      ContentUnchanged(mem, mem', Child(mem, i, j), OnStack(ranks));
    }
  }

  /** Frames below the top fit after the top mapping was changed or new ones were created. */
  lemma OuterFits<L>(mem: Memory<L>, mem': Memory<L>, ranks: seq<nat>, view: Stack<L>, k: nat)
    requires Shows(mem, ranks, view) && Linked(mem') && |mem| <= |mem'|
    requires forall i :: 0 <= i < |mem| && i != ranks[|view.outer|] ==> mem'[i] == mem[i]
    requires k < |view.outer|
    ensures Nested(mem', ranks, view, k)
    ensures Fits(mem', ranks[k], view.outer[k].entries, view.outer[k].at)
  {
    RanksRise(mem, ranks, view, k, |view.outer|);
    assert Nested(mem, ranks, view, k);
    forall j | 0 <= j < |mem[ranks[k]]| && j != view.outer[k].at
      ensures Shown(mem', ranks[k], j) == Shown(mem, ranks[k], j)
    {
      forall l | 0 <= l < |view.outer|
        ensures ranks[k] != ranks[l] || j != view.outer[l].at
      {
        if l < k {
          RanksRise(mem, ranks, view, l, k);
        } else if k < l {
          RanksRise(mem, ranks, view, k, l);
        }
      }
      ItemUnchanged(mem, mem', ranks, view, ranks[k], j);
    }
  }

  lemma PositionIsFind<L>(mem: Memory<L>, i: nat, es: Entries<L>, open: nat, key: string)
    requires Linked(mem) && i < |mem| && Fits(mem, i, es, open)
    ensures Position(mem[i], key) == Find(es, key)
  {
    PositionOfKeys(mem[i], es, key);
  }

  lemma {:induction false} PositionOfKeys<L>(items: seq<Item<L>>, es: Entries<L>, key: string)
    requires |items| == |es| && forall j :: 0 <= j < |es| ==> items[j].key == es[j].key
    ensures Position(items, key) == Find(es, key)
  {
    if es == [] || es[0].key == key {
    } else {
      PositionOfKeys(items[1..], es[1..], key);
    }
  }

  /** A value that may be stored: a leaf, or a new mapping that is empty and nowhere referred to. */
  ghost predicate IsNew<L>(mem: Memory<L>, ranks: seq<nat>, val: Val<L>) {
    val.Plain? || (
      && val.dict.rank < |mem| && mem[val.dict.rank] == []
      && (forall k :: 0 <= k < |ranks| ==> ranks[k] < val.dict.rank)
      && (forall i: nat, j: nat :: IsRef(mem, i, j) ==> Child(mem, i, j) != val.dict.rank))
  }

  function Stored<L>(items: seq<Item<L>>, at: nat, item: Item<L>): seq<Item<L>> {
    if at < |items| then items[at := item] else items + [item]
  }

  function NewNode<L>(val: Val<L>): Node<L> {
    if val.Plain? then Leaf(val.leaf) else Table([])
  }

  lemma LinkedStored<L>(mem: Memory<L>, ranks: seq<nat>, top: nat, at: nat, item: Item<L>)
    requires Linked(mem) && IsNew(mem, ranks, item.val) && top in ranks && top < |mem| && at <= |mem[top]|
    ensures Linked(mem[top := Stored(mem[top], at, item)])
  {
    var mem': Memory<L> := mem[top := Stored(mem[top], at, item)];
    forall i: nat, j: nat | IsRef(mem', i, j)
      ensures (i == top && j == at && Child(mem', i, j) == item.val.dict.rank)
              || (IsRef(mem, i, j) && Child(mem', i, j) == Child(mem, i, j))
    {
    }
  }

  /** Putting a leaf or a new mapping into the top mapping. */
  lemma ShowsStored<L>(mem: Memory<L>, ranks: seq<nat>, view: Stack<L>, at: nat, key: string, val: Val<L>,
                       mem': Memory<L>)
    requires Shows(mem, ranks, view) && at <= |view.top| && IsNew(mem, ranks, val)
    requires var top := ranks[|view.outer|]; mem' == mem[top := Stored(mem[top], at, Item(key, val))]
    ensures Shows(mem', ranks, view.(top := Place(view.top, at, Entry(key, NewNode(val)))))
  {
    var top := ranks[|view.outer|];
    var view' := view.(top := Place(view.top, at, Entry(key, NewNode(val))));
    LinkedStored(mem, ranks, top, at, Item(key, val));
    forall k | 0 <= k < |view.outer|
      ensures Nested(mem', ranks, view', k)
      ensures Fits(mem', ranks[k], view.outer[k].entries, view.outer[k].at)
    {
      OuterFits(mem, mem', ranks, view, k);
      assert Nested(mem', ranks, view, k);
    }
    forall j | 0 <= j < |view.top| && j != at
      ensures Shown(mem', top, j) == Shown(mem, top, j)
    {
      TopItemUnchanged(mem, mem', ranks, view, j);
    }
    if val.Ref? {
      assert IsRef(mem', top, at) && Content(mem', val.dict.rank) == [];
    }
  }

  lemma TopItemUnchanged<L>(mem: Memory<L>, mem': Memory<L>, ranks: seq<nat>, view: Stack<L>, j: nat)
    requires Shows(mem, ranks, view) && Linked(mem') && |mem| <= |mem'|
    requires forall k :: 0 <= k < |mem| && k != ranks[|view.outer|] ==> mem'[k] == mem[k]
    requires var top := ranks[|view.outer|]; j < |mem[top]| && j < |mem'[top]| && mem'[top][j] == mem[top][j]
    ensures Shown(mem', ranks[|view.outer|], j) == Shown(mem, ranks[|view.outer|], j)
  {
    forall k | 0 <= k < |view.outer|
      ensures ranks[|view.outer|] != ranks[k]
    {
      RanksRise(mem, ranks, view, k, |view.outer|);
    }
    ItemUnchanged(mem, mem', ranks, view, ranks[|view.outer|], j);
  }

  /** `mapper()`: a new mapping, not yet a value of any other. */
  lemma ShowsCreated<L>(mem: Memory<L>, ranks: seq<nat>, view: Stack<L>)
    requires Shows(mem, ranks, view)
    ensures Shows(mem + [[]], ranks, view)
  {
    var mem' := mem + [[]];
    forall i: nat, j: nat | IsRef(mem', i, j)
      ensures IsRef(mem, i, j) && Child(mem', i, j) == Child(mem, i, j)
    {
    }
    forall k | 0 <= k < |view.outer|
      ensures Nested(mem', ranks, view, k)
      ensures Fits(mem', ranks[k], view.outer[k].entries, view.outer[k].at)
    {
      OuterFits(mem, mem', ranks, view, k);
    }
    forall j | 0 <= j < |view.top|
      ensures Shown(mem', ranks[|view.outer|], j) == Shown(mem, ranks[|view.outer|], j)
    {
      TopItemUnchanged(mem, mem', ranks, view, j);
    }
  }

  /** `stack.append` of a mapping that is an item of the top one. */
  lemma ShowsEntered<L>(mem: Memory<L>, ranks: seq<nat>, view: Stack<L>, at: nat)
    requires Shows(mem, ranks, view) && IsRef(mem, ranks[|view.outer|], at)
    ensures at < |view.top| && view.top[at].value.Table?
    ensures Shows(mem, ranks + [Child(mem, ranks[|view.outer|], at)],
                  Stack(view.outer + [Frame(view.top, at)], view.top[at].value.entries))
  {
    var n := |view.outer|;
    var ranks' := ranks + [Child(mem, ranks[n], at)];
    assert Shown(mem, ranks[n], at) == view.top[at].value;
    var view' := Stack(view.outer + [Frame(view.top, at)], view.top[at].value.entries);
    forall k | 0 <= k < |view'.outer|
      ensures Nested(mem, ranks', view', k)
    {
      if k < n {
        assert Nested(mem, ranks, view, k);
      }
    }
  }

  /** `stack.pop()`: the frame below now shows what was read into the mapping that was open. */
  lemma ShowsLeft<L>(mem: Memory<L>, ranks: seq<nat>, view: Stack<L>)
    requires Shows(mem, ranks, view) && view.outer != []
    ensures Shows(mem, ranks[..|view.outer|], Leave(view))
  {
    var n := |view.outer| - 1;
    var ranks', view', f := ranks[..n + 1], Leave(view), view.outer[n];
    forall k | 0 <= k < n
      ensures Nested(mem, ranks', view', k)
      ensures Fits(mem, ranks'[k], view'.outer[k].entries, view'.outer[k].at)
    {
      assert Nested(mem, ranks, view, k);
    }
    assert Nested(mem, ranks, view, n);
    assert Content(mem, ranks[n + 1]) == view.top;
    assert Fits(mem, ranks[n], f.entries, f.at);
    assert Fits(mem, ranks[n], view'.top, |view'.top|);
  }

  /** A memory, the ranks on the stack, and the value-level stack that they show. */
  datatype Record<L> = Record(mem: Memory<L>, ranks: seq<nat>, view: Stack<L>)
  type Picture<L> = p: Record<L> | Shows(p.mem, p.ranks, p.view) ghost witness Record([[]], [0], Stack([], []))

  ghost function TopRank<L>(p: Picture<L>): (r: nat)
    ensures r < |p.mem|
  {
    p.ranks[|p.view.outer|]
  }

  ghost function PictureStored<L>(p: Picture<L>, at: nat, key: string, val: Val<L>): (q: Picture<L>)
    requires at <= |p.view.top| && IsNew(p.mem, p.ranks, val)
    ensures at <= |p.mem[TopRank(p)]|
    ensures q.mem == p.mem[TopRank(p) := Stored(p.mem[TopRank(p)], at, Item(key, val))] && q.ranks == p.ranks
    ensures q.view == p.view.(top := Place(p.view.top, at, Entry(key, NewNode(val))))
  {
    var mem' := p.mem[TopRank(p) := Stored(p.mem[TopRank(p)], at, Item(key, val))];
    ShowsStored(p.mem, p.ranks, p.view, at, key, val, mem');
    Record(mem', p.ranks, p.view.(top := Place(p.view.top, at, Entry(key, NewNode(val)))))
  }

  ghost function PictureCreated<L>(p: Picture<L>): (q: Picture<L>)
    ensures q == p.(mem := p.mem + [[]])
  {
    ShowsCreated(p.mem, p.ranks, p.view);
    p.(mem := p.mem + [[]])
  }

  ghost function PictureEntered<L>(p: Picture<L>, at: nat): (q: Picture<L>)
    requires IsRef(p.mem, TopRank(p), at)
    ensures at < |p.view.top| && p.view.top[at].value.Table?
    ensures q == Record(p.mem, p.ranks + [Child(p.mem, TopRank(p), at)],
                        Stack(p.view.outer + [Frame(p.view.top, at)], p.view.top[at].value.entries))
  {
    ShowsEntered(p.mem, p.ranks, p.view, at);
    Record(p.mem, p.ranks + [Child(p.mem, TopRank(p), at)],
           Stack(p.view.outer + [Frame(p.view.top, at)], p.view.top[at].value.entries))
  }

  ghost function PictureLeft<L>(p: Picture<L>): (q: Picture<L>)
    requires p.view.outer != []
    ensures q == Record(p.mem, p.ranks[..|p.view.outer|], Leave(p.view))
  {
    ShowsLeft(p.mem, p.ranks, p.view);
    Record(p.mem, p.ranks[..|p.view.outer|], Leave(p.view))
  }

  /** The items of the top mapping have the keys, and at those keys the kinds of value, that its picture shows. */
  lemma TopItems<L>(p: Picture<L>, key: string)
    ensures var items, es := p.mem[TopRank(p)], p.view.top;
            |items| == |es| && Position(items, key) == Find(es, key)
            && (Find(es, key) < |es| ==> (items[Find(es, key)].val.Ref? <==> es[Find(es, key)].value.Table?))
  {
    PositionIsFind(p.mem, TopRank(p), p.view.top, |p.view.top|, key);
    var i := Find(p.view.top, key);
    assert i < |p.view.top| ==> Shown(p.mem, TopRank(p), i) == p.view.top[i].value;
  }

  lemma OpenCases<L>(mode: Mode, es: Entries<L>, key: string)
    ensures Open(mode, es, key) ==
            if Reenters(mode, es, key) && es[Find(es, key)].value.Table? then (es, Find(es, key))
            else (Store(mode.multi, es, key, Node.Table([])), StoreAt(mode.multi, es, key))
  {
  }

  ghost predicate Created<L>(d: Dict<L>, heap: seq<Dict<L>>) {
    d.rank < |heap| && heap[d.rank] == d
  }

  /** Every mapping that another one refers to has been created. */
  ghost predicate Backed<L>(mem: Memory<L>, heap: seq<Dict<L>>) {
    forall i :: 0 <= i < |mem| ==> ItemsBacked(mem[i], heap)
  }

  ghost predicate ItemsBacked<L>(items: seq<Item<L>>, heap: seq<Dict<L>>) {
    forall j :: 0 <= j < |items| && items[j].val.Ref? ==> Created(items[j].val.dict, heap)
  }

  class Loader<L> {
    const mode: Mode
    var stack: seq<Dict<L>>
    ghost var heap: seq<Dict<L>>
    ghost var repr: set<Dict<L>>
    ghost var pic: Picture<L>

    ghost predicate Valid()
      reads this, repr
    {
      && |heap| == |pic.mem|
      && (forall i :: 0 <= i < |heap| ==> heap[i] in repr && heap[i].rank == i && heap[i].items == pic.mem[i])
      && Backed(pic.mem, heap)
      && |stack| == |pic.ranks| == |pic.view.outer| + 1
      && (forall k :: 0 <= k < |stack| ==> Created(stack[k], heap) && stack[k].rank == pic.ranks[k])
    }

    /** What the stack shows, as a value. */
    ghost function View(): Stack<L>
      reads this
    {
      pic.view
    }

    /** Everything a mapping holds. */
    ghost function Holding(d: Dict<L>): Entries<L>
      requires Valid() && Created(d, heap)
      reads this, repr
    {
      Content(pic.mem, d.rank)
    }

    /** With nothing open, the mapping on the stack holds what the stack shows. */
    lemma HoldingRoot()
      requires Valid() && |stack| == 1
      ensures Created(stack[0], heap) && Holding(stack[0]) == View().top
    {
      assert Fits(pic.mem, pic.ranks[0], pic.view.top, |pic.view.top|);
    }

    /** `stack = [mapper()]`. */
    constructor (mode: Mode)
      ensures Valid() && fresh(repr) && this.mode == mode && View() == Stack([], [])
    {
      var root := new Dict<L>(0);
      this.mode := mode;
      stack, heap, repr, pic := [root], [root], {root}, Record([[]], [0], Stack([], []));
    }

    /** `stack[-1][key] = value`, at the position where the mapper keeps the key. */
    method Put(key: string, val: Val<L>) returns (ghost at: nat)
      requires stack != []
      modifies stack[|stack| - 1]
      ensures var d := stack[|stack| - 1]; var old_ := old(d.items);
              && at == (if mode.multi then |old_| else Position(old_, key))
              && at <= |old_| && d.items == Stored(old_, at, Item(key, val))
    {
      var d := stack[|stack| - 1];
      var i := if mode.multi then |d.items| else Position(d.items, key);
      at := i;
      if i < |d.items| {
        d.items := d.items[i := Item(key, val)];
      } else {
        d.items := d.items + [Item(key, val)];
      }
    }

    /** Stores a leaf or a new mapping in the innermost open mapping. */
    method PutNew(key: string, val: Val<L>) returns (ghost at: nat)
      requires Valid() && IsNew(pic.mem, pic.ranks, val) && (val.Ref? ==> Created(val.dict, heap))
      modifies this, repr
      ensures Valid() && heap == old(heap) && repr == old(repr) && stack == old(stack)
      ensures at == StoreAt(mode.multi, old(View()).top, key)
      ensures View() == old(View()).(top := Store(mode.multi, old(View()).top, key, NewNode(val)))
      ensures at < |stack[|stack| - 1].items| && stack[|stack| - 1].items[at].val == val
    {
      ghost var top := stack[|stack| - 1];
      TopItems(pic, key);
      at := Put(key, val);
      assert ItemsBacked(top.items, heap);
      pic := PictureStored(pic, at, key, val);
    }

    /** A leaf under `key` of the innermost open mapping. */
    method SetLeaf(key: string, leaf: L)
      requires Valid()
      modifies this, repr
      ensures Valid() && heap == old(heap) && repr == old(repr) && stack == old(stack)
      ensures View() == StoreLeaf(mode, old(View()), key, leaf)
    {
      ghost var at := PutNew(key, Plain(leaf));
    }

    /** `mapper()`. */
    method New() returns (d: Dict<L>)
      requires Valid()
      modifies this
      ensures Valid() && repr == old(repr) + {d} && fresh(d) && stack == old(stack) && View() == old(View())
      ensures Created(d, heap) && IsNew(pic.mem, pic.ranks, Ref(d))
    {
      d := new Dict<L>(|heap|);
      assert forall i :: 0 <= i < |heap| ==> ItemsBacked(pic.mem[i], heap + [d]);
      heap, repr, pic := heap + [d], repr + {d}, PictureCreated(pic);
    }

    /** `stack[-1][key] = mapper()`. */
    method Create(key: string) returns (d: Dict<L>, ghost at: nat)
      requires Valid()
      modifies this, repr
      ensures Valid() && repr == old(repr) + {d} && fresh(d) && stack == old(stack)
      ensures at == StoreAt(mode.multi, old(View()).top, key)
      ensures View() == old(View()).(top := Store(mode.multi, old(View()).top, key, Node.Table([])))
      ensures at < |stack[|stack| - 1].items| && stack[|stack| - 1].items[at].val == Ref(d)
    {
      d := New();
      at := PutNew(key, Ref(d));
    }

    /** True when merging would re-enter a leaf under `key`. */
    method OnLeaf(key: string) returns (b: bool)
      requires Valid()
      ensures b == (Reenters(mode, View().top, key) && View().top[Find(View().top, key)].value.Leaf?)
    {
      var top := stack[|stack| - 1];
      TopItems(pic, key);
      var i := Position(top.items, key);
      b := mode.merge && i < |top.items| && top.items[i].val.Plain?;
    }

    /**
     The mapping that a key without a leaf leads to: an existing one when merging, otherwise a
     new one, which replaces a leaf found there.
     */
    method Table(key: string) returns (d: Dict<L>, ghost at: nat)
      requires Valid()
      modifies this, repr
      ensures Valid() && stack == old(stack)
      ensures repr <= old(repr) + {d} && fresh(repr - old(repr))
      ensures (View().top, at) == Open(mode, old(View()).top, key) && View().outer == old(View()).outer
      ensures at < |stack[|stack| - 1].items| && stack[|stack| - 1].items[at].val == Ref(d)
    {
      var top := stack[|stack| - 1];
      TopItems(pic, key);
      OpenCases(mode, pic.view.top, key);
      var i := Position(top.items, key);
      if mode.merge && i < |top.items| && top.items[i].val.Ref? {
        d, at := top.items[i].val.dict, i;
      } else {
        d, at := Create(key);
      }
    }

    /** `stack.append(d)`, for an item `d` of the innermost open mapping. */
    method Push(d: Dict<L>, ghost at: nat)
      requires Valid()
      requires at < |stack[|stack| - 1].items| && stack[|stack| - 1].items[at].val == Ref(d)
      modifies this
      ensures Valid() && repr == old(repr)
      ensures at < |old(View()).top| && old(View()).top[at].value.Table?
      ensures View() == Stack(old(View()).outer + [Frame(old(View()).top, at)], old(View()).top[at].value.entries)
    {
      assert IsRef(pic.mem, TopRank(pic), at);
      stack, pic := stack + [d], PictureEntered(pic, at);
    }

    /** `stack.pop()`. */
    method Pop()
      requires Valid() && |stack| > 1
      modifies this
      ensures Valid() && repr == old(repr)
      ensures View() == Leave(old(View()))
    {
      stack, pic := stack[..|stack| - 1], PictureLeft(pic);
    }
  }
}
