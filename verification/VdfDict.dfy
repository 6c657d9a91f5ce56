/**
 VDFDict: a dictionary with duplicate keys, kept as three structures: values under (index, key)
 names, the names in insertion order, and the number of names for each key. Every operation
 with string keys is shown to act on the ordered list of pairs that they stand for.
 */
module VdfDict {
  import opened Outcomes
  import opened OrderedPairs

  type Name = (int, string)

  function NameKeys(omap: seq<Name>): (ks: seq<string>)
    ensures |ks| == |omap| && forall p :: 0 <= p < |ks| ==> ks[p] == omap[p].1
  {
    seq(|omap|, p requires 0 <= p < |omap| => omap[p].1)
  }

  function IndexOf(omap: seq<Name>, name: Name): (p: nat)
    ensures p <= |omap| && (p < |omap| ==> omap[p] == name)
  {
    if omap == [] || omap[0] == name then 0 else 1 + IndexOf(omap[1..], name)
  }

  lemma {:induction false} IndexOfIs(omap: seq<Name>, name: Name, p: nat)
    requires p < |omap| && omap[p] == name && forall q :: 0 <= q < |omap| && omap[q] == name ==> q == p
    ensures IndexOf(omap, name) == p
  {
    if p > 0 {
      assert omap[0] != name;
      forall q | 0 <= q < |omap[1..]| && omap[1..][q] == name
        ensures q == p - 1
      {
        assert omap[q + 1] == name;
      }
      IndexOfIs(omap[1..], name, p - 1);
    }
  }

  ghost predicate NumberAt(omap: seq<Name>, ks: seq<string>, p: nat, shift: nat)
    requires |omap| == |ks| && p < |ks|
  {
    omap[p] == (Occurrences(ks, p, ks[p]) + shift, ks[p])
  }

  /** Numbers of equal keys count up in insertion order. */
  ghost predicate Numbered(omap: seq<Name>, ks: seq<string>)
    requires |omap| == |ks|
  {
    forall p :: 0 <= p < |omap| ==> NumberAt(omap, ks, p, 0)
  }

  lemma NumberedDistinct(omap: seq<Name>, ks: seq<string>, p: nat, q: nat)
    requires |omap| == |ks| && Numbered(omap, ks) && p < |omap| && q < |omap| && omap[p] == omap[q]
    ensures p == q
  {
    assert NumberAt(omap, ks, p, 0) && NumberAt(omap, ks, q, 0);
    if p < q {
      OccurrencesRise(ks, p, q, ks[p]);
    } else if q < p {
      OccurrencesRise(ks, q, p, ks[p]);
    }
  }

  /** The three structures agree: every key's names are numbered 0 .. count - 1. */
  ghost predicate Consistent<V>(dict: map<Name, V>, omap: seq<Name>, kcount: map<string, int>) {
    var ks := NameKeys(omap);
    Numbered(omap, ks) && NamesAgree(dict, ks) && CountsAgree(kcount, ks)
  }

  ghost predicate NamesAgree<V>(dict: map<Name, V>, ks: seq<string>) {
    forall i: int, k: string :: (i, k) in dict <==> 0 <= i < Count(ks, k)
  }

  ghost predicate CountsAgree(kcount: map<string, int>, ks: seq<string>) {
    forall k: string :: (k in kcount <==> Count(ks, k) > 0) && (k in kcount ==> kcount[k] == Count(ks, k))
  }

  /** What `has_duplicates` looks for: a key that is not counted once. */
  predicate SomeNotOnce(kcount: map<string, int>) {
    exists k | k in kcount :: kcount[k] != 1
  }

  /** Counts that agree with the keys tell exactly whether a key is repeated. */
  lemma CountsTellRepeats(kcount: map<string, int>, ks: seq<string>)
    requires CountsAgree(kcount, ks)
    ensures SomeNotOnce(kcount) <==> Repeats(ks)
  {
    RepeatsIsCounted(ks);
    if Repeats(ks) {
      var k :| Count(ks, k) > 1;
      assert k in kcount;
    }
  }

  ghost predicate AllNamed<V>(dict: map<Name, V>, omap: seq<Name>) {
    forall p :: 0 <= p < |omap| ==> omap[p] in dict
  }

  function Values<V>(ps: Pairs<V>): (vs: seq<V>)
    ensures |vs| == |ps| && forall p :: 0 <= p < |vs| ==> vs[p] == ps[p].1
  {
    seq(|ps|, p requires 0 <= p < |ps| => ps[p].1)
  }

  ghost function PairsOf<V>(dict: map<Name, V>, omap: seq<Name>): (ps: Pairs<V>)
    requires AllNamed(dict, omap)
    ensures |ps| == |omap| && Keys(ps) == NameKeys(omap)
    ensures forall p :: 0 <= p < |ps| ==> ps[p] == (omap[p].1, dict[omap[p]])
  {
    var ps := seq(|omap|, p requires 0 <= p < |omap| && AllNamed(dict, omap) => (omap[p].1, dict[omap[p]]));
    assert Keys(ps) == NameKeys(omap);
    ps
  }

  /** A name is present exactly when its pair exists, and is then at that pair's position. */
  lemma NameAt<V>(dict: map<Name, V>, omap: seq<Name>, kcount: map<string, int>, name: Name)
    requires Consistent(dict, omap, kcount)
    ensures var p := Nth(NameKeys(omap), name.0, name.1);
            && (name in dict <==> p < |omap|)
            && (p < |omap| ==> omap[p] == name && IndexOf(omap, name) == p)
  {
    var ks := NameKeys(omap);
    NthIs(ks, name.0, name.1);
    var p := Nth(ks, name.0, name.1);
    if p < |omap| {
      assert NumberAt(omap, ks, p, 0);
      forall q | 0 <= q < |omap| && omap[q] == name
        ensures q == p
      {
        NumberedDistinct(omap, ks, p, q);
      }
      IndexOfIs(omap, name, p);
    }
  }

  lemma CountAppended(ks: seq<string>, key: string, k: string)
    ensures Count(ks + [key], k) == Count(ks, k) + if k == key then 1 else 0
  {
    OccurrencesSame(ks, ks + [key], |ks|, k);
  }

  lemma NumberedAppended(omap: seq<Name>, ks: seq<string>, key: string)
    requires |omap| == |ks| && Numbered(omap, ks)
    ensures Numbered(omap + [(Count(ks, key), key)], ks + [key])
  {
    forall p | 0 <= p < |ks + [key]|
      ensures NumberAt(omap + [(Count(ks, key), key)], ks + [key], p, 0)
    {
      assert p < |ks| ==> NumberAt(omap, ks, p, 0);
      OccurrencesSame(ks, ks + [key], p, (ks + [key])[p]);
    }
  }

  lemma NamesAppended<V>(dict: map<Name, V>, ks: seq<string>, key: string, value: V)
    requires NamesAgree(dict, ks)
    ensures NamesAgree(dict[(Count(ks, key), key) := value], ks + [key])
  {
    forall i: int, k: string
      ensures (i, k) in dict[(Count(ks, key), key) := value] <==> 0 <= i < Count(ks + [key], k)
    {
      CountAppended(ks, key, k);
    }
  }

  lemma CountsAppended(kcount: map<string, int>, ks: seq<string>, key: string)
    requires CountsAgree(kcount, ks)
    ensures CountsAgree(kcount[key := Count(ks, key) + 1], ks + [key])
  {
    forall k: string
      ensures Count(ks + [key], k) == Count(ks, k) + if k == key then 1 else 0
    {
      CountAppended(ks, key, k);
    }
  }

  lemma PairsAppended<V>(dict: map<Name, V>, omap: seq<Name>, name: Name, value: V)
    requires AllNamed(dict, omap) && name !in dict
    ensures AllNamed(dict[name := value], omap + [name])
    ensures PairsOf(dict[name := value], omap + [name]) == PairsOf(dict, omap) + [(name.1, value)]
  {
  }

  // ---------- renumbering after a deletion ----------

  ghost predicate ShiftAt(omap: seq<Name>, ks: seq<string>, key: string, idx: nat, p: nat)
    requires |omap| == |ks| && p < |ks|
  {
    omap[p] == (Occurrences(ks, p, ks[p]) + if p >= idx && ks[p] == key then 1 else 0, ks[p])
  }

  /** Numbers while a deletion renumbers: the names of `key` from position `idx` on are still one too high. */
  ghost predicate Shifted(omap: seq<Name>, ks: seq<string>, key: string, idx: nat) {
    |omap| == |ks| && forall p :: 0 <= p < |ks| ==> ShiftAt(omap, ks, key, idx, p)
  }

  /** Names while a deletion renumbers: one more of `key` than remain, and `hole` is free. */
  ghost predicate Holed<V>(dict: map<Name, V>, ks: seq<string>, key: string, hole: int) {
    forall i: int, k: string ::
      (i, k) in dict <==> if k == key then 0 <= i <= Count(ks, key) && i != hole else 0 <= i < Count(ks, k)
  }

  ghost predicate Valued<V>(dict: map<Name, V>, omap: seq<Name>, vals: seq<V>) {
    |omap| == |vals| && forall p :: 0 <= p < |omap| ==> omap[p] in dict && dict[omap[p]] == vals[p]
  }

  lemma ShiftStartAt(omap: seq<Name>, ks: seq<string>, s: nat, p: nat)
    requires |omap| == |ks| && Numbered(omap, ks) && s < |omap| && p < |omap| - 1
    ensures ShiftAt(RemoveAt(omap, s), RemoveAt(ks, s), ks[s], s, p)
  {
    var ks', q := RemoveAt(ks, s), if p < s then p else p + 1;
    assert NumberAt(omap, ks, q, 0);
    if p < s {
      OccurrencesSame(ks, ks', p, ks'[p]);
    } else {
      AfterRemoved(ks, s, q, ks'[p]);
    }
  }

  lemma ShiftStart(omap: seq<Name>, ks: seq<string>, s: nat)
    requires |omap| == |ks| && Numbered(omap, ks) && s < |omap|
    ensures omap[s] == (Occurrences(RemoveAt(ks, s), s, ks[s]), ks[s])
    ensures Shifted(RemoveAt(omap, s), RemoveAt(ks, s), ks[s], s)
  {
    var omap', ks', key := RemoveAt(omap, s), RemoveAt(ks, s), ks[s];
    assert NumberAt(omap, ks, s, 0);
    OccurrencesSame(ks, ks', s, key);
    forall p | 0 <= p < |ks'|
      ensures ShiftAt(omap', ks', key, s, p)
    {
      ShiftStartAt(omap, ks, s, p);
    }
  }

  lemma HoleStart<V>(dict: map<Name, V>, ks: seq<string>, s: nat)
    requires NamesAgree(dict, ks) && s < |ks|
    ensures Holed(dict - {(Occurrences(ks, s, ks[s]), ks[s])}, RemoveAt(ks, s), ks[s], Occurrences(ks, s, ks[s]))
  {
    OccurrencesRise(ks, s, |ks|, ks[s]);
    forall k: string
      ensures Count(RemoveAt(ks, s), k) == Count(ks, k) - if k == ks[s] then 1 else 0
    {
      CountRemoved(ks, s, k);
    }
  }

  lemma ValuedStart<V>(dict: map<Name, V>, omap: seq<Name>, ks: seq<string>, vals: seq<V>, s: nat)
    requires Valued(dict, omap, vals) && |omap| == |ks| && Numbered(omap, ks) && s < |omap|
    ensures Valued(dict - {omap[s]}, RemoveAt(omap, s), RemoveAt(vals, s))
  {
    var omap' := RemoveAt(omap, s);
    forall p | 0 <= p < |omap'|
      ensures omap'[p] in dict - {omap[s]} && dict[omap'[p]] == RemoveAt(vals, s)[p]
    {
      var q := if p < s then p else p + 1;
      assert omap'[p] == omap[q];
      if omap[q] == omap[s] {
        NumberedDistinct(omap, ks, s, q);
      }
    }
  }

  /** What a deletion leaves before it renumbers. */
  lemma RemoveStart<V>(dict: map<Name, V>, omap: seq<Name>, kcount: map<string, int>, name: Name, s: nat)
    requires Consistent(dict, omap, kcount) && AllNamed(dict, omap) && s < |omap| && omap[s] == name
    ensures var ks, vals := RemoveAt(NameKeys(omap), s), RemoveAt(Values(PairsOf(dict, omap)), s);
            && Shifted(RemoveAt(omap, s), ks, name.1, s) && name.0 == Occurrences(ks, s, name.1)
            && Holed(dict - {name}, ks, name.1, name.0) && Valued(dict - {name}, RemoveAt(omap, s), vals)
  {
    var ks := NameKeys(omap);
    ShiftStart(omap, ks, s);
    assert NumberAt(omap, ks, s, 0);
    HoleStart(dict, ks, s);
    ValuedStart(dict, omap, ks, Values(PairsOf(dict, omap)), s);
  }

  lemma PairsRemoved<V>(ps: Pairs<V>, dict: map<Name, V>, omap: seq<Name>, s: nat)
    requires s < |ps| && NameKeys(omap) == RemoveAt(Keys(ps), s) && Valued(dict, omap, RemoveAt(Values(ps), s))
    ensures AllNamed(dict, omap) && PairsOf(dict, omap) == RemoveAt(ps, s)
  {
  }

  lemma ShiftedDistinct(omap: seq<Name>, ks: seq<string>, key: string, idx: nat, p: nat, q: nat)
    requires Shifted(omap, ks, key, idx) && p < q < |omap|
    ensures omap[p] != omap[q]
  {
    assert ShiftAt(omap, ks, key, idx, p) && ShiftAt(omap, ks, key, idx, q);
    OccurrencesRise(ks, p, q, ks[p]);
  }

  lemma ShiftStep(omap: seq<Name>, ks: seq<string>, key: string, idx: nat)
    requires Shifted(omap, ks, key, idx) && idx < |omap|
    ensures omap[idx].1 == ks[idx]
    ensures var hole := Occurrences(ks, idx, key);
            if ks[idx] == key then
              && omap[idx] == (hole + 1, key) && Occurrences(ks, idx + 1, key) == hole + 1 <= Count(ks, key)
              && Shifted(omap[idx := (hole, key)], ks, key, idx + 1)
            else Occurrences(ks, idx + 1, key) == hole && Shifted(omap, ks, key, idx + 1)
  {
    var omap' := if ks[idx] == key then omap[idx := (Occurrences(ks, idx, key), key)] else omap;
    var next := idx + 1;
    assert ShiftAt(omap, ks, key, idx, idx);
    OccurrencesRise(ks, next, |ks|, key);
    forall p | 0 <= p < |ks|
      ensures ShiftAt(omap', ks, key, next, p)
    {
      assert ShiftAt(omap, ks, key, idx, p);
    }
  }

  lemma HoleStep<V>(dict: map<Name, V>, ks: seq<string>, key: string, hole: int, v: V)
    requires Holed(dict, ks, key, hole) && 0 <= hole < Count(ks, key)
    ensures (hole, key) !in dict
    ensures Holed(dict[(hole, key) := v] - {(hole + 1, key)}, ks, key, hole + 1)
  {
  }

  lemma ValuedStep<V>(dict: map<Name, V>, omap: seq<Name>, ks: seq<string>, vals: seq<V>, key: string, idx: nat,
                      name: Name)
    requires Valued(dict, omap, vals) && Shifted(omap, ks, key, idx) && idx < |omap| && name !in dict
    ensures Valued(dict[name := dict[omap[idx]]] - {omap[idx]}, omap[idx := name], vals)
  {
    forall p | 0 <= p < |omap| && p != idx
      ensures omap[p] != omap[idx]
    {
      ShiftedDistinct(omap, ks, key, idx, if p < idx then p else idx, if p < idx then idx else p);
    }
  }

  lemma ShiftDone(omap: seq<Name>, ks: seq<string>, key: string, idx: nat)
    requires Shifted(omap, ks, key, idx) && idx <= |ks|
    requires idx == |ks| || Occurrences(ks, idx, key) == Count(ks, key)
    ensures NameKeys(omap) == ks && Numbered(omap, ks)
  {
    forall p | 0 <= p < |ks|
      ensures NumberAt(omap, ks, p, 0)
    {
      assert ShiftAt(omap, ks, key, idx, p);
      if p >= idx && ks[p] == key {
        OccurrencesRise(ks, idx, p, key);
        OccurrencesRise(ks, p, |ks|, key);
      }
    }
    assert forall p :: 0 <= p < |ks| ==> NumberAt(omap, ks, p, 0) && omap[p].1 == ks[p];
  }

  lemma CountsLowered(kcount: map<string, int>, ks: seq<string>, s: nat)
    requires CountsAgree(kcount, ks) && s < |ks|
    ensures ks[s] in kcount
    ensures var n := kcount[ks[s]] - 1;
            n == Count(RemoveAt(ks, s), ks[s])
            && CountsAgree(if n == 0 then kcount - {ks[s]} else kcount[ks[s] := n], RemoveAt(ks, s))
  {
    OccurrencesRise(ks, s, |ks|, ks[s]);
    forall k: string
      ensures Count(RemoveAt(ks, s), k) == Count(ks, k) - if k == ks[s] then 1 else 0
    {
      CountRemoved(ks, s, k);
    }
  }

  // ---------- removing a key altogether ----------

  lemma NumberedPrefix(omap: seq<Name>, ks: seq<string>, n: nat)
    requires |omap| == |ks| && Numbered(omap, ks) && n <= |omap|
    ensures Numbered(omap[..n], ks[..n])
  {
    forall p | 0 <= p < n
      ensures NumberAt(omap[..n], ks[..n], p, 0)
    {
      assert NumberAt(omap, ks, p, 0);
      OccurrencesSame(ks, ks[..n], p, ks[p]);
    }
  }

  lemma {:induction false} NumberedWithout(omap: seq<Name>, ks: seq<string>, key: string)
    requires |omap| == |ks| && Numbered(omap, ks)
    ensures |Without(omap, ks, key)| == |Without(ks, ks, key)|
    ensures Numbered(Without(omap, ks, key), Without(ks, ks, key))
  {
    if omap == [] {
    } else {
      var n := |omap| - 1;
      NumberedPrefix(omap, ks, n);
      NumberedWithout(omap[..n], ks[..n], key);
      var om, rest := Without(omap[..n], ks[..n], key), Without(ks[..n], ks[..n], key);
      if ks[n] != key {
        assert NumberAt(omap, ks, n, 0);
        WithoutCount(ks[..n], key, ks[n]);
        OccurrencesSame(ks, ks[..n], n, ks[n]);
        NumberedAppended(om, rest, ks[n]);
      }
    }
  }

  lemma {:induction false} KeysWithout(omap: seq<Name>, key: string)
    ensures NameKeys(Without(omap, NameKeys(omap), key)) == Without(NameKeys(omap), NameKeys(omap), key)
  {
    if omap == [] {
    } else {
      var n := |omap| - 1;
      assert NameKeys(omap[..n]) == NameKeys(omap)[..n];
      KeysWithout(omap[..n], key);
    }
  }

  lemma {:induction false} PairsWithout<V>(dict: map<Name, V>, dict': map<Name, V>, omap: seq<Name>, key: string)
    requires AllNamed(dict, omap)
    requires forall x: Name :: x in dict && x.1 != key ==> x in dict' && dict'[x] == dict[x]
    ensures AllNamed(dict', Without(omap, NameKeys(omap), key))
    ensures PairsOf(dict', Without(omap, NameKeys(omap), key)) == Without(PairsOf(dict, omap), NameKeys(omap), key)
  {
    if omap == [] {
    } else {
      var n := |omap| - 1;
      var ks, rest := NameKeys(omap), Without(omap[..n], NameKeys(omap[..n]), key);
      assert omap[n] in dict;
      assert NameKeys(omap[..n]) == ks[..n];
      assert PairsOf(dict, omap[..n]) == PairsOf(dict, omap)[..n];
      PairsWithout(dict, dict', omap[..n], key);
      if ks[n] != key {
        assert PairsOf(dict', rest + [omap[n]]) == PairsOf(dict', rest) + [(omap[n].1, dict[omap[n]])];
      }
    }
  }

  lemma ConsistentWithout<V>(dict: map<Name, V>, dict': map<Name, V>, omap: seq<Name>, kcount: map<string, int>,
                             key: string)
    requires Consistent(dict, omap, kcount)
    requires forall i: int, k: string :: (i, k) in dict' <==> k != key && 0 <= i < Count(NameKeys(omap), k)
    ensures Consistent(dict', Without(omap, NameKeys(omap), key), kcount - {key})
  {
    var ks := NameKeys(omap);
    NumberedWithout(omap, ks, key);
    KeysWithout(omap, key);
    forall k: string
      ensures Count(Without(ks, ks, key), k) == if k == key then 0 else Count(ks, k)
    {
      WithoutCount(ks, key, k);
    }
  }

  class VDFDict<V> {
    var dict: map<Name, V>
    var omap: seq<Name>
    var kcount: map<string, int>

    ghost predicate Valid()
      reads this
    {
      Consistent(dict, omap, kcount) && AllNamed(dict, omap)
    }

    /** The pairs that the dictionary stands for, in insertion order. */
    ghost function Items(): Pairs<V>
      requires Valid()
      reads this
    {
      PairsOf(dict, omap)
    }

    constructor (data: Option<seq<(string, V)>>)
      ensures Valid() && Items() == if data.Some? then data.value else []
    {
      dict, omap, kcount := map[], [], map[];
      new;
      if data.Some? {
        Update(data.value);
      }
    }

    /** `self.__kcount[key]`, 0 when missing. */
    function KeyCount(key: string): int
      reads this
    {
      if key in kcount then kcount[key] else 0
    }

    /** `d[key] = value` with a string key adds a pair, duplicate or not. */
    method Set(key: string, value: V)
      requires Valid()
      modifies this
      ensures Valid() && Items() == old(Items()) + [(key, value)]
    {
      ghost var ks := NameKeys(omap);
      NumberedAppended(omap, ks, key);
      NamesAppended(dict, ks, key, value);
      CountsAppended(kcount, ks, key);
      var n := KeyCount(key);
      PairsAppended(dict, omap, (n, key), value);
      assert NameKeys(omap + [(n, key)]) == ks + [key];
      omap := omap + [(n, key)];
      dict := dict[(n, key) := value];
      kcount := kcount[key := n + 1];
    }

    /** `d[(i, key)]` and `d[key]`, which is `d[(0, key)]`; None is the KeyError. */
    method Get(i: int, key: string) returns (r: Option<V>)
      requires Valid()
      ensures r == Lookup(Items(), i, key)
    {
      NameAt(dict, omap, kcount, (i, key));
      r := if (i, key) in dict then Some(dict[(i, key)]) else None;
    }

    /** `del d[(i, key)]`: false is the KeyError. */
    method Remove(i: int, key: string) returns (ok: bool)
      requires Valid()
      modifies this
      ensures Valid() && Items() == Delete(old(Items()), i, key)
      ensures ok <==> 0 <= i < Count(Keys(old(Items())), key)
    {
      ghost var ks, ps := NameKeys(omap), Items();
      NameAt(dict, omap, kcount, (i, key));
      NthIs(ks, i, key);
      if (i, key) !in dict {
        return false;
      }
      var start := IndexOf(omap, (i, key));
      RemoveStart(dict, omap, kcount, (i, key), start);
      CountsLowered(kcount, ks, start);
      dict := dict - {(i, key)};
      omap := RemoveAt(omap, start);
      var n := kcount[key] - 1;
      kcount := if n == 0 then kcount - {key} else kcount[key := n];
      Renumber(key, i, start, n - i, RemoveAt(ks, start), RemoveAt(Values(ps), start));
      PairsRemoved(ps, dict, omap, start);
      return true;
    }

    /** Moves the names of `key` from position `start` on down by one. */
    method Renumber(key: string, dup: int, start: nat, count: int, ghost ks: seq<string>, ghost vals: seq<V>)
      requires start <= |ks| && Shifted(omap, ks, key, start) && dup == Occurrences(ks, start, key)
      requires Holed(dict, ks, key, dup) && Valued(dict, omap, vals) && count == Count(ks, key) - dup
      modifies this`dict, this`omap
      ensures |omap| == |ks| && NameKeys(omap) == ks && Numbered(omap, ks) && NamesAgree(dict, ks)
      ensures Valued(dict, omap, vals)
    {
      var dupIdx, tail, idx := dup, count, start;
      while idx < |omap| && tail > 0
        invariant start <= idx <= |ks| && Shifted(omap, ks, key, idx) && dupIdx == Occurrences(ks, idx, key)
        invariant Holed(dict, ks, key, dupIdx) && Valued(dict, omap, vals) && tail == Count(ks, key) - dupIdx
      {
        ShiftStep(omap, ks, key, idx);
        if omap[idx].1 == key {
          var oldKey, newKey := omap[idx], (dupIdx, key);
          HoleStep(dict, ks, key, dupIdx, dict[oldKey]);
          ValuedStep(dict, omap, ks, vals, key, idx, newKey);
          dict := dict[newKey := dict[oldKey]] - {oldKey};
          omap := omap[idx := newKey];
          dupIdx := dupIdx + 1;
          tail := tail - 1;
        }
        idx := idx + 1;
      }
      OccurrencesRise(ks, idx, |ks|, key);
      ShiftDone(omap, ks, key, idx);
    }

    /** `(i, key) in d`. */
    method Contains(i: int, key: string) returns (b: bool)
      requires Valid()
      ensures b <==> 0 <= i < Count(Keys(Items()), key)
    {
      b := (i, key) in dict;
    }

    method SetDefault(key: string, value: V) returns (v: V)
      requires Valid()
      modifies this
      ensures Valid()
      ensures match Lookup(old(Items()), 0, key)
              case Some(w) => v == w && Items() == old(Items())
              case None => v == value && Items() == old(Items()) + [(key, value)]
    {
      var present := Get(0, key);
      if present.None? {
        LookupAfterAppend(Items(), key, value, 0, key);
        NthIs(Keys(Items()), 0, key);
        Set(key, value);
      }
      var r := Get(0, key);
      v := r.value;
    }

    /** `pop`: the value is returned and its pair deleted; None is the KeyError. */
    method Pop(i: int, key: string) returns (r: Option<V>)
      requires Valid()
      modifies this
      ensures Valid() && r == Lookup(old(Items()), i, key) && Items() == Delete(old(Items()), i, key)
    {
      r := Get(i, key);
      if r.Some? {
        var ok := Remove(i, key);
      }
    }

    /** `popitem` takes the last pair, whatever duplicates its key has; None is the KeyError of an empty dictionary. */
    method PopItem() returns (r: Option<(string, V)>)
      requires Valid()
      modifies this
      ensures Valid()
      ensures if old(Items()) == [] then r == None && Items() == []
              else var n := |old(Items())| - 1; r == Some(old(Items())[n]) && Items() == old(Items())[..n]
    {
      if omap == [] {
        return None;
      }
      ghost var ps, n := Items(), |omap| - 1;
      var name := omap[|omap| - 1];
      assert NumberAt(omap, NameKeys(omap), n, 0);
      NthUnique(NameKeys(omap), n, name.0, name.1);
      var v := Pop(name.0, name.1);
      assert RemoveAt(ps, n) == ps[..n];
      return Some((name.1, v.value));
    }

    method Update(data: seq<(string, V)>)
      requires Valid()
      modifies this
      ensures Valid() && Items() == old(Items()) + data
    {
      for n := 0 to |data|
        invariant Valid() && Items() == old(Items()) + data[..n]
      {
        Set(data[n].0, data[n].1);
        assert data[..n + 1] == data[..n] + [data[n]];
      }
      assert data[..|data|] == data;
    }

    method Clear()
      modifies this
      ensures Valid() && Items() == []
    {
      dict, kcount, omap := map[], map[], [];
    }

    method GetAllFor(key: string) returns (vs: seq<V>)
      requires Valid()
      ensures vs == ValuesFor(Items(), key)
    {
      ghost var all := ValuesFor(Items(), key);
      ValuesForCount(Items(), key);
      vs := [];
      for i := 0 to KeyCount(key)
        invariant vs == all[..i] && KeyCount(key) == |all|
      {
        ValuesForIs(Items(), key, i);
        var v := Get(i, key);
        vs := vs + [v.value];
      }
    }

    method RemoveAllFor(key: string)
      requires Valid()
      modifies this
      ensures Valid() && Items() == Without(old(Items()), Keys(old(Items())), key)
    {
      ghost var dict0, ks := dict, NameKeys(omap);
      for i := 0 to KeyCount(key)
        invariant omap == old(omap) && kcount == old(kcount)
        invariant forall j: int, k: string :: (j, k) in dict <==> (if k == key then i else 0) <= j < Count(ks, k)
        invariant forall x: Name :: x in dict ==> x in dict0 && dict[x] == dict0[x]
      {
        dict := dict - {(i, key)};
      }
      assert forall x: Name :: x in dict0 && x.1 != key ==> (x.0, x.1) in dict;
      PairsWithout(dict0, dict, omap, key);
      ConsistentWithout(dict0, dict, omap, kcount, key);
      omap := Without(omap, NameKeys(omap), key);
      kcount := kcount - {key};
    }

    /**
     `d[(i, key)] = value` replaces the value of an existing pair but counts it as one more:
     the counts agree with the pairs afterwards exactly when nothing was replaced.
     */
    method SetAt(i: int, key: string, value: V) returns (ok: bool)
      requires Valid()
      modifies this
      ensures ok <==> 0 <= i < Count(Keys(old(Items())), key)
      ensures AllNamed(dict, omap) && PairsOf(dict, omap) == Replace(old(Items()), i, key, value)
      ensures Valid() <==> !ok
      ensures ok ==> SomeNotOnce(kcount)
    {
      NameAt(dict, omap, kcount, (i, key));
      ok := (i, key) in dict;
      NthIs(NameKeys(omap), i, key);
      if ok {
        ghost var ks, p := NameKeys(omap), Nth(NameKeys(omap), i, key);
        forall q | 0 <= q < |omap| && q != p
          ensures omap[q] != omap[p]
        {
          if omap[q] == omap[p] {
            NumberedDistinct(omap, ks, p, q);
          }
        }
        dict := dict[(i, key) := value];
        kcount := kcount[key := KeyCount(key) + 1];
        assert kcount[key] == Count(ks, key) + 1 > 1;
      }
    }

    /** The first loop of `has_duplicates`. */
    method RepeatsKeys() returns (b: bool)
      requires Valid()
      ensures b <==> Repeats(Keys(Items()))
    {
      CountsTellRepeats(kcount, NameKeys(omap));
      b := SomeNotOnce(kcount);
    }

    method ApplyChange(change: Change<V>)
      requires Valid()
      modifies this
      ensures Valid() && Items() == Changed(old(Items()), change)
    {
      match change {
        case Add(key, v) => Set(key, v);
        case AddMissing(key, v) => var w := SetDefault(key, v);
        case AddAll(data) => Update(data);
        case Remove(i, key) => var ok := Remove(i, key);
        case RemoveLast => var last := PopItem();
        case RemoveKey(key) => RemoveAllFor(key);
        case Clear => Clear();
      }
    }

    /** Any history of string-key changes acts on the ordered pairs alone. */
    method Replay(changes: seq<Change<V>>)
      requires Valid()
      modifies this
      ensures Valid() && Items() == AfterAll(old(Items()), changes)
    {
      for n := 0 to |changes|
        invariant Valid() && Items() == AfterAll(old(Items()), changes[..n])
      {
        assert changes[..n + 1][..n] == changes[..n];
        ApplyChange(changes[n]);
      }
      assert changes[..|changes|] == changes;
    }
  }
}
