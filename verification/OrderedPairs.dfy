/**
 The reference for VDFDict: an ordered list of (key, value) pairs in which `(i, key)` names
 the i-th pair with that key.
 */
module OrderedPairs {
  import opened Outcomes

  type Pairs<V> = seq<(string, V)>

  function Keys<V>(ps: Pairs<V>): (ks: seq<string>)
    ensures |ks| == |ps| && forall p :: 0 <= p < |ks| ==> ks[p] == ps[p].0
  {
    seq(|ps|, p requires 0 <= p < |ps| => ps[p].0)
  }

  /** How many of the first `p` keys are `key`. */
  function Occurrences(ks: seq<string>, p: nat, key: string): nat
    requires p <= |ks|
  {
    if p == 0 then 0 else Occurrences(ks, p - 1, key) + if ks[p - 1] == key then 1 else 0
  }

  function Count(ks: seq<string>, key: string): nat {
    Occurrences(ks, |ks|, key)
  }

  predicate Repeats(keys: seq<string>) {
    exists i, j :: 0 <= i < j < |keys| && keys[i] == keys[j]
  }

  /** The position of the i-th `key`, or the length. */
  function Nth(ks: seq<string>, i: int, key: string): (p: nat)
    ensures p <= |ks|
  {
    if ks == [] then 0
    else if ks[0] == key && i == 0 then 0
    else 1 + Nth(ks[1..], if ks[0] == key then i - 1 else i, key)
  }

  function Lookup<V>(ps: Pairs<V>, i: int, key: string): Option<V> {
    var p := Nth(Keys(ps), i, key);
    if p < |ps| then Some(ps[p].1) else None
  }

  function RemoveAt<T>(s: seq<T>, p: nat): (r: seq<T>)
    requires p < |s|
    ensures |r| == |s| - 1
    ensures forall q :: 0 <= q < |r| ==> r[q] == s[if q < p then q else q + 1]
  {
    s[..p] + s[p + 1..]
  }

  function Delete<V>(ps: Pairs<V>, i: int, key: string): Pairs<V> {
    var p := Nth(Keys(ps), i, key);
    if p < |ps| then RemoveAt(ps, p) else ps
  }

  function Replace<V>(ps: Pairs<V>, i: int, key: string, v: V): Pairs<V> {
    var p := Nth(Keys(ps), i, key);
    if p < |ps| then ps[p := (key, v)] else ps
  }

  function ValuesFor<V>(ps: Pairs<V>, key: string): seq<V> {
    if ps == [] then []
    else (if ps[0].0 == key then [ps[0].1] else []) + ValuesFor(ps[1..], key)
  }

  /** The elements whose key is not `key`, in order. */
  function Without<T>(s: seq<T>, ks: seq<string>, key: string): seq<T>
    requires |s| == |ks|
  {
    if s == [] then []
    else
      var n := |s| - 1;
      if ks[n] == key then Without(s[..n], ks[..n], key) else Without(s[..n], ks[..n], key) + [s[n]]
  }

  // ---------- histories ----------

  /** The changes a dictionary goes through, string keys only. */
  datatype Change<V> =
    | Add(key: string, value: V)
    | AddMissing(key: string, value: V)
    | AddAll(data: Pairs<V>)
    | Remove(i: int, key: string)
    | RemoveLast
    | RemoveKey(key: string)
    | Clear

  function Changed<V>(ps: Pairs<V>, c: Change<V>): Pairs<V> {
    match c
    case Add(key, v) => ps + [(key, v)]
    case AddMissing(key, v) => if Lookup(ps, 0, key).None? then ps + [(key, v)] else ps
    case AddAll(data) => ps + data
    case Remove(i, key) => Delete(ps, i, key)
    case RemoveLast => if ps == [] then [] else ps[..|ps| - 1]
    case RemoveKey(key) => Without(ps, Keys(ps), key)
    case Clear => []
  }

  function AfterAll<V>(ps: Pairs<V>, cs: seq<Change<V>>): Pairs<V> {
    if cs == [] then ps else Changed(AfterAll(ps, cs[..|cs| - 1]), cs[|cs| - 1])
  }

  // ---------- counting ----------

  lemma {:induction false} OccurrencesRise(ks: seq<string>, p: nat, q: nat, key: string)
    requires p <= q <= |ks|
    ensures Occurrences(ks, p, key) <= Occurrences(ks, q, key)
    ensures p < q && ks[p] == key ==> Occurrences(ks, p, key) < Occurrences(ks, q, key)
    decreases q - p
  {
    if p < q {
      OccurrencesRise(ks, p, q - 1, key);
    }
  }

  lemma {:induction false} OccurrencesSame(ks: seq<string>, ks': seq<string>, p: nat, key: string)
    requires p <= |ks| && p <= |ks'| && ks[..p] == ks'[..p]
    ensures Occurrences(ks, p, key) == Occurrences(ks', p, key)
  {
    if p > 0 {
      assert ks[p - 1] == ks[..p][p - 1] == ks'[..p][p - 1] == ks'[p - 1];
      assert ks[..p - 1] == ks[..p][..p - 1] == ks'[..p][..p - 1] == ks'[..p - 1];
      OccurrencesSame(ks, ks', p - 1, key);
    }
  }

  lemma {:induction false} OccurrencesFront(ks: seq<string>, p: nat, key: string)
    requires 0 < p <= |ks|
    ensures Occurrences(ks, p, key) == Occurrences(ks[1..], p - 1, key) + if ks[0] == key then 1 else 0
  {
    if p > 1 {
      OccurrencesFront(ks, p - 1, key);
    }
  }

  /** The i-th `key` is the one with i of them before it; there is one exactly for each i below the count. */
  lemma {:induction false} NthIs(ks: seq<string>, i: int, key: string)
    ensures var p := Nth(ks, i, key);
            if 0 <= i < Count(ks, key) then p < |ks| && ks[p] == key && Occurrences(ks, p, key) == i else p == |ks|
  {
    if ks == [] {
    } else {
      OccurrencesFront(ks, |ks|, key);
      if ks[0] == key && i == 0 {
      } else {
        var j := if ks[0] == key then i - 1 else i;
        NthIs(ks[1..], j, key);
        var p := Nth(ks, i, key);
        if p < |ks| {
          OccurrencesFront(ks, p, key);
        }
      }
    }
  }

  lemma NthUnique(ks: seq<string>, p: nat, i: int, key: string)
    requires p < |ks| && ks[p] == key && Occurrences(ks, p, key) == i
    ensures Nth(ks, i, key) == p
  {
    OccurrencesRise(ks, p, |ks|, key);
    NthIs(ks, i, key);
    var q := Nth(ks, i, key);
    if q < p {
      OccurrencesRise(ks, q, p, key);
    } else if p < q {
      OccurrencesRise(ks, p, q, key);
    }
  }

  /** Removing the pair at `s` lowers the later numbers of its key by one and no others. */
  lemma {:induction false} OccurrencesRemoved(ks: seq<string>, s: nat, p: nat, key: string)
    requires s < |ks| && p < |ks|
    ensures Occurrences(RemoveAt(ks, s), p, key) ==
            if p <= s then Occurrences(ks, p, key)
            else Occurrences(ks, p + 1, key) - if ks[s] == key then 1 else 0
  {
    if p <= s {
      OccurrencesSame(ks, RemoveAt(ks, s), p, key);
    } else {
      OccurrencesRemoved(ks, s, p - 1, key);
    }
  }

  lemma RepeatsIsCounted(ks: seq<string>)
    ensures Repeats(ks) <==> exists key :: Count(ks, key) > 1
  {
    if key :| Count(ks, key) > 1 {
      NthIs(ks, 0, key);
      NthIs(ks, 1, key);
      var p, q := Nth(ks, 0, key), Nth(ks, 1, key);
      assert p < q || q < p;
    }
    if Repeats(ks) {
      var i, j :| 0 <= i < j < |ks| && ks[i] == ks[j];
      OccurrencesRise(ks, i, j, ks[i]);
      OccurrencesRise(ks, j, |ks|, ks[i]);
      assert Count(ks, ks[i]) > 1;
    }
  }

  // ---------- what deleting and appending do to lookups ----------

  lemma KeysRemoved<V>(ps: Pairs<V>, p: nat)
    requires p < |ps|
    ensures Keys(RemoveAt(ps, p)) == RemoveAt(Keys(ps), p)
  {
  }

  lemma CountRemoved(ks: seq<string>, s: nat, key: string)
    requires s < |ks|
    ensures Count(RemoveAt(ks, s), key) == Count(ks, key) - if ks[s] == key then 1 else 0
  {
    var ks' := RemoveAt(ks, s);
    if s < |ks'| {
      OccurrencesRemoved(ks, s, |ks'|, key);
    } else {
      OccurrencesSame(ks, ks', s, key);
    }
  }

  /** The number that the pair with number `j` after the deletion of `(i, key)` had before it. */
  function Before(i: int, key: string, j: int, other: string): int {
    if other == key && j >= i then j + 1 else j
  }

  lemma NthRemoved(ks: seq<string>, i: int, key: string, j: int, other: string)
    requires 0 <= i < Count(ks, key) && Nth(ks, i, key) < |ks|
    ensures var s, p := Nth(ks, i, key), Nth(ks, Before(i, key, j, other), other);
            p != s && Nth(RemoveAt(ks, s), j, other) == if p < s then p else p - 1
  {
    var s, j' := Nth(ks, i, key), Before(i, key, j, other);
    var p, ks' := Nth(ks, j', other), RemoveAt(ks, s);
    NthIs(ks, i, key);
    NthIs(ks, j', other);
    CountRemoved(ks, s, other);
    NthIs(ks', j, other);
    if p < |ks| {
      if p < s {
        OccurrencesRise(ks, p, s, other);
        OccurrencesSame(ks, ks', p, other);
        NthUnique(ks', p, j, other);
      } else {
        OccurrencesRise(ks, s, p, other);
        if p - 1 < |ks'| && p > s {
          AfterRemoved(ks, s, p, other);
          NthUnique(ks', p - 1, j, other);
        }
      }
    }
  }

  lemma AfterRemoved(ks: seq<string>, s: nat, p: nat, key: string)
    requires s < p < |ks|
    ensures Occurrences(RemoveAt(ks, s), p - 1, key) == Occurrences(ks, p, key) - if ks[s] == key then 1 else 0
  {
    if p - 1 <= s {
      OccurrencesSame(ks, RemoveAt(ks, s), p - 1, key);
    } else {
      OccurrencesRemoved(ks, s, p - 1, key);
    }
  }

  lemma LookupRemoved<V>(ps: Pairs<V>, s: nat, j: int, j': int, key: string)
    requires s < |ps|
    requires var p := Nth(Keys(ps), j', key);
             p != s && Nth(RemoveAt(Keys(ps), s), j, key) == if p < s then p else p - 1
    ensures Lookup(RemoveAt(ps, s), j, key) == Lookup(ps, j', key)
  {
    KeysRemoved(ps, s);
  }

  /** After a deletion the later pairs of that key move down by one; every other name keeps its value. */
  lemma LookupAfterDelete<V>(ps: Pairs<V>, i: int, key: string, j: int, other: string)
    requires 0 <= i < Count(Keys(ps), key)
    ensures Lookup(Delete(ps, i, key), j, other) == Lookup(ps, Before(i, key, j, other), other)
  {
    var ks := Keys(ps);
    NthIs(ks, i, key);
    NthRemoved(ks, i, key, j, other);
    LookupRemoved(ps, Nth(ks, i, key), j, Before(i, key, j, other), other);
  }

  lemma LookupAfterAppend<V>(ps: Pairs<V>, key: string, v: V, j: int, other: string)
    ensures Lookup(ps + [(key, v)], j, other) ==
            if other == key && j == Count(Keys(ps), key) then Some(v) else Lookup(ps, j, other)
  {
    var ks := Keys(ps);
    var ks' := Keys(ps + [(key, v)]);
    assert ks' == ks + [key];
    OccurrencesSame(ks, ks', |ks|, other);
    NthIs(ks, j, other);
    NthIs(ks', j, other);
    if 0 <= j < Count(ks, other) {
      OccurrencesSame(ks, ks', Nth(ks, j, other), other);
      NthUnique(ks', Nth(ks, j, other), j, other);
    } else if other == key && j == Count(ks, key) {
      NthUnique(ks', |ks|, j, other);
    }
  }

  lemma LookupFront<V>(ps: Pairs<V>, i: int, key: string)
    requires ps != []
    ensures Lookup(ps, i, key) ==
            if ps[0].0 != key then Lookup(ps[1..], i, key)
            else if i == 0 then Some(ps[0].1) else Lookup(ps[1..], i - 1, key)
  {
    assert Keys(ps[1..]) == Keys(ps)[1..];
  }

  lemma {:induction false} ValuesForCount<V>(ps: Pairs<V>, key: string)
    ensures |ValuesFor(ps, key)| == Count(Keys(ps), key)
  {
    if ps == [] {
    } else {
      assert Keys(ps[1..]) == Keys(ps)[1..];
      ValuesForCount(ps[1..], key);
      OccurrencesFront(Keys(ps), |ps|, key);
    }
  }

  /** `get_all_for` lists the values that `(0, key)`, `(1, key)`, ... look up. */
  lemma {:induction false} ValuesForIs<V>(ps: Pairs<V>, key: string, i: nat)
    requires i < |ValuesFor(ps, key)|
    ensures Lookup(ps, i, key) == Some(ValuesFor(ps, key)[i])
  {
    LookupFront(ps, i, key);
    if ps[0].0 != key {
      ValuesForIs(ps[1..], key, i);
    } else if i > 0 {
      ValuesForIs(ps[1..], key, i - 1);
    }
  }

  lemma {:induction false} WithoutCount(ks: seq<string>, key: string, other: string)
    ensures Count(Without(ks, ks, key), other) == if other == key then 0 else Count(ks, other)
  {
    if ks == [] {
    } else {
      var n := |ks| - 1;
      var rest := Without(ks[..n], ks[..n], key);
      WithoutCount(ks[..n], key, other);
      OccurrencesSame(ks[..n], ks, n, other);
      if ks[n] != key {
        OccurrencesSame(rest, rest + [ks[n]], |rest|, other);
      }
    }
  }
}
