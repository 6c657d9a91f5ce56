/** Python dicts as ordered lists of pairs with distinct keys. */
module Dicts {
  import opened Outcomes

  type Mapping<K, V> = seq<(K, V)>

  /** `d.get(k)`. */
  function Get<K(==), V>(d: Mapping<K, V>, k: K): Option<V> {
    if d == [] then None else if d[0].0 == k then Some(d[0].1) else Get(d[1..], k)
  }

  /** `d[k] = v`: an existing key keeps its place. */
  function Put<K(==), V>(d: Mapping<K, V>, k: K, v: V): Mapping<K, V> {
    if d == [] then [(k, v)] else if d[0].0 == k then [(k, v)] + d[1..] else [d[0]] + Put(d[1..], k, v)
  }

  /** `d.update(more)`. */
  function PutAll<K(==), V>(d: Mapping<K, V>, more: Mapping<K, V>): Mapping<K, V>
    decreases |more|
  {
    if more == [] then d else PutAll(Put(d, more[0].0, more[0].1), more[1..])
  }

  /** `d.pop(k, None)`. */
  function Pop<K(==), V>(d: Mapping<K, V>, k: K): Mapping<K, V> {
    if d == [] then [] else if d[0].0 == k then d[1..] else [d[0]] + Pop(d[1..], k)
  }

  /** No key occurs twice. */
  predicate Distinct<K(==), V>(d: Mapping<K, V>) {
    d == [] || (Get(d[1..], d[0].0).None? && Distinct(d[1..]))
  }

  lemma {:induction false} GetPut<K, V>(d: Mapping<K, V>, k: K, v: V, x: K)
    ensures Get(Put(d, k, v), x) == if x == k then Some(v) else Get(d, x)
  {
    if d != [] && d[0].0 != k {
      GetPut(d[1..], k, v, x);
      assert ([d[0]] + Put(d[1..], k, v))[1..] == Put(d[1..], k, v);
    }
  }

  lemma {:induction false} PutDistinct<K, V>(d: Mapping<K, V>, k: K, v: V)
    requires Distinct(d)
    ensures Distinct(Put(d, k, v))
  {
    if d != [] && d[0].0 != k {
      PutDistinct(d[1..], k, v);
      GetPut(d[1..], k, v, d[0].0);
      assert ([d[0]] + Put(d[1..], k, v))[1..] == Put(d[1..], k, v);
    }
  }

  lemma {:induction false} GetPutAll<K, V>(d: Mapping<K, V>, more: Mapping<K, V>, x: K)
    requires Distinct(more)
    ensures Get(PutAll(d, more), x) == if Get(more, x).Some? then Get(more, x) else Get(d, x)
    decreases |more|
  {
    if more != [] {
      GetPutAll(Put(d, more[0].0, more[0].1), more[1..], x);
      GetPut(d, more[0].0, more[0].1, x);
    }
  }

  lemma {:induction false} PutAllDistinct<K, V>(d: Mapping<K, V>, more: Mapping<K, V>)
    requires Distinct(d)
    ensures Distinct(PutAll(d, more))
    decreases |more|
  {
    if more != [] {
      PutDistinct(d, more[0].0, more[0].1);
      PutAllDistinct(Put(d, more[0].0, more[0].1), more[1..]);
    }
  }

  lemma {:induction false} GetPop<K, V>(d: Mapping<K, V>, k: K, x: K)
    requires Distinct(d)
    ensures Get(Pop(d, k), x) == if x == k then None else Get(d, x)
  {
    if d != [] && d[0].0 != k {
      GetPop(d[1..], k, x);
    }
  }

  lemma {:induction false} PopDistinct<K, V>(d: Mapping<K, V>, k: K)
    requires Distinct(d)
    ensures Distinct(Pop(d, k))
  {
    if d != [] && d[0].0 != k {
      PopDistinct(d[1..], k);
      GetPop(d[1..], k, d[0].0);
    }
  }

  lemma {:induction false} GetConcat<K, V>(a: Mapping<K, V>, b: Mapping<K, V>, x: K)
    ensures Get(a + b, x) == if Get(a, x).Some? then Get(a, x) else Get(b, x)
  {
    if a == [] {
      assert a + b == b;
    } else {
      assert (a + b)[1..] == a[1..] + b;
      GetConcat(a[1..], b, x);
    }
  }

  lemma {:induction false} DistinctConcat<K, V>(a: Mapping<K, V>, b: Mapping<K, V>)
    requires Distinct(a) && Distinct(b) && forall i :: 0 <= i < |a| ==> Get(b, a[i].0).None?
    ensures Distinct(a + b)
  {
    if a == [] {
      assert a + b == b;
    } else {
      assert (a + b)[1..] == a[1..] + b;
      DistinctConcat(a[1..], b);
      GetConcat(a[1..], b, a[0].0);
    }
  }

  lemma {:induction false} PutNew<K, V>(d: Mapping<K, V>, k: K, v: V)
    requires Get(d, k).None?
    ensures Put(d, k, v) == d + [(k, v)]
  {
    if d != [] {
      PutNew(d[1..], k, v);
    }
  }

  lemma {:induction false} PutAllNew<K, V>(d: Mapping<K, V>, more: Mapping<K, V>)
    requires Distinct(d + more)
    ensures PutAll(d, more) == d + more
    decreases |more|
  {
    if more == [] {
      assert d + more == d;
    } else {
      assert more == [more[0]] + more[1..];
      assert d + more == d + [more[0]] + more[1..];
      NotBefore(d, more[0], more[1..]);
      PutNew(d, more[0].0, more[0].1);
      PutAllNew(d + [more[0]], more[1..]);
    }
  }

  lemma {:induction false} NotBefore<K, V>(d: Mapping<K, V>, p: (K, V), rest: Mapping<K, V>)
    requires Distinct(d + ([p] + rest))
    ensures Get(d, p.0).None?
  {
    if d != [] {
      assert (d + ([p] + rest))[1..] == d[1..] + ([p] + rest);
      NotBefore(d[1..], p, rest);
      GetConcat(d[1..], [p] + rest, d[0].0);
    }
  }

  lemma {:induction false} GetAt<K, V>(d: Mapping<K, V>, k: K)
    ensures Get(d, k).Some? <==> exists i :: 0 <= i < |d| && d[i].0 == k
    ensures Get(d, k).Some? ==> (k, Get(d, k).value) in d
  {
    if d != [] {
      GetAt(d[1..], k);
      assert forall i :: 0 < i < |d| ==> d[i] == d[1..][i - 1];
      if exists i :: 0 <= i < |d| && d[i].0 == k {
        var i :| 0 <= i < |d| && d[i].0 == k;
        if i > 0 {
          assert d[1..][i - 1].0 == k;
        }
      }
    }
  }

  /** Distinct dicts are lists whose keys differ. */
  lemma {:induction false} DistinctAt<K, V>(d: Mapping<K, V>)
    ensures Distinct(d) <==> forall i, j :: 0 <= i < j < |d| ==> d[i].0 != d[j].0
  {
    if d != [] {
      DistinctAt(d[1..]);
      GetAt(d[1..], d[0].0);
      assert forall i :: 0 < i < |d| ==> d[i] == d[1..][i - 1];
      if forall i, j :: 0 <= i < j < |d| ==> d[i].0 != d[j].0 {
        assert forall i :: 0 <= i < |d[1..]| ==> d[1..][i].0 != d[0].0;
      }
      if Distinct(d) {
        forall i, j | 0 <= i < j < |d|
          ensures d[i].0 != d[j].0
        {
          assert d[j] == d[1..][j - 1];
          if i > 0 {
            assert d[i] == d[1..][i - 1];
          }
        }
      }
    }
  }
}
