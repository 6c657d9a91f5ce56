/**
 The least-recently-used container: it keeps exactly the most recently touched keys, and every
 value that was put in is held or has been disposed of, once.
 */
module RecentlyUsed {
  import opened Outcomes

  // ---------- ordered containers ----------

  /** An OrderedDict, least recently used pair first. */
  type Line<K, V> = seq<(K, V)>

  function KeysOf<K, V>(c: Line<K, V>): (ks: seq<K>)
    ensures |ks| == |c| && forall i :: 0 <= i < |ks| ==> ks[i] == c[i].0
  {
    seq(|c|, i requires 0 <= i < |c| => c[i].0)
  }

  function ValuesOf<K, V>(c: Line<K, V>): (vs: seq<V>)
    ensures |vs| == |c| && forall i :: 0 <= i < |vs| ==> vs[i] == c[i].1
  {
    seq(|c|, i requires 0 <= i < |c| => c[i].1)
  }

  ghost predicate Distinct<T>(s: seq<T>) {
    forall i, j :: 0 <= i < j < |s| ==> s[i] != s[j]
  }

  function Position<T(==)>(s: seq<T>, x: T): (i: nat)
    ensures i <= |s| && (i < |s| ==> s[i] == x) && x !in s[..i]
  {
    if s == [] || s[0] == x then 0
    else
      var i := 1 + Position(s[1..], x);
      assert s[..i] == [s[0]] + s[1..][..i - 1];
      i
  }

  function Drop<T>(s: seq<T>, i: nat): (r: seq<T>)
    requires i < |s|
    ensures |r| == |s| - 1
  {
    s[..i] + s[i + 1..]
  }

  function LastOf<T>(s: seq<T>, n: nat): seq<T> {
    if |s| <= n then s else s[|s| - n..]
  }

  lemma DropFacts<K, V>(c: Line<K, V>, i: nat)
    requires i < |c|
    ensures KeysOf(Drop(c, i)) == Drop(KeysOf(c), i)
    ensures multiset(ValuesOf(c)) == multiset(ValuesOf(Drop(c, i))) + multiset{c[i].1}
  {
    var vs := ValuesOf(c);
    assert ValuesOf(Drop(c, i)) == Drop(vs, i);
    assert vs == vs[..i] + [vs[i]] + vs[i + 1..];
  }

  lemma AppendFacts<K, V>(c: Line<K, V>, k: K, v: V)
    ensures KeysOf(c + [(k, v)]) == KeysOf(c) + [k]
    ensures multiset(ValuesOf(c + [(k, v)])) == multiset(ValuesOf(c)) + multiset{v}
  {
    assert ValuesOf(c + [(k, v)]) == ValuesOf(c) + [v];
  }

  lemma DropDistinct<T>(s: seq<T>, i: nat)
    requires Distinct(s) && i < |s|
    ensures Distinct(Drop(s, i)) && s[i] !in Drop(s, i)
  {
  }

  /** A key touched again moves to the end of the line. */
  function Moved<T(==)>(s: seq<T>, x: T): seq<T> {
    MovedFrom(s, Position(s, x), x)
  }

  function MovedFrom<T>(s: seq<T>, i: nat, x: T): seq<T> {
    (if i < |s| then Drop(s, i) else s) + [x]
  }

  lemma MovedDistinct<T>(s: seq<T>, x: T)
    requires Distinct(s)
    ensures Distinct(Moved(s, x))
  {
    if Position(s, x) < |s| {
      DropDistinct(s, Position(s, x));
    } else {
      assert s[..|s|] == s;
    }
  }

  /** The container after a value is put under a key, and the value that has to go for it. */
  function Put<K(==), V>(c: Line<K, V>, maxsize: nat, k: K, v: V): (Line<K, V>, Option<V>) {
    var i := Position(KeysOf(c), k);
    var c' := c + [(k, v)];
    if i < |c| then (Drop(c, i) + [(k, v)], Some(c[i].1))
    else if |c'| > maxsize then (Drop(c', 0), Some(c'[0].1))
    else (c', None)
  }

  lemma PutFacts<K, V>(c: Line<K, V>, maxsize: nat, k: K, v: V)
    requires Distinct(KeysOf(c)) && |c| <= maxsize
    ensures var (c', gone) := Put(c, maxsize, k, v);
            && KeysOf(c') == LastOf(Moved(KeysOf(c), k), maxsize) && Distinct(KeysOf(c')) && |c'| <= maxsize
            && multiset(ValuesOf(c)) + multiset{v} ==
               multiset(ValuesOf(c')) + if gone.Some? then multiset{gone.value} else multiset{}
  {
    var i, ks := Position(KeysOf(c), k), KeysOf(c);
    MovedDistinct(ks, k);
    AppendFacts(c, k, v);
    if i < |c| {
      DropFacts(c, i);
      AppendFacts(Drop(c, i), k, v);
    } else if |c| + 1 > maxsize {
      DropFacts(c + [(k, v)], 0);
      DropDistinct(ks + [k], 0);
    }
  }

  lemma Accounted<V>(held: multiset<V>, before: seq<V>, value: V, kept: multiset<V>, gone: Option<V>, after: seq<V>)
    requires held + multiset{value} == kept + if gone.Some? then multiset{gone.value} else multiset{}
    requires after == before + if gone.Some? then [gone.value] else []
    ensures held + multiset(before) + multiset{value} == kept + multiset(after)
  {
    assert held + multiset(before) + multiset{value} == held + multiset{value} + multiset(before);
  }

  // ---------- the container ----------

  class RecentlyUsedContainer<K(==), V(==)> {
    const maxsize: nat
    const disposing: bool
    var container: Line<K, V>
    var disposed: seq<V>
    ghost var inserted: multiset<V>

    ghost predicate Valid()
      reads this
    {
      && Distinct(KeysOf(container)) && |container| <= maxsize
      && (disposing ==> inserted == multiset(ValuesOf(container)) + multiset(disposed))
    }

    constructor (maxsize: nat, disposing: bool)
      ensures Valid() && container == [] && disposed == [] && inserted == multiset{}
      ensures this.maxsize == maxsize && this.disposing == disposing
    {
      this.maxsize, this.disposing := maxsize, disposing;
      container, disposed, inserted := [], [], multiset{};
    }

    /** `dispose_func(value)`, when there is one. */
    method Dispose(value: V)
      modifies this`disposed
      ensures disposed == if disposing then old(disposed) + [value] else old(disposed)
    {
      if disposing {
        disposed := disposed + [value];
      }
    }

    /** `c[key]`: the value, with its key moved to the end of the line; None is the KeyError. */
    method Get(key: K) returns (r: Option<V>)
      requires Valid()
      modifies this`container
      ensures Valid()
      ensures r.Some? <==> key in KeysOf(old(container))
      ensures r.None? ==> container == old(container)
      ensures r.Some? ==> var i := Position(KeysOf(old(container)), key);
                          i < |old(container)| && container == Drop(old(container), i) + [old(container)[i]]
                          && r.value == old(container)[i].1
      ensures r.Some? ==> KeysOf(container) == Moved(KeysOf(old(container)), key)
      ensures (container, r.Some?) == Accessed(old(container), maxsize, GetItem(key))
    {
      var i := Position(KeysOf(container), key);
      assert KeysOf(container)[..|container|] == KeysOf(container);
      if i == |container| {
        return None;
      }
      var pair := container[i];
      DropFacts(container, i);
      AppendFacts(Drop(container, i), pair.0, pair.1);
      MovedDistinct(KeysOf(container), key);
      container := Drop(container, i) + [pair];
      return Some(pair.1);
    }

    /** `c[key] = value`: a value replaced or evicted is disposed of. */
    method Set(key: K, value: V)
      requires Valid()
      modifies this
      ensures Valid() && inserted == old(inserted) + multiset{value}
      ensures var (c, gone) := Put(old(container), maxsize, key, value);
              container == c && disposed == old(disposed) + if disposing && gone.Some? then [gone.value] else []
    {
      PutFacts(container, maxsize, key, value);
      ghost var (c, gone) := Put(container, maxsize, key, value);
      ghost var held := multiset(ValuesOf(container));
      inserted := inserted + multiset{value};
      var evicted: Option<V> := None;
      var i := Position(KeysOf(container), key);
      if i < |container| {
        evicted := Some(container[i].1);
        container := Drop(container, i) + [(key, value)];
      } else {
        container := container + [(key, value)];
        if |container| > maxsize {
          evicted := Some(container[0].1);
          container := Drop(container, 0);
        }
      }
      ghost var before := disposed;
      if evicted.Some? {
        Dispose(evicted.value);
      }
      assert container == c && evicted == gone;
      if disposing {
        Accounted(held, before, value, multiset(ValuesOf(container)), evicted, disposed);
      }
    }

    /** `del c[key]`: false is the KeyError. */
    method Delete(key: K) returns (ok: bool)
      requires Valid()
      modifies this
      ensures Valid() && inserted == old(inserted)
      ensures ok <==> key in KeysOf(old(container))
      ensures !ok ==> container == old(container) && disposed == old(disposed)
      ensures ok ==> var i := Position(KeysOf(old(container)), key);
                     i < |old(container)| && container == Drop(old(container), i)
                     && disposed == old(disposed) + if disposing then [old(container)[i].1] else []
    {
      var i := Position(KeysOf(container), key);
      assert KeysOf(container)[..|container|] == KeysOf(container);
      if i == |container| {
        return false;
      }
      var value := container[i].1;
      DropFacts(container, i);
      DropDistinct(KeysOf(container), i);
      container := Drop(container, i);
      Dispose(value);
      return true;
    }

    /** `clear()`: everything held is disposed of, oldest first. */
    method Clear()
      requires Valid()
      modifies this
      ensures Valid() && container == [] && inserted == old(inserted)
      ensures disposed == old(disposed) + if disposing then ValuesOf(old(container)) else []
    {
      var values := ValuesOf(container);
      ghost var before := disposed;
      container := [];
      if disposing {
        for i := 0 to |values|
          invariant container == [] && inserted == old(inserted) && disposed == before + values[..i]
        {
          Dispose(values[i]);
          assert values[..i + 1] == values[..i] + [values[i]];
        }
        assert values[..|values|] == values;
      }
      assert multiset(before + values) == multiset(before) + multiset(values);
    }
  }

  // ---------- histories of touches ----------

  /** The keys of a history, each at its last touch, least recently touched first. */
  function RecentKeys<K(==)>(touches: seq<K>): seq<K> {
    if touches == [] then [] else Moved(RecentKeys(touches[..|touches| - 1]), touches[|touches| - 1])
  }

  /** The keys touched since the last touch of `k`. */
  function Since<K(==)>(touches: seq<K>, k: K): set<K> {
    if touches == [] || touches[|touches| - 1] == k then {}
    else Since(touches[..|touches| - 1], k) + {touches[|touches| - 1]}
  }

  lemma {:induction false} RecentDistinct<K>(touches: seq<K>)
    ensures Distinct(RecentKeys(touches))
    ensures forall k :: k in RecentKeys(touches) <==> k in touches
  {
    if touches == [] {
    } else {
      var n := |touches| - 1;
      var before, k := RecentKeys(touches[..n]), touches[n];
      RecentDistinct(touches[..n]);
      MovedDistinct(before, k);
      MovedMembers(before, k);
      assert touches == touches[..n] + [k];
    }
  }

  lemma MovedMembers<T>(s: seq<T>, x: T)
    ensures forall y :: y in Moved(s, x) <==> y in s || y == x
  {
    var i := Position(s, x);
    if i < |s| {
      assert s == s[..i] + [x] + s[i + 1..];
    }
  }

  lemma {:induction false} SinceDropped<K>(s: seq<K>, i: nat, k: K)
    requires i < |s| && s[i] != k
    ensures Since(Drop(s, i), k) + {s[i]} == Since(s, k) + {s[i]}
  {
    var n := |s| - 1;
    if i == n {
      assert Drop(s, i) == s[..n];
    } else {
      assert Drop(s, i)[..n - 1] == Drop(s[..n], i);
      if s[n] != k {
        SinceDropped(s[..n], i, k);
      }
    }
  }

  lemma {:induction false} SinceRecent<K>(touches: seq<K>, k: K)
    requires k in touches
    ensures Since(RecentKeys(touches), k) == Since(touches, k)
  {
    var n := |touches| - 1;
    var before, x := RecentKeys(touches[..n]), touches[n];
    var after := RecentKeys(touches);
    assert after[|after| - 1] == x && touches == touches[..n] + [x];
    if x != k {
      SinceRecent(touches[..n], k);
      var i := Position(before, x);
      if i < |before| {
        SinceDropped(before, i, k);
        assert after[..|after| - 1] == Drop(before, i);
      } else {
        assert after[..|after| - 1] == before;
      }
    }
  }

  lemma {:induction false} SinceSize<K>(s: seq<K>, p: nat)
    requires Distinct(s) && p < |s|
    ensures |Since(s, s[p])| == |s| - 1 - p
    ensures forall y :: y in Since(s, s[p]) ==> y in s
  {
    var n := |s| - 1;
    if p < n {
      SinceSize(s[..n], p);
      assert s[n] !in s[..n];
    }
  }

  /** A key is among the `n` most recent exactly when fewer than `n` other keys were touched since it was. */
  lemma RecentExactly<K>(touches: seq<K>, n: nat, k: K)
    ensures k in LastOf(RecentKeys(touches), n) <==> k in touches && |Since(touches, k)| < n
  {
    var r := RecentKeys(touches);
    RecentDistinct(touches);
    if k in touches {
      var p := Position(r, k);
      assert r[..|r|] == r;
      SinceSize(r, p);
      SinceRecent(touches, k);
      if |r| > n && p >= |r| - n {
        assert LastOf(r, n)[p - (|r| - n)] == k;
      }
    }
  }

  // ---------- runs of sets and gets ----------

  datatype Access<K, V> = SetItem(key: K, value: V) | GetItem(key: K)

  /** The container after an access, and whether the access touched its key (a failing get does not). */
  function Accessed<K(==), V>(c: Line<K, V>, maxsize: nat, a: Access<K, V>): (Line<K, V>, bool) {
    match a
    case SetItem(k, v) => (Put(c, maxsize, k, v).0, true)
    case GetItem(k) =>
      var i := Position(KeysOf(c), k);
      if i < |c| then (Drop(c, i) + [c[i]], true) else (c, false)
  }

  /** The container after a run from empty, and the touches of the run. */
  function Run<K(==), V>(maxsize: nat, run: seq<Access<K, V>>): (Line<K, V>, seq<K>) {
    if run == [] then ([], [])
    else
      var (c, touches) := Run(maxsize, run[..|run| - 1]);
      var a := run[|run| - 1];
      var (c', touched) := Accessed(c, maxsize, a);
      (c', if touched then touches + [a.key] else touches)
  }

  lemma {:induction false} PositionDistinct<T>(s: seq<T>, i: nat)
    requires Distinct(s) && i < |s|
    ensures Position(s, s[i]) == i
  {
    if i > 0 {
      assert s[0] != s[i];
      PositionDistinct(s[1..], i - 1);
    }
  }

  lemma PositionAbsent<T>(s: seq<T>, x: T)
    requires x !in s
    ensures Position(s, x) == |s|
  {
  }

  lemma DropTail<T>(s: seq<T>, i: nat, d: nat)
    requires i < d <= |s|
    ensures Drop(s, i)[d - 1..] == s[d..]
  {
  }

  lemma AppendTail<T>(s: seq<T>, x: T, n: nat)
    requires n <= |s|
    ensures LastOf(s + [x], n) == (s[|s| - n..] + [x])[1..]
  {
  }

  lemma DropInside<T>(s: seq<T>, i: nat, d: nat, x: T)
    requires d <= i < |s|
    ensures (Drop(s, i) + [x])[d..] == Drop(s[d..], i - d) + [x]
  {
  }

  /** A key that is not among the last `n` enters them at the end, wherever it came from. */
  lemma MovedOutside<T>(s: seq<T>, n: nat, i: nat, x: T)
    requires n < |s| && (i < |s| - n || i == |s|)
    ensures LastOf(MovedFrom(LastOf(s, n), n, x), n) == LastOf(MovedFrom(s, i, x), n)
  {
    var t := LastOf(s, n);
    AppendTail(t, x, n);
    assert t[0..] == t;
    if i < |s| {
      DropTail(s, i, |s| - n);
      AppendTail(Drop(s, i), x, n);
    } else {
      AppendTail(s, x, n);
    }
  }

  lemma MovedInside<T>(s: seq<T>, n: nat, i: nat, x: T)
    requires n < |s| && |s| - n <= i < |s|
    ensures LastOf(MovedFrom(LastOf(s, n), i - (|s| - n), x), n) == LastOf(MovedFrom(s, i, x), n)
  {
    DropInside(s, i, |s| - n, x);
  }

  lemma NotInTail<T>(s: seq<T>, i: nat, d: nat)
    requires Distinct(s) && i < d <= |s|
    ensures s[i] !in s[d..]
  {
    var t := s[d..];
    forall j | 0 <= j < |t|
      ensures t[j] != s[i]
    {
      assert t[j] == s[d + j];
    }
  }

  lemma DistinctTail<T>(s: seq<T>, d: nat)
    requires Distinct(s) && d <= |s|
    ensures Distinct(s[d..])
  {
  }

  lemma PositionInTail<T>(s: seq<T>, n: nat, x: T)
    requires Distinct(s) && n < |s|
    ensures var i, d := Position(s, x), |s| - n;
            Position(LastOf(s, n), x) == if d <= i < |s| then i - d else n
  {
    var i, d := Position(s, x), |s| - n;
    var t := s[d..];
    assert s[..|s|] == s;
    DistinctTail(s, d);
    if d <= i < |s| {
      assert t[i - d] == x;
      PositionDistinct(t, i - d);
    } else {
      if i < |s| {
        NotInTail(s, i, d);
      }
      assert x !in t;
      PositionAbsent(t, x);
    }
  }

  /** Moving a key in a line that was cut to its last `n` keys is like moving it before the cut. */
  lemma LastMoved<K>(r: seq<K>, n: nat, k: K)
    requires Distinct(r)
    ensures LastOf(Moved(LastOf(r, n), k), n) == LastOf(Moved(r, k), n)
  {
    if |r| > n {
      var i := Position(r, k);
      PositionInTail(r, n, k);
      if |r| - n <= i < |r| {
        MovedInside(r, n, i, k);
      } else {
        MovedOutside(r, n, i, k);
      }
    }
  }

  /** After any run of sets and gets the keys held are exactly the `maxsize` most recently touched ones. */
  lemma {:induction false} HoldsMostRecent<K, V>(maxsize: nat, run: seq<Access<K, V>>)
    ensures var (c, touches) := Run(maxsize, run);
            KeysOf(c) == LastOf(RecentKeys(touches), maxsize) && Distinct(KeysOf(c)) && |c| <= maxsize
  {
    if run == [] {
    } else {
      var n := |run| - 1;
      HoldsMostRecent(maxsize, run[..n]);
      var (c, touches) := Run(maxsize, run[..n]);
      var a := run[n];
      var i := Position(KeysOf(c), a.key);
      RecentDistinct(touches);
      LastMoved(RecentKeys(touches), maxsize, a.key);
      assert (touches + [a.key])[..|touches|] == touches;
      match a {
        case SetItem(k, v) => PutFacts(c, maxsize, k, v);
        case GetItem(k) =>
          if i < |c| {
            DropFacts(c, i);
            AppendFacts(Drop(c, i), c[i].0, c[i].1);
            MovedDistinct(KeysOf(c), k);
          }
      }
    }
  }

  /** A key is held after a run exactly when fewer than `maxsize` other keys were touched since it was. */
  lemma HeldExactly<K, V>(maxsize: nat, run: seq<Access<K, V>>, k: K)
    ensures var (c, touches) := Run(maxsize, run);
            k in KeysOf(c) <==> k in touches && |Since(touches, k)| < maxsize
  {
    HoldsMostRecent(maxsize, run);
    RecentExactly(Run(maxsize, run).1, maxsize, k);
  }
}
