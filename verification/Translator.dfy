/**
 The incremental translator: a cache of source hashes decides which keys are sent, and every
 completed run leaves each target as if the whole source had been translated anew.
 */
module Translator {
  import opened Dicts
  import opened FlatJson
  import opened Outcomes
  import opened VdfMerge
  import opened VdfTree

  const BATCH_SIZE := 25

  function MapValue(f: string -> string, value: Option<string>): Option<string> {
    if value.Some? then Some(f(value.value)) else None
  }

  /** `flat` has the keys of `source`, each with the image of its value. */
  ghost predicate Maps(flat: Flat, f: string -> string, source: Flat) {
    forall k :: Get(flat, k) == MapValue(f, Get(source, k))
  }

  // ---------- diff ----------

  /** `compute_changed_keys`. */
  function ChangedKeys(source: Flat, cache: Flat, hash: string -> string): Flat {
    if source == [] then []
    else
      var rest := ChangedKeys(source[1..], cache, hash);
      if Get(cache, source[0].0) != Some(hash(source[0].1)) then [source[0]] + rest else rest
  }

  lemma {:induction false} ChangedGet(source: Flat, cache: Flat, hash: string -> string, k: string)
    requires Distinct(source)
    ensures Get(ChangedKeys(source, cache, hash), k) ==
            if Get(cache, k) == MapValue(hash, Get(source, k)) then None else Get(source, k)
  {
    if source != [] {
      ChangedGet(source[1..], cache, hash, k);
    }
  }

  lemma {:induction false} ChangedDistinct(source: Flat, cache: Flat, hash: string -> string)
    requires Distinct(source)
    ensures Distinct(ChangedKeys(source, cache, hash))
  {
    if source != [] {
      ChangedDistinct(source[1..], cache, hash);
      ChangedGet(source[1..], cache, hash, source[0].0);
    }
  }

  /** `compute_deleted_keys`, in some order. */
  function DeletedKeys(source: Flat, cache: Flat): (r: seq<string>)
    ensures forall k :: k in r ==> Get(source, k).None?
  {
    if cache == [] then []
    else
      var rest := DeletedKeys(source, cache[1..]);
      if Get(source, cache[0].0).None? then [cache[0].0] + rest else rest
  }

  lemma {:induction false} DeletedExactly(source: Flat, cache: Flat, k: string)
    ensures k in DeletedKeys(source, cache) <==> Get(cache, k).Some? && Get(source, k).None?
  {
    if cache != [] {
      DeletedExactly(source, cache[1..], k);
    }
  }

  // ---------- translation ----------

  function TranslateAll(items: Flat, translate: string -> string): (r: Flat)
    ensures |r| == |items| && forall i :: 0 <= i < |r| ==> r[i] == (items[i].0, translate(items[i].1))
  {
    seq(|items|, i requires 0 <= i < |items| => (items[i].0, translate(items[i].1)))
  }

  lemma {:induction false} TranslateAllGet(items: Flat, translate: string -> string, k: string)
    ensures Get(TranslateAll(items, translate), k) == MapValue(translate, Get(items, k))
  {
    if items != [] {
      TranslateAllGet(items[1..], translate, k);
      assert TranslateAll(items, translate)[1..] == TranslateAll(items[1..], translate);
    }
  }

  lemma TranslateAllDistinct(items: Flat, translate: string -> string)
    requires Distinct(items)
    ensures Distinct(TranslateAll(items, translate))
  {
    DistinctAt(items);
    DistinctAt(TranslateAll(items, translate));
  }

  /** `translate_batch`: one translation for each text. */
  function TranslateBatch(texts: seq<string>, translate: string -> string): (r: seq<string>)
    ensures |r| == |texts| && forall i :: 0 <= i < |r| ==> r[i] == translate(texts[i])
  {
    seq(|texts|, i requires 0 <= i < |texts| => translate(texts[i]))
  }

  lemma PutNext(items: Flat, translate: string -> string, n: nat)
    requires Distinct(items) && n < |items|
    ensures Put(TranslateAll(items[..n], translate), items[n].0, translate(items[n].1)) ==
            TranslateAll(items[..n + 1], translate)
  {
    var done := TranslateAll(items[..n], translate);
    DistinctAt(items);
    GetAt(done, items[n].0);
    PutNew(done, items[n].0, translate(items[n].1));
    assert done + [(items[n].0, translate(items[n].1))] == TranslateAll(items[..n + 1], translate);
  }

  function TextsOf(items: Flat): (texts: seq<string>)
    ensures |texts| == |items| && forall i :: 0 <= i < |texts| ==> texts[i] == items[i].1
  {
    seq(|items|, i requires 0 <= i < |items| => items[i].1)
  }

  /** The texts of the requests, one request after another. */
  function Requested(requests: seq<seq<string>>): seq<string> {
    if requests == [] then [] else Requested(requests[..|requests| - 1]) + requests[|requests| - 1]
  }

  /**
   `translate_for_locale`: every key gets its own translation, and every text is sent once, in requests of at
   most 25 texts.
   */
  method TranslateForLocale(items: Flat, translate: string -> string)
    returns (result: Flat, requests: seq<seq<string>>)
    requires Distinct(items)
    ensures result == TranslateAll(items, translate)
    ensures Requested(requests) == TextsOf(items) && forall n :: 0 <= n < |requests| ==> 0 < |requests[n]| <= 25
  {
    result, requests := [], [];
    var i := 0;
    while i < |items|
      invariant i <= |items| && result == TranslateAll(items[..i], translate)
      invariant Requested(requests) == TextsOf(items[..i])
      invariant forall n :: 0 <= n < |requests| ==> 0 < |requests[n]| <= 25
    {
      var end := if i + BATCH_SIZE <= |items| then i + BATCH_SIZE else |items|;
      var batch := items[i..end];
      var texts := TextsOf(batch);
      var translated := TranslateBatch(texts, translate);
      SentOnce(items, i, end, requests, texts);
      requests := requests + [texts];
      for j := 0 to |batch|
        invariant result == TranslateAll(items[..i + j], translate)
      {
        PutNext(items, translate, i + j);
        result := Put(result, batch[j].0, translated[j]);
      }
      i := end;
    }
    assert items[..|items|] == items;
  }

  lemma SentOnce(items: Flat, i: nat, end: nat, requests: seq<seq<string>>, texts: seq<string>)
    requires i <= end <= |items| && Requested(requests) == TextsOf(items[..i]) && texts == TextsOf(items[i..end])
    ensures Requested(requests + [texts]) == TextsOf(items[..end])
  {
    assert (requests + [texts])[..|requests|] == requests;
    assert items[..end] == items[..i] + items[i..end];
  }

  /** `build_new_cache`. */
  method BuildNewCache(source: Flat, oldCache: Flat, changed: Flat, hash: string -> string, applied: bool)
    returns (cache: Flat)
    requires Distinct(source)
    ensures Distinct(cache)
    ensures forall k :: Get(cache, k) ==
              if Get(source, k).None? then None
              else if Get(changed, k).Some? && applied then MapValue(hash, Get(source, k))
              else Get(oldCache, k)
  {
    cache := [];
    for i := 0 to |source|
      invariant Distinct(cache)
      invariant forall k :: Get(cache, k) ==
                  if Get(source[..i], k).None? then None
                  else if Get(changed, k).Some? && applied then MapValue(hash, Get(source, k))
                  else Get(oldCache, k)
    {
      var (key, value) := source[i];
      ghost var before := cache;
      if Get(changed, key).Some? && applied {
        PutDistinct(cache, key, hash(value));
        cache := Put(cache, key, hash(value));
      } else if Get(oldCache, key).Some? {
        PutDistinct(cache, key, Get(oldCache, key).value);
        cache := Put(cache, key, Get(oldCache, key).value);
      }
      forall k: string
        ensures Get(cache, k) ==
                if Get(source[..i + 1], k).None? then None
                else if Get(changed, k).Some? && applied then MapValue(hash, Get(source, k))
                else Get(oldCache, k)
      {
        GetPrefix(source, i, k);
        if Get(changed, key).Some? && applied {
          GetPut(before, key, hash(value), k);
        } else if Get(oldCache, key).Some? {
          GetPut(before, key, Get(oldCache, key).value, k);
        }
      }
    }
    assert source[..|source|] == source;
  }

  lemma GetPrefix(source: Flat, n: nat, k: string)
    requires Distinct(source) && n < |source|
    ensures var key := source[n].0;
            && Get(source[..n + 1], k) == (if k == key then Some(source[n].1) else Get(source[..n], k))
            && Get(source, key) == Some(source[n].1) && Get(source[..n], key).None?
  {
    var key := source[n].0;
    DistinctAt(source);
    GetAt(source[..n], key);
    GetConcat(source[..n], [source[n]], k);
    assert source[..n] + [source[n]] == source[..n + 1];
    GetConcat(source[..n], source[n..], key);
    assert source[..n] + source[n..] == source;
  }

  // ---------- one target ----------

  function PopAll(flat: Flat, keys: seq<string>): Flat
    decreases |keys|
  {
    if keys == [] then flat else PopAll(Pop(flat, keys[0]), keys[1..])
  }

  lemma {:induction false} PopAllGet(flat: Flat, keys: seq<string>, k: string)
    requires Distinct(flat)
    ensures Get(PopAll(flat, keys), k) == if k in keys then None else Get(flat, k)
    decreases |keys|
  {
    if keys != [] {
      PopDistinct(flat, keys[0]);
      GetPop(flat, keys[0], k);
      PopAllGet(Pop(flat, keys[0]), keys[1..], k);
    }
  }

  lemma {:induction false} PopAllDistinct(flat: Flat, keys: seq<string>)
    requires Distinct(flat)
    ensures Distinct(PopAll(flat, keys))
    decreases |keys|
  {
    if keys != [] {
      PopDistinct(flat, keys[0]);
      PopAllDistinct(Pop(flat, keys[0]), keys[1..]);
    }
  }

  /** The flat content of a target that `update_one_target` writes. */
  function UpdatedFlat(flat: Flat, changed: Flat, deleted: seq<string>, translate: string -> string, apiKey: bool):
    Flat
  {
    var kept := PopAll(flat, deleted);
    if changed != [] && apiKey then PutAll(kept, TranslateAll(changed, translate)) else kept
  }

  /** A target file after a completed run; without changes and deletions nothing is written. */
  function TargetAfter(target: Doc, source: Flat, cache: Flat, hash: string -> string, translate: string -> string,
                       apiKey: bool): Doc
  {
    var changed, deleted := ChangedKeys(source, cache, hash), DeletedKeys(source, cache);
    if changed == [] && deleted == [] then target
    else UnflattenDict(UpdatedFlat(FlattenJson(target), changed, deleted, translate, apiKey))
  }

  lemma {:induction false} LeafAtPlain(doc: Doc, path: seq<string>)
    requires Plain(doc) && LeafAt(doc, path).Some?
    ensures path != [] && forall i :: 0 <= i < |path| ==> path[i] != "" && Dotless(path[i])
    decreases |path|
  {
    var i := Find(doc, path[0]);
    LeafAtStep(doc, path);
    if doc[i].value.Table? {
      LeafAtPlain(doc[i].value.entries, path[1..]);
      assert forall j :: 0 < j < |path| ==> path[j] == path[1..][j - 1];
    }
  }

  /** The keys that occur in a plain document have no empty parts and do not lead through each other. */
  lemma PlainKeys(doc: Doc, key: string)
    requires Plain(doc) && Get(FlattenJson(doc), key).Some?
    ensures forall i :: 0 <= i < |Split(key)| ==> Split(key)[i] != "" && Dotless(Split(key)[i])
    ensures !LedThrough(FlattenJson(doc), key)
  {
    var flat := FlattenJson(doc);
    FlattenMeaning(doc);
    LeafAtPlain(doc, Split(key));
    forall j | 0 <= j < |flat|
      ensures !Leads(flat[j].0, key)
    {
      GetAt(flat, flat[j].0);
      if Leads(flat[j].0, key) {
        LeafEndsPath(doc, Split(flat[j].0), Split(key));
      }
    }
  }

  lemma LedThroughGet(flat: Flat, key: string)
    ensures LedThrough(flat, key) <==> exists other :: Get(flat, other).Some? && Leads(other, key)
  {
    if LedThrough(flat, key) {
      var j :| 0 <= j < |flat| && Leads(flat[j].0, key);
      GetAt(flat, flat[j].0);
    }
    forall other | Get(flat, other).Some? && Leads(other, key)
      ensures LedThrough(flat, key)
    {
      GetAt(flat, other);
    }
  }

  /** Keys that all occur in one of two plain documents can be nested. */
  lemma KeysOfTwo(flat: Flat, a: Doc, b: Doc)
    requires Distinct(flat) && Plain(a) && Plain(b)
    requires forall k :: Get(flat, k).Some? ==> Get(FlattenJson(a), k).Some? || Get(FlattenJson(b), k).Some?
    ensures FlatKeys(flat)
  {
    forall j | 0 <= j < |flat|
      ensures forall i :: 0 <= i < |Split(flat[j].0)| ==> Split(flat[j].0)[i] != "" && Dotless(Split(flat[j].0)[i])
    {
      GetAt(flat, flat[j].0);
      if Get(FlattenJson(a), flat[j].0).Some? {
        PlainKeys(a, flat[j].0);
      } else {
        PlainKeys(b, flat[j].0);
      }
    }
  }

  ghost predicate Injective(f: string -> string) {
    forall a, b :: f(a) == f(b) ==> a == b
  }

  /** A target holds the translation of every string of the source, and nothing else. */
  ghost predicate TargetFor(target: Doc, translate: string -> string, source: Doc) {
    Plain(target) && Maps(FlattenJson(target), translate, FlattenJson(source))
  }

  /** The cache holds the hash of every string of the source, and nothing else. */
  ghost predicate CacheFor(cache: Flat, hash: string -> string, source: Doc) {
    Distinct(cache) && Maps(cache, hash, FlattenJson(source))
  }

  /** What a run starts from: a cache made for the source `was`, and the source `now`. */
  ghost predicate Prepared(cache: Flat, hash: string -> string, was: Doc, now: Doc) {
    Injective(hash) && CacheFor(cache, hash, was) && Plain(was) && Plain(now)
  }

  /** What changes between the source the cache was made for and the source now, key by key. */
  lemma DiffMeaning(cache: Flat, hash: string -> string, was: Doc, now: Doc, k: string)
    requires Prepared(cache, hash, was, now)
    ensures var (old_, new_) := (Get(FlattenJson(was), k), Get(FlattenJson(now), k));
            && Get(ChangedKeys(FlattenJson(now), cache, hash), k) == (if old_ == new_ then None else new_)
            && (k in DeletedKeys(FlattenJson(now), cache) <==> old_.Some? && new_.None?)
  {
    FlattenMeaning(was);
    FlattenMeaning(now);
    ChangedGet(FlattenJson(now), cache, hash, k);
    DeletedExactly(FlattenJson(now), cache, k);
    assert Get(cache, k) == MapValue(hash, Get(FlattenJson(was), k));
  }

  /** What is at a key after an update: the old translation where the sources agree, else the new one. */
  function Updated(was: Flat, old_: Flat, now: Flat, translate: string -> string, k: string): Option<string> {
    MapValue(translate, if Get(was, k) == Get(now, k) then Get(old_, k) else Get(now, k))
  }

  lemma UpdatedGet(target: Doc, translate: string -> string, cache: Flat, hash: string -> string,
                   was: Doc, old_: Doc, now: Doc, k: string)
    requires Prepared(cache, hash, was, now) && TargetFor(target, translate, old_)
    ensures var source := FlattenJson(now);
            var updated := UpdatedFlat(FlattenJson(target), ChangedKeys(source, cache, hash),
                                       DeletedKeys(source, cache), translate, true);
            Distinct(updated) && Get(updated, k) == Updated(FlattenJson(was), FlattenJson(old_), source, translate, k)
  {
    var source, flat := FlattenJson(now), FlattenJson(target);
    var changed, deleted := ChangedKeys(source, cache, hash), DeletedKeys(source, cache);
    FlattenMeaning(target);
    FlattenMeaning(now);
    ChangedDistinct(source, cache, hash);
    PopAllDistinct(flat, deleted);
    TranslateAllDistinct(changed, translate);
    PutAllDistinct(PopAll(flat, deleted), TranslateAll(changed, translate));
    DiffMeaning(cache, hash, was, now, k);
    PopAllGet(flat, deleted, k);
    GetPutAll(PopAll(flat, deleted), TranslateAll(changed, translate), k);
    TranslateAllGet(changed, translate, k);
  }

  /** The file after the run, key by key: nesting drops the keys to which others lead. */
  lemma WrittenGet(target: Doc, translate: string -> string, cache: Flat, hash: string -> string,
                   was: Doc, old_: Doc, now: Doc, updated: Flat)
    requires Prepared(cache, hash, was, now) && TargetFor(target, translate, old_)
    requires updated == UpdatedFlat(FlattenJson(target), ChangedKeys(FlattenJson(now), cache, hash),
                                    DeletedKeys(FlattenJson(now), cache), translate, true)
    ensures var after := TargetAfter(target, FlattenJson(now), cache, hash, translate, true);
            && Plain(after)
            && forall k :: Get(FlattenJson(after), k) == if LedThrough(updated, k) then None else Get(updated, k)
    ensures forall k :: Get(updated, k) == Updated(FlattenJson(was), FlattenJson(old_), FlattenJson(now), translate, k)
  {
    forall k: string
      ensures Distinct(updated)
      ensures Get(updated, k) == Updated(FlattenJson(was), FlattenJson(old_), FlattenJson(now), translate, k)
    {
      UpdatedGet(target, translate, cache, hash, was, old_, now, k);
    }
    assert Get(updated, "") == Get(updated, "");
    if ChangedKeys(FlattenJson(now), cache, hash) == [] && DeletedKeys(FlattenJson(now), cache) == [] {
      assert updated == FlattenJson(target);
      forall k: string
        ensures Get(updated, k) == if LedThrough(updated, k) then None else Get(updated, k)
      {
        if Get(updated, k).Some? {
          PlainKeys(target, k);
        }
      }
    } else {
      KeysOfTwo(updated, target, now);
      UnflattenIsPlain(updated);
      forall k: string
        ensures Get(FlattenJson(UnflattenDict(updated)), k) == if LedThrough(updated, k) then None else Get(updated, k)
      {
        SurvivingKeys(updated, k);
      }
    }
  }

  /**
   Wherever the new source agrees with the one the cache is for, the target's old source translates alike,
   or left a string that nesting drops because a key of the new source leads to it.
   */
  ghost predicate Harmless(was: Flat, old_: Flat, now: Flat, translate: string -> string) {
    forall k :: Get(was, k) == Get(now, k) ==>
      || MapValue(translate, Get(old_, k)) == MapValue(translate, Get(now, k))
      || (Get(now, k).None? && LedThrough(now, k))
  }

  ghost predicate UpdatedFrom(updated: Flat, was: Flat, old_: Flat, now: Flat, translate: string -> string) {
    && Distinct(updated)
    && (forall k :: Get(updated, k) == Updated(was, old_, now, translate, k))
    && (forall k :: Get(now, k).Some? ==> !LedThrough(now, k))
  }

  lemma HarmlessIsRight(updated: Flat, was: Flat, old_: Flat, now: Flat, translate: string -> string, k: string)
    requires UpdatedFrom(updated, was, old_, now, translate) && Harmless(was, old_, now, translate)
    ensures (if LedThrough(updated, k) then None else Get(updated, k)) == MapValue(translate, Get(now, k))
  {
    if Get(now, k).None? && Get(updated, k).Some? {
      LedThroughGet(now, k);
      var other :| Get(now, other).Some? && Leads(other, k);
      LedThroughGet(updated, k);
      assert Get(updated, other).Some?;
    }
    if LedThrough(updated, k) {
      var other := LeadingSurvivor(updated, k);
      LedThroughGet(now, k);
      LedThroughGet(now, other);
      if Get(now, other).None? {
        var first :| Get(now, first).Some? && Leads(first, other);
        assert Leads(first, k);
      }
    }
  }

  lemma RightIsHarmless(updated: Flat, was: Flat, old_: Flat, now: Flat, translate: string -> string, k: string)
    requires UpdatedFrom(updated, was, old_, now, translate) && Get(was, k) == Get(now, k)
    requires forall x :: (if LedThrough(updated, x) then None else Get(updated, x)) == MapValue(translate, Get(now, x))
    ensures MapValue(translate, Get(old_, k)) == MapValue(translate, Get(now, k))
            || (Get(now, k).None? && LedThrough(now, k))
  {
    if LedThrough(updated, k) {
      var other := LeadingSurvivor(updated, k);
      assert Get(now, other).Some?;
      LedThroughGet(now, k);
    }
  }

  /**
   A run that stopped on a source which was then edited again: a target file it had reached is brought up
   to date exactly when the abandoned edit was harmless.
   */
  lemma AbandonedEdit(target: Doc, translate: string -> string, cache: Flat, hash: string -> string,
                      was: Doc, abandoned: Doc, now: Doc)
    requires Prepared(cache, hash, was, now) && TargetFor(target, translate, abandoned)
    ensures TargetFor(TargetAfter(target, FlattenJson(now), cache, hash, translate, true), translate, now)
            <==> Harmless(FlattenJson(was), FlattenJson(abandoned), FlattenJson(now), translate)
  {
    var source, first, middle := FlattenJson(now), FlattenJson(was), FlattenJson(abandoned);
    var updated := UpdatedFlat(FlattenJson(target), ChangedKeys(source, cache, hash), DeletedKeys(source, cache),
                               translate, true);
    UpdatedGet(target, translate, cache, hash, was, abandoned, now, "");
    WrittenGet(target, translate, cache, hash, was, abandoned, now, updated);
    forall k | Get(source, k).Some?
      ensures !LedThrough(source, k)
    {
      PlainKeys(now, k);
    }
    var after := TargetAfter(target, source, cache, hash, translate, true);
    if Harmless(first, middle, source, translate) {
      forall k: string
        ensures Get(FlattenJson(after), k) == MapValue(translate, Get(source, k))
      {
        HarmlessIsRight(updated, first, middle, source, translate, k);
      }
    }
    if TargetFor(after, translate, now) {
      forall x: string
        ensures (if LedThrough(updated, x) then None else Get(updated, x)) == MapValue(translate, Get(source, x))
      {
        assert Get(FlattenJson(after), x) == MapValue(translate, Get(source, x));
      }
      forall k | Get(first, k) == Get(source, k)
        ensures MapValue(translate, Get(middle, k)) == MapValue(translate, Get(source, k))
                || (Get(source, k).None? && LedThrough(source, k))
      {
        RightIsHarmless(updated, first, middle, source, translate, k);
      }
    }
  }

  /** A target for either source becomes a target for the new one. */
  lemma UpdateMakesTarget(target: Doc, translate: string -> string, cache: Flat, hash: string -> string,
                          was: Doc, now: Doc, apiKey: bool)
    requires Prepared(cache, hash, was, now)
    requires TargetFor(target, translate, was) || TargetFor(target, translate, now)
    requires apiKey || ChangedKeys(FlattenJson(now), cache, hash) == []
    ensures TargetFor(TargetAfter(target, FlattenJson(now), cache, hash, translate, apiKey), translate, now)
  {
    if TargetFor(target, translate, was) {
      AbandonedEdit(target, translate, cache, hash, was, was, now);
    } else {
      AbandonedEdit(target, translate, cache, hash, was, now, now);
    }
  }

  /** The failing case: an edit from `x` to `y` that reached a target is reverted, and the target keeps `y`. */
  lemma RevertedEdit(x: string, y: string, translate: string -> string, hash: string -> string)
    requires translate(x) != translate(y)
    ensures var cache := [("key", hash(x))];
            && CacheFor(cache, hash, OneKey(x)) && TargetFor(OneKey(translate(y)), translate, OneKey(y))
            && TargetAfter(OneKey(translate(y)), FlattenJson(OneKey(x)), cache, hash, translate, true)
               == OneKey(translate(y))
            && !TargetFor(OneKey(translate(y)), translate, OneKey(x))
  {
    FlatOne(x);
    FlatOne(y);
    FlatOne(translate(y));
    OneMaps(x, hash);
    OneMaps(y, translate);
    NothingForOne(x, hash);
    assert Get([("key", translate(y))], "key") != MapValue(translate, Get([("key", x)], "key"));
  }

  function OneKey(text: string): Doc {
    [Entry("key", Leaf(Text(text)))]
  }

  lemma OneMaps(x: string, f: string -> string)
    ensures Maps([("key", f(x))], f, [("key", x)]) && Distinct([("key", f(x))])
  {
    forall k: string
      ensures Get([("key", f(x))], k) == MapValue(f, Get([("key", x)], k))
    {
      assert [("key", f(x))][1..] == [] && [("key", x)][1..] == [];
    }
  }

  lemma NothingForOne(x: string, hash: string -> string)
    ensures ChangedKeys([("key", x)], [("key", hash(x))], hash) == []
    ensures DeletedKeys([("key", x)], [("key", hash(x))]) == []
  {
    assert [("key", hash(x))][1..] == [] && [("key", x)][1..] == [];
  }

  lemma FlatOne(x: string)
    ensures FlattenJson(OneKey(x)) == [("key", x)] && Plain(OneKey(x))
  {
    var doc := OneKey(x);
    assert doc[1..] == [];
    assert Flatten(doc, "", []) == Flatten(doc[1..], "", FlattenNode(doc[0].value, "key", []));
  }

  /** Nothing to do means that the strings are those the cache was made for. */
  lemma NothingToDo(cache: Flat, hash: string -> string, was: Doc, now: Doc)
    requires Prepared(cache, hash, was, now)
    requires ChangedKeys(FlattenJson(now), cache, hash) == [] && DeletedKeys(FlattenJson(now), cache) == []
    ensures SameDict(FlattenJson(was), FlattenJson(now)) && CacheFor(cache, hash, now)
  {
    forall k: string
      ensures Get(FlattenJson(was), k) == Get(FlattenJson(now), k)
    {
      DiffMeaning(cache, hash, was, now, k);
    }
  }

  lemma NewCacheFor(cache: Flat, hash: string -> string, was: Doc, now: Doc, newCache: Flat, apiKey: bool)
    requires Prepared(cache, hash, was, now) && Distinct(newCache)
    requires apiKey || ChangedKeys(FlattenJson(now), cache, hash) == []
    requires forall k :: Get(newCache, k) ==
               if Get(FlattenJson(now), k).None? then None
               else if Get(ChangedKeys(FlattenJson(now), cache, hash), k).Some? && apiKey
                 then MapValue(hash, Get(FlattenJson(now), k))
               else Get(cache, k)
    ensures CacheFor(newCache, hash, now)
  {
    forall k: string
      ensures Get(newCache, k) == MapValue(hash, Get(FlattenJson(now), k))
    {
      DiffMeaning(cache, hash, was, now, k);
    }
  }

  // ---------- runs ----------

  /** The target files after a run has reached the first `n` of them. */
  function Progress(targets: seq<Doc>, translate: seq<string -> string>, n: nat, source: Flat, cache: Flat,
                    hash: string -> string, apiKey: bool): (r: seq<Doc>)
    requires |targets| == |translate|
    ensures |r| == |targets|
    ensures forall i :: 0 <= i < |r| ==>
              r[i] == if i < n then TargetAfter(targets[i], source, cache, hash, translate[i], apiKey) else targets[i]
  {
    seq(|targets|, i requires 0 <= i < |targets| =>
      if i < n then TargetAfter(targets[i], source, cache, hash, translate[i], apiKey) else targets[i])
  }

  /** Each target is for one of the two sources. */
  ghost predicate ForEither(targets: seq<Doc>, translate: seq<string -> string>, was: Doc, now: Doc)
    requires |targets| == |translate|
  {
    forall i :: 0 <= i < |targets| ==>
      TargetFor(targets[i], translate[i], was) || TargetFor(targets[i], translate[i], now)
  }

  lemma ProgressForEither(targets: seq<Doc>, translate: seq<string -> string>, n: nat, cache: Flat,
                          hash: string -> string, was: Doc, now: Doc, apiKey: bool)
    requires |targets| == |translate| && Prepared(cache, hash, was, now) && ForEither(targets, translate, was, now)
    requires apiKey || ChangedKeys(FlattenJson(now), cache, hash) == []
    ensures var after := Progress(targets, translate, n, FlattenJson(now), cache, hash, apiKey);
            && ForEither(after, translate, was, now)
            && (n >= |targets| ==> ForEither(after, translate, now, now))
  {
    forall i | 0 <= i < |targets|
      ensures TargetFor(TargetAfter(targets[i], FlattenJson(now), cache, hash, translate[i], apiKey), translate[i], now)
    {
      UpdateMakesTarget(targets[i], translate[i], cache, hash, was, now, apiKey);
    }
  }

  /** The target files, one for each locale, and the cache file. */
  class Project {
    const translate: seq<string -> string>
    const hash: string -> string
    var targets: seq<Doc>
    var cache: Flat

    /** The cache is for the source `was`; each target is for `was` or, after a run that stopped, for `now`. */
    ghost predicate Between(was: Doc, now: Doc)
      reads this
    {
      |targets| == |translate| && Prepared(cache, hash, was, now) && ForEither(targets, translate, was, now)
    }

    /** Everything is as a translation of the whole source would leave it. */
    ghost predicate Settled(source: Doc)
      reads this
    {
      Between(source, source)
    }

    /** No cache and no target files yet. */
    constructor (translate: seq<string -> string>, hash: string -> string)
      requires Injective(hash)
      ensures Settled([]) && this.translate == translate && this.hash == hash
    {
      this.translate, this.hash := translate, hash;
      targets, cache := seq(|translate|, _ => []), [];
    }

    /** `update_one_target`. */
    method UpdateOneTarget(i: nat, changed: Flat, deleted: seq<string>, apiKey: bool)
      requires i < |targets| == |translate| && Distinct(changed)
      modifies this`targets
      ensures targets == old(targets)[i := UnflattenDict(
        UpdatedFlat(FlattenJson(old(targets)[i]), changed, deleted, translate[i], apiKey))]
    {
      var flat := FlattenJson(targets[i]);
      ghost var before := flat;
      for j := 0 to |deleted|
        invariant targets == old(targets)
        invariant PopAll(flat, deleted[j..]) == PopAll(before, deleted)
      {
        flat := Pop(flat, deleted[j]);
        assert deleted[j..][1..] == deleted[j + 1..];
      }
      if changed != [] && apiKey {
        var translated, requests := TranslateForLocale(changed, translate[i]);
        flat := PutAll(flat, translated);
      }
      var doc := Unflatten(flat);
      targets := targets[i := doc];
    }

    /** `apply_translations`; true when the run was stopped after `stop` targets. */
    method ApplyTranslations(changed: Flat, deleted: seq<string>, apiKey: bool, stop: nat, ghost flat: Flat)
      returns (stopped: bool)
      requires |targets| == |translate| && Distinct(changed) && (changed != [] || deleted != [])
      requires changed == ChangedKeys(flat, cache, hash) && deleted == DeletedKeys(flat, cache)
      modifies this`targets
      ensures stopped <==> stop <= |targets|
      ensures |targets| == |translate|
      ensures targets == Progress(old(targets), translate, stop, flat, cache, hash, apiKey)
    {
      for i := 0 to |targets|
        invariant |targets| == |translate| && i <= stop
        invariant targets == Progress(old(targets), translate, i, flat, cache, hash, apiKey)
      {
        if i == stop {
          return true;
        }
        UpdateOneTarget(i, changed, deleted, apiKey);
      }
      return stop == |targets|;
    }

    /**
     `main`: 0 is success, 1 means that there are changes but no API key, 2 that the run was stopped after
     `stop` targets (after all of them: before the cache was saved). `was` is the source that the cache was
     made for.
     */
    method Translate(source: Doc, apiKey: bool, stop: nat, ghost was: Doc) returns (code: nat)
      requires |targets| == |translate| && Prepared(cache, hash, was, source)
      modifies this
      ensures code <= 2 && |targets| == |translate|
      ensures code == 1 <==> !apiKey && exists k :: Get(FlattenJson(source), k).Some?
                                                   && Get(FlattenJson(source), k) != Get(FlattenJson(was), k)
      ensures code == 2 ==> stop <= |targets|
      ensures if code == 0 then CacheFor(cache, hash, source) else cache == old(cache)
      ensures var done := if code == 0 then |targets| else if code == 1 then 0 else stop;
              targets == Progress(old(targets), translate, done, FlattenJson(source), old(cache), hash, apiKey)
      ensures old(Between(was, source)) ==> if code == 0 then Settled(source) else Between(was, source)
    {
      var flat := FlattenJson(source);
      FlattenMeaning(source);
      var changed, deleted := ChangedKeys(flat, cache, hash), DeletedKeys(flat, cache);
      ChangedDistinct(flat, cache, hash);
      HasChanges(cache, hash, was, source);
      if changed == [] && deleted == [] {
        NothingToDo(cache, hash, was, source);
        SameTargets(targets, translate, was, source);
        assert targets == Progress(targets, translate, |targets|, flat, cache, hash, apiKey);
        return 0;
      }
      if !apiKey && changed != [] {
        assert targets == Progress(targets, translate, 0, flat, cache, hash, apiKey);
        return 1;
      }
      if ForEither(targets, translate, was, source) {
        ProgressForEither(targets, translate, stop, cache, hash, was, source, apiKey);
      }
      var stopped := ApplyTranslations(changed, deleted, apiKey, stop, flat);
      if stopped {
        return 2;
      }
      assert targets == Progress(old(targets), translate, |targets|, flat, cache, hash, apiKey);
      var newCache := BuildNewCache(flat, cache, changed, hash, apiKey);
      NewCacheFor(cache, hash, was, source, newCache, apiKey);
      cache := newCache;
      return 0;
    }
  }

  lemma SameTargets(targets: seq<Doc>, translate: seq<string -> string>, was: Doc, now: Doc)
    requires |targets| == |translate| && SameDict(FlattenJson(was), FlattenJson(now))
    ensures ForEither(targets, translate, was, now) ==> ForEither(targets, translate, now, now)
  {
  }

  lemma HasChanges(cache: Flat, hash: string -> string, was: Doc, now: Doc)
    requires Prepared(cache, hash, was, now)
    ensures ChangedKeys(FlattenJson(now), cache, hash) != [] <==>
            exists k :: Get(FlattenJson(now), k).Some? && Get(FlattenJson(now), k) != Get(FlattenJson(was), k)
  {
    var changed := ChangedKeys(FlattenJson(now), cache, hash);
    if changed != [] {
      DiffMeaning(cache, hash, was, now, changed[0].0);
    } else {
      forall k: string
        ensures !(Get(FlattenJson(now), k).Some? && Get(FlattenJson(now), k) != Get(FlattenJson(was), k))
      {
        DiffMeaning(cache, hash, was, now, k);
      }
    }
  }

  /** An edit of the source: runs that may be stopped or lack the API key, and then one that has neither trouble. */
  datatype Edit = Edit(source: Doc, attempts: seq<(bool, nat)>)

  /**
   Incremental equals full translation: over any sequence of edits, each target ends as the translator
   mapped over the whole last source, and the cache as its hashes.
   */
  method Replay(project: Project, first: Doc, edits: seq<Edit>)
    requires project.Settled(first) && forall i :: 0 <= i < |edits| ==> Plain(edits[i].source)
    modifies project
    ensures project.Settled(if edits == [] then first else edits[|edits| - 1].source)
  {
    ghost var was := first;
    for i := 0 to |edits|
      invariant was == if i == 0 then first else edits[i - 1].source
      invariant project.Settled(was)
    {
      var edit := edits[i];
      for j := 0 to |edit.attempts|
        invariant project.Between(was, edit.source)
      {
        var code := project.Translate(edit.source, edit.attempts[j].0, edit.attempts[j].1, was);
        if code == 0 {
          was := edit.source;
        }
      }
      var code := project.Translate(edit.source, true, |project.targets| + 1, was);
      assert code == 0;
      was := edit.source;
    }
  }
}
