/**
 `has_duplicates`, which is documented to look through all nested dictionaries but stops at the
 first nested one it meets at each level. It reads the counts of the keys, not the keys.
 */
module VdfDuplicates {
  import opened Outcomes
  import opened OrderedPairs
  import opened VdfDict

  /** A value of a dictionary: not a dictionary, a plain dict, or a VDFDict with its counts and its keys. */
  datatype Value =
    | Scalar
    | Plain(values: seq<Value>)
    | Multi(kcount: map<string, int>, keys: seq<string>, values: seq<Value>)

  predicate HasDuplicates(kcount: map<string, int>, values: seq<Value>)
    decreases values, 1
  {
    SomeNotOnce(kcount) || Recurse(values)
  }

  predicate Recurse(values: seq<Value>)
    decreases values, 0
  {
    if values == [] then false
    else
      match values[0]
      case Scalar => Recurse(values[1..])
      case Plain(inner) => Recurse(inner)
      case Multi(kcount, _, inner) => HasDuplicates(kcount, inner) || Recurse(inner)
  }

  /** The first nested dictionary, the first one inside that, and so on. */
  function FirstNested(values: seq<Value>): seq<Value> {
    if values == [] then []
    else if values[0].Scalar? then FirstNested(values[1..])
    else [values[0]] + FirstNested(values[0].values)
  }

  /** Every nested dictionary, at any depth. */
  function AllNested(values: seq<Value>): seq<Value> {
    if values == [] then []
    else (if values[0].Scalar? then [] else [values[0]] + AllNested(values[0].values)) + AllNested(values[1..])
  }

  ghost predicate SomeRepeats(nested: seq<Value>) {
    exists v :: v in nested && v.Multi? && Repeats(v.keys)
  }

  ghost predicate SomeMiscount(nested: seq<Value>) {
    exists v :: v in nested && v.Multi? && SomeNotOnce(v.kcount)
  }

  /** The counts of every dictionary agree with its keys. Whatever is done with string keys keeps them so. */
  ghost predicate CountsRight(nested: seq<Value>) {
    forall v :: v in nested && v.Multi? ==> CountsAgree(v.kcount, v.keys)
  }

  /** What the search reports, exactly: counts other than one along the chain of first nested dictionaries. */
  lemma {:induction false} RecurseExactly(values: seq<Value>)
    ensures Recurse(values) <==> SomeMiscount(FirstNested(values))
  {
    if values == [] {
    } else if values[0].Scalar? {
      RecurseExactly(values[1..]);
    } else {
      var inner := FirstNested(values[0].values);
      RecurseExactly(values[0].values);
      assert forall v :: v in FirstNested(values) <==> v == values[0] || v in inner;
    }
  }

  /**
   Where the counts are right, `has_duplicates` reports the repeated keys of the dictionary itself and
   of that chain, and no others.
   */
  lemma HasDuplicatesExactly(kcount: map<string, int>, keys: seq<string>, values: seq<Value>)
    requires CountsAgree(kcount, keys) && CountsRight(FirstNested(values))
    ensures HasDuplicates(kcount, values) <==> Repeats(keys) || SomeRepeats(FirstNested(values))
  {
    RecurseExactly(values);
    CountsTellRepeats(kcount, keys);
    forall v | v in FirstNested(values) && v.Multi?
      ensures SomeNotOnce(v.kcount) <==> Repeats(v.keys)
    {
      CountsTellRepeats(v.kcount, v.keys);
    }
  }

  lemma {:induction false} FirstAmongAll(values: seq<Value>, v: Value)
    requires v in FirstNested(values)
    ensures v in AllNested(values)
  {
    if values[0].Scalar? {
      FirstAmongAll(values[1..], v);
    } else if v != values[0] {
      FirstAmongAll(values[0].values, v);
    }
  }

  /** Where the counts are right, True is never wrong. */
  lemma HasDuplicatesSound(kcount: map<string, int>, keys: seq<string>, values: seq<Value>)
    requires CountsAgree(kcount, keys) && CountsRight(AllNested(values)) && HasDuplicates(kcount, values)
    ensures Repeats(keys) || SomeRepeats(AllNested(values))
  {
    forall v | v in FirstNested(values)
      ensures v in AllNested(values)
    {
      FirstAmongAll(values, v);
    }
    HasDuplicatesExactly(kcount, keys, values);
  }

  /** False can be wrong: duplicates in the second of two nested dictionaries are missed. */
  lemma HasDuplicatesIncomplete()
    ensures var values := [Multi(map[], [], []), Multi(map["k" := 2], ["k", "k"], [Scalar, Scalar])];
            !HasDuplicates(map["a" := 1, "b" := 1], values) && SomeRepeats(AllNested(values))
  {
    var second := Multi(map["k" := 2], ["k", "k"], [Scalar, Scalar]);
    var values := [Multi(map[], [], []), second];
    assert !Recurse([]);
    assert second.keys[0] == second.keys[1];
    assert values[1..] == [second];
    assert AllNested([second]) == [second] + AllNested(second.values) + AllNested([second][1..]);
    assert second in AllNested([second]);
    assert AllNested(values) == [values[0]] + AllNested(values[0].values) + AllNested([second]);
  }

  /** And True can be wrong where the counts are: after a set by a tuple, one pair is reported as duplicates. */
  method TupleSetMiscounts() returns (reported: bool, keys: seq<string>)
    ensures reported && keys == ["a"] && !Repeats(keys)
  {
    var d := new VDFDict(Some([("a", "1")]));
    ghost var ps := d.Items();
    assert Keys(ps) == ["a"];
    NthIs(["a"], 0, "a");
    var ok := d.SetAt(0, "a", "2");
    assert Keys(Replace(ps, 0, "a", "2")) == ["a"];
    return HasDuplicates(d.kcount, []), NameKeys(d.omap);
  }
}
