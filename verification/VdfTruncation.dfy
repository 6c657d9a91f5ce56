/** What a binary VDF file that was cut short loads to: an error, or whole leading pairs of the top level. */
module VdfTruncation {
  import opened Outcomes
  import opened Bytes
  import opened VdfTree
  import opened VdfStack
  import opened VdfBinary

  lemma {:induction false} NoNul(b: bytes)
    requires 0 !in b
    ensures TakeString(b) == None
  {
    assert Nul(b) == |b|;
  }

  lemma CutPayload(f: Format, l: Leaf_, m: nat)
    requires InRange(l) && (l.Text? ==> '\0' !in l.text) && m < |Payload(l)|
    ensures TakeLeaf(f, Tag(l), Payload(l)[..m]).Err?
  {
    if l.Text? {
      assert Payload(l)[..m] == Utf8(l.text)[..m];
      NoNul(Payload(l)[..m]);
    }
  }

  lemma CutKey(key: bytes, tail: bytes, n: nat)
    requires 0 !in key && n <= |key| + 1 + |tail|
    ensures var cut := (key + [0] + tail)[..n];
            TakeString(cut) == if n <= |key| then None else Some((key, tail[..n - |key| - 1]))
  {
    var cut := (key + [0] + tail)[..n];
    if n <= |key| {
      assert cut == key[..n];
      NoNul(cut);
    } else {
      var rest := tail[..n - |key| - 1];
      assert cut == key + [0] + rest;
      NulAt(key, rest);
      assert cut[..|key|] == key && cut[|key| + 1..] == rest;
    }
  }

  lemma CutTag(tag: byte, body: bytes, n: nat)
    requires 0 < n <= 1 + |body|
    ensures ([tag] + body)[..n] == [tag] + body[..n - 1]
  {
  }

  ghost predicate LeadsToError(f: Format, r: Result<(State, bytes), LoadError>) {
    r.Err? || LoadFrom(f, r.value.1, r.value.0).Err?
  }

  /** The bytes of a pair after its type byte, cut inside the key or after it. */
  lemma CutBody(f: Format, key: string, tag: byte, tail: bytes, n: nat, st: State)
    requires Inverts(f.decode) && '\0' !in key && n <= |Utf8(key)| + 1 + |tail|
    ensures LoadPair(f, tag, (Utf8(key) + [0] + tail)[..n], st) ==
            if n <= |Utf8(key)| then Err(Unterminated) else LoadValue(f, tag, key, tail[..n - |Utf8(key)| - 1], st)
  {
    CutKey(Utf8(key), tail, n);
  }

  lemma StepToError(f: Format, tag: byte, b: bytes, st: State)
    requires tag != End(f.alt) && LeadsToError(f, LoadPair(f, tag, b, st))
    ensures LoadFrom(f, [tag] + b, st).Err?
  {
    LoadStep(f, tag, b, st);
  }

  lemma CutAny(f: Format, tag: byte, body: bytes, n: nat, st: State)
    requires tag != End(f.alt) && 0 < n <= 1 + |body| && LeadsToError(f, LoadPair(f, tag, body[..n - 1], st))
    ensures LoadFrom(f, ([tag] + body)[..n], st).Err?
  {
    CutTag(tag, body, n);
    StepToError(f, tag, body[..n - 1], st);
  }

  lemma CutLeaf(f: Format, key: string, l: Leaf_, m: nat, st: State)
    requires InRange(l) && (l.Text? ==> '\0' !in l.text) && m < |Payload(l)|
    ensures LeadsToError(f, LoadValue(f, Tag(l), key, Payload(l)[..m], st))
  {
    CutPayload(f, l, m);
  }

  lemma {:induction false} CutTable(f: Format, key: string, sub: Doc, tail: bytes, m: nat, st: State)
    requires Inverts(f.decode) && Carried(sub) && AllInRange(sub) && m < |tail|
    requires tail == DumpEntries(sub, f.alt) + [End(f.alt)]
    ensures LeadsToError(f, LoadValue(f, BIN_NONE, key, tail[..m], st))
    decreases sub, 1
  {
    assert tail[..m] == DumpEntries(sub, f.alt)[..m];
    if !st.onLeaf {
      CutPairs(f, sub, m, State(st.s, true));
      CutPairs(f, sub, m, State(Enter(f.mode, st.s, key), false));
    }
  }

  lemma CutLeafBody(f: Format, key: string, l: Leaf_, n: nat, st: State)
    requires Inverts(f.decode) && '\0' !in key && InRange(l) && (l.Text? ==> '\0' !in l.text)
    requires n < |Utf8(key)| + 1 + |Payload(l)|
    ensures LeadsToError(f, LoadPair(f, Tag(l), (Utf8(key) + [0] + Payload(l))[..n], st))
  {
    if n > |Utf8(key)| {
      CutLeaf(f, key, l, n - |Utf8(key)| - 1, st);
    }
    CutBody(f, key, Tag(l), Payload(l), n, st);
  }

  lemma TableBody(f: Format, key: string, tail: bytes, n: nat, st: State)
    requires Inverts(f.decode) && '\0' !in key && n <= |Utf8(key)| + 1 + |tail|
    requires n > |Utf8(key)| ==> LeadsToError(f, LoadValue(f, BIN_NONE, key, tail[..n - |Utf8(key)| - 1], st))
    ensures LeadsToError(f, LoadPair(f, BIN_NONE, (Utf8(key) + [0] + tail)[..n], st))
  {
    CutBody(f, key, BIN_NONE, tail, n, st);
  }

  /** A pair as its type byte and the rest, which is refused wherever it is cut. */
  lemma {:induction false} CutEntry(f: Format, e: Entry<Leaf_>, n: nat, st: State) returns (tag: byte, body: bytes)
    requires Inverts(f.decode) && Carried([e]) && AllInRange([e])
    requires n + 1 < |DumpEntry(e, f.alt)|
    ensures DumpEntry(e, f.alt) == [tag] + body && tag != End(f.alt)
    ensures LeadsToError(f, LoadPair(f, tag, body[..n], st))
    decreases e, 1
  {
    match e.value {
      case Leaf(l) =>
        tag, body := Tag(l), Utf8(e.key) + [0] + Payload(l);
        CutLeafBody(f, e.key, l, n, st);
      case Table(sub) =>
        var tail := DumpEntries(sub, f.alt) + [End(f.alt)];
        tag, body := BIN_NONE, Utf8(e.key) + [0] + tail;
        if n > |Utf8(e.key)| {
          CutTable(f, e.key, sub, tail, n - |Utf8(e.key)| - 1, st);
        }
        TableBody(f, e.key, tail, n, st);
    }
  }

  /** A pair cut anywhere inside is refused, whatever is open. */
  lemma {:induction false} CutPair(f: Format, e: Entry<Leaf_>, n: nat, st: State)
    requires Inverts(f.decode) && Carried([e]) && AllInRange([e])
    requires 0 < n < |DumpEntry(e, f.alt)|
    ensures LoadFrom(f, DumpEntry(e, f.alt)[..n], st).Err?
    decreases e, 2
  {
    var tag, body := CutEntry(f, e, n - 1, st);
    CutAny(f, tag, body, n, st);
  }

  lemma CutOnLeaf(f: Format, b: bytes, s: Stack<Leaf_>)
    requires b != [] ==> b[0] != End(f.alt)
    ensures LoadFrom(f, b, State(s, true)).Err?
  {
  }

  /** `n` bytes end exactly between two of the pairs, or before the first or after the last. */
  predicate BetweenPairs(es: Doc, alt: bool, n: nat)
    requires AllInRange(es)
  {
    n == 0 || (es != [] && n >= |DumpEntry(es[0], alt)| && BetweenPairs(es[1..], alt, n - |DumpEntry(es[0], alt)|))
  }

  ghost predicate OkOnlyBetween(f: Format, es: Doc, n: nat, b: bytes, st: State)
    requires AllInRange(es)
  {
    LoadFrom(f, b, st).Ok? ==> !st.onLeaf && st.s.outer == [] && BetweenPairs(es, f.alt, n)
  }

  lemma CutSum(first: bytes, rest: bytes, n: nat)
    requires n <= |first + rest|
    ensures n <= |first| ==> (first + rest)[..n] == first[..n]
    ensures n >= |first| ==> (first + rest)[..n] == first + rest[..n - |first|]
  {
  }

  /** The first `n` bytes of pairs are accepted only at the top level, and only between pairs. */
  lemma {:induction false} CutPairs(f: Format, es: Doc, n: nat, st: State)
    requires Inverts(f.decode) && Carried(es) && AllInRange(es) && n <= |DumpEntries(es, f.alt)|
    ensures OkOnlyBetween(f, es, n, DumpEntries(es, f.alt)[..n], st)
    decreases es, 0
  {
    if n > 0 {
      var first, rest := DumpEntry(es[0], f.alt), DumpEntries(es[1..], f.alt);
      CutSum(first, rest, n);
      assert [es[0]][1..] == [];
      if st.onLeaf {
        CutOnLeaf(f, (first + rest)[..n], st.s);
      } else if n < |first| {
        CutPair(f, es[0], n, st);
      } else {
        LoadDumpedPair(f, es[0], rest[..n - |first|], st.s);
        var top := BinaryMergePair(f.mode, es[0], st.s.top);
        if top.Some? {
          CutPairs(f, es[1..], n - |first|, State(st.s.(top := top.value), false));
        }
      }
    }
  }

  lemma {:induction false} RunInRange(es: Doc, j: nat)
    requires AllInRange(es) && j <= |es|
    ensures AllInRange(es[..j])
  {
    if j > 0 {
      assert es[..j][1..] == es[1..][..j - 1];
      RunInRange(es[1..], j - 1);
    }
  }

  /** The number of whole pairs in the first `n` bytes. */
  function PairsWithin(es: Doc, alt: bool, n: nat): (j: nat)
    requires AllInRange(es)
    ensures j <= |es|
  {
    if es == [] || n < |DumpEntry(es[0], alt)| then 0
    else 1 + PairsWithin(es[1..], alt, n - |DumpEntry(es[0], alt)|)
  }

  /** Bytes that end between pairs are the dump of the pairs before the cut. */
  lemma {:induction false} PairsBefore(es: Doc, alt: bool, n: nat)
    requires AllInRange(es) && BetweenPairs(es, alt, n) && AllInRange(es[..PairsWithin(es, alt, n)])
    ensures n <= |DumpEntries(es, alt)|
    ensures DumpEntries(es, alt)[..n] == DumpEntries(es[..PairsWithin(es, alt, n)], alt)
  {
    var j := PairsWithin(es, alt, n);
    if es != [] {
      DumpedSome(es[0], alt);
    }
    if n > 0 {
      var first, rest, run := DumpEntry(es[0], alt), DumpEntries(es[1..], alt), es[1..][..j - 1];
      assert es[..j][0] == es[0] && es[..j][1..] == run;
      PairsBefore(es[1..], alt, n - |first|);
      CutSum(first, rest, n);
    }
  }

  lemma DumpedSome(e: Entry<Leaf_>, alt: bool)
    requires AllInRange([e])
    ensures |DumpEntry(e, alt)| > 0
  {
  }

  /**
   A file cut short anywhere is refused unless the cut falls between two pairs of the top
   level; then it loads to exactly the pairs before the cut.
   */
  lemma TruncationIsSafe(f: Format, es: Doc, n: nat)
    requires Inverts(f.decode) && Carried(es) && AllInRange(es) && Storable(f.mode, es)
    requires n < |BinaryDumps(es, f.alt).value|
    ensures var r := BinaryLoads(f, BinaryDumps(es, f.alt).value[..n]);
            if BetweenPairs(es, f.alt, n) then r == Ok(es[..PairsWithin(es, f.alt, n)]) else r.Err?
  {
    assert BinaryDumps(es, f.alt).value[..n] == DumpEntries(es, f.alt)[..n];
    CutPairs(f, es, n, EMPTY);
    if BetweenPairs(es, f.alt, n) {
      var run := es[..PairsWithin(es, f.alt, n)];
      RunInRange(es, |run|);
      PairsBefore(es, f.alt, n);
      CarriedRun(es, |run|);
      LoadDumped(f, run, [], Stack([], []));
      assert DumpEntries(run, f.alt) + [] == DumpEntries(run, f.alt);
      StorableRun(f.mode, es, |run|);
      BinaryMergeAppends(f.mode, run, []);
      assert [] + run == run;
    }
  }

  lemma StorableRun(mode: Mode, es: Doc, j: nat)
    requires Storable(mode, es) && j <= |es|
    ensures Storable(mode, es[..j]) && Apart(mode, es[..j], [])
  {
  }

  lemma {:induction false} CarriedRun(es: Doc, j: nat)
    requires Carried(es) && j <= |es|
    ensures Carried(es[..j])
  {
    if j > 0 {
      assert es[..j][1..] == es[1..][..j - 1];
      CarriedRun(es[1..], j - 1);
    }
  }
}
