/**
 Re-quoting of ASCII URIs (sections 2.1 and 6.2.2.2 of RFC 3986): unquote the unreserved characters,
 quote the illegal ones, and fall back to quoting everything when an escape makes no sense.
 */
module Requote {
  import opened Outcomes

  type Ascii = c: char | c as int < 128
  type Text = seq<Ascii>

  // ---------- characters ----------

  predicate IsAlnum(c: Ascii) {
    '0' <= c <= '9' || 'A' <= c <= 'Z' || 'a' <= c <= 'z'
  }

  /** `UNRESERVED_SET`. */
  predicate IsUnreserved(c: Ascii) {
    IsAlnum(c) || c == '-' || c == '.' || c == '_' || c == '~'
  }

  /** What `quote` leaves alone, with or without '%' in `safe`. */
  predicate IsSafe(c: Ascii, percent: bool) {
    || IsUnreserved(c)
    || c == '!' || c == '#' || c == '$' || c == '&' || c == '\'' || c == '(' || c == ')' || c == '*'
    || c == '+' || c == ',' || c == '/' || c == ':' || c == ';' || c == '=' || c == '?' || c == '@'
    || c == '[' || c == ']'
    || (percent && c == '%')
  }

  predicate IsHex(c: Ascii) {
    '0' <= c <= '9' || 'A' <= c <= 'F' || 'a' <= c <= 'f'
  }

  function HexValue(c: Ascii): (v: nat)
    requires IsHex(c)
    ensures v < 16
  {
    if c <= '9' then c as int - '0' as int
    else if c <= 'F' then c as int - 'A' as int + 10
    else c as int - 'a' as int + 10
  }

  function HexDigit(v: nat): (c: Ascii)
    requires v < 16
    ensures IsHex(c) && HexValue(c) == v
  {
    if v < 10 then ('0' as int + v) as char else ('A' as int + v - 10) as char
  }

  /** `int(h, 16)`. */
  function PairValue(a: Ascii, b: Ascii): (v: nat)
    requires IsHex(a) && IsHex(b)
    ensures v < 256
  {
    16 * HexValue(a) + HexValue(b)
  }

  /** `chr(v)`. */
  function Chr(v: nat): Ascii
    requires v < 128
  {
    v as char
  }

  predicate UnreservedValue(v: nat) {
    v < 128 && IsUnreserved(Chr(v))
  }

  // ---------- unquote, quote, requote ----------

  /** `uri.split("%")`. */
  function Split(s: Text): (parts: seq<Text>)
    ensures parts != []
  {
    if s == [] then [[]]
    else
      var rest := Split(s[1..]);
      if s[0] == '%' then [[]] + rest else [[s[0]] + rest[0]] + rest[1..]
  }

  /** A part that came after a '%'; None is InvalidURL. */
  function Fix(part: Text): Option<Text> {
    if |part| >= 2 && IsAlnum(part[0]) && IsAlnum(part[1]) then
      if !IsHex(part[0]) || !IsHex(part[1]) then None
      else if UnreservedValue(PairValue(part[0], part[1])) then Some([Chr(PairValue(part[0], part[1]))] + part[2..])
      else Some(['%'] + part)
    else Some(['%'] + part)
  }

  function Prepend(s: Text, r: Option<Text>): Option<Text> {
    if r.Some? then Some(s + r.value) else None
  }

  function FixAll(parts: seq<Text>): Option<Text> {
    if parts == [] then Some([])
    else
      var fixed := Fix(parts[0]);
      if fixed.None? then None else Prepend(fixed.value, FixAll(parts[1..]))
  }

  /** `unquote_unreserved`. */
  function Unquote(uri: Text): Option<Text> {
    var parts := Split(uri);
    Prepend(parts[0], FixAll(parts[1..]))
  }

  function Concat(parts: seq<Text>): Text {
    if parts == [] then [] else parts[0] + Concat(parts[1..])
  }

  lemma {:induction false} ConcatAppend(parts: seq<Text>, last: Text)
    ensures Concat(parts + [last]) == Concat(parts) + last
  {
    if parts == [] {
      assert parts + [last] == [last];
    } else {
      assert (parts + [last])[1..] == parts[1..] + [last];
      ConcatAppend(parts[1..], last);
    }
  }

  lemma FixOne(done: seq<Text>, part: Text, rest: seq<Text>)
    ensures Prepend(Concat(done), FixAll([part] + rest)) ==
            if Fix(part).None? then None else Prepend(Concat(done + [Fix(part).value]), FixAll(rest))
  {
    assert ([part] + rest)[1..] == rest;
    if Fix(part).Some? {
      ConcatAppend(done, Fix(part).value);
      if FixAll(rest).Some? {
        var now, later := Fix(part).value, FixAll(rest).value;
        assert Concat(done) + (now + later) == Concat(done) + now + later;
      }
    }
  }

  lemma Replace(parts: seq<Text>, i: nat, part: Text)
    requires i < |parts|
    ensures parts[i := part][..i + 1] == parts[..i] + [part] && parts[i := part][i + 1..] == parts[i + 1..]
  {
  }

  method UnquoteUnreserved(uri: Text) returns (r: Option<Text>)
    ensures r == Unquote(uri)
  {
    var parts: seq<Text> := Split(uri);
    ghost var done: seq<Text> := [parts[0]];
    ConcatAppend([], parts[0]);
    assert [] + [parts[0]] == done && [] + parts[0] == parts[0];
    for i := 1 to |parts|
      invariant |parts| == |Split(uri)| && parts[..i] == done && parts[i..] == Split(uri)[i..]
      invariant Unquote(uri) == Prepend(Concat(done), FixAll(Split(uri)[i..]))
    {
      var part: Text := parts[i];
      assert Split(uri)[i..] == [part] + Split(uri)[i + 1..];
      FixOne(done, part, Split(uri)[i + 1..]);
      var h: Text := if |part| < 2 then part else part[..2];
      if |h| == 2 && IsAlnum(h[0]) && IsAlnum(h[1]) {
        if !IsHex(h[0]) || !IsHex(h[1]) {
          return None;
        }
        var c := PairValue(h[0], h[1]);
        if UnreservedValue(c) {
          part := [Chr(c)] + part[2..];
        } else {
          part := ['%'] + part;
        }
      } else {
        part := ['%'] + part;
      }
      assert Fix(parts[i]) == Some(part);
      Replace(parts, i, part);
      parts := parts[i := part];
      done := done + [part];
    }
    assert parts == done && Concat(done) + [] == Concat(done);
    r := Some(Concat(parts));
  }

  lemma PrependTwice(a: Text, b: Text, r: Option<Text>)
    ensures Prepend(a, Prepend(b, r)) == Prepend(a + b, r)
  {
    if r.Some? {
      assert a + (b + r.value) == a + b + r.value;
    }
  }

  function QuoteChar(c: Ascii, percent: bool): Text {
    if IsSafe(c, percent) then [c] else ['%', HexDigit(c as int / 16), HexDigit(c as int % 16)]
  }

  /** `urllib.parse.quote` on ASCII. */
  function Quote(s: Text, percent: bool): Text {
    if s == [] then [] else QuoteChar(s[0], percent) + Quote(s[1..], percent)
  }

  /** `requote_uri`. */
  function Requote(uri: Text): Text {
    var unquoted := Unquote(uri);
    if unquoted.Some? then Quote(unquoted.value, true) else Quote(uri, false)
  }

  // ---------- what a URI says ----------

  /** Section 2.1 of RFC 3986: a '%' and two hex digits stand for an octet, other characters for themselves. */
  datatype Token = Plain(c: Ascii) | Escape(hi: Ascii, lo: Ascii)

  type Scanned = t: Token | t.Escape? ==> IsHex(t.hi) && IsHex(t.lo) witness Plain('a')

  function Tokens(s: Text): seq<Scanned> {
    if s == [] then []
    else if s[0] == '%' && |s| >= 3 && IsHex(s[1]) && IsHex(s[2]) then [Escape(s[1], s[2])] + Tokens(s[3..])
    else [Plain(s[0])] + Tokens(s[1..])
  }

  function Octet(t: Scanned): nat {
    match t
    case Plain(c) => c as int
    case Escape(a, b) => PairValue(a, b)
  }

  function Octets(ts: seq<Scanned>): (o: seq<nat>)
    ensures |o| == |ts|
  {
    seq(|ts|, i requires 0 <= i < |ts| => Octet(ts[i]))
  }

  /** The octets that a URI stands for. */
  function Decode(s: Text): seq<nat> {
    Octets(Tokens(s))
  }

  /** The characters of the text itself. */
  function Codes(s: Text): seq<nat> {
    seq(|s|, i requires 0 <= i < |s| => s[i] as int)
  }

  /** Section 2.4: no '%' but the start of an escape. */
  predicate WellFormed(s: Text) {
    s == [] || if s[0] == '%' then |s| >= 3 && IsHex(s[1]) && IsHex(s[2]) && WellFormed(s[3..]) else WellFormed(s[1..])
  }

  /** Two characters after a '%' that make it an escape of an unreserved character, or no escape at all. */
  predicate IsBad(a: Ascii, b: Ascii) {
    IsAlnum(a) && IsAlnum(b) && !(IsHex(a) && IsHex(b))
  }

  predicate IsRipe(a: Ascii, b: Ascii) {
    IsBad(a, b) || (IsHex(a) && IsHex(b) && UnreservedValue(PairValue(a, b)))
  }

  /** Some '%' is followed by a bad pair, where `unquote_unreserved` gives up. */
  predicate HasBad(s: Text) {
    s != [] && ((s[0] == '%' && |s| >= 3 && IsBad(s[1], s[2])) || HasBad(s[1..]))
  }

  /** Some '%' is followed by a pair that `unquote_unreserved` does not leave alone. */
  predicate HasRipe(s: Text) {
    s != [] && ((s[0] == '%' && |s| >= 3 && IsRipe(s[1], s[2])) || HasRipe(s[1..]))
  }

  // ---------- unquoting by parts is scanning from left to right ----------

  function Scan(s: Text): Option<Text> {
    if s == [] then Some([])
    else if s[0] == '%' && |s| >= 3 && IsAlnum(s[1]) && IsAlnum(s[2]) then
      if IsBad(s[1], s[2]) then None
      else if UnreservedValue(PairValue(s[1], s[2])) then Prepend([Chr(PairValue(s[1], s[2]))], Scan(s[3..]))
      else Prepend(['%', s[1], s[2]], Scan(s[3..]))
    else Prepend([s[0]], Scan(s[1..]))
  }

  lemma SplitPlain(s: Text)
    requires s != [] && s[0] != '%'
    ensures Split(s)[0] == [s[0]] + Split(s[1..])[0] && Split(s)[1..] == Split(s[1..])[1..]
    ensures Unquote(s) == Prepend([s[0]], Unquote(s[1..]))
  {
    PrependTwice([s[0]], Split(s[1..])[0], FixAll(Split(s[1..])[1..]));
  }

  lemma SplitPercent(s: Text)
    requires s != [] && s[0] == '%'
    ensures Split(s)[0] == [] && Split(s)[1..] == Split(s[1..])
  {
  }

  lemma FirstPart(s: Text)
    ensures |Split(s)[0]| >= 1 <==> s != [] && s[0] != '%'
    ensures |Split(s)[0]| >= 2 <==> |s| >= 2 && s[0] != '%' && s[1] != '%'
    ensures |Split(s)[0]| >= 1 ==> Split(s)[0][0] == s[0]
    ensures |Split(s)[0]| >= 2 ==> Split(s)[0][1] == s[1]
                                   && Split(s[2..])[0] == Split(s)[0][2..] && Split(s[2..])[1..] == Split(s)[1..]
  {
    if s != [] && s[0] != '%' {
      SplitPlain(s);
      if |s| >= 2 && s[1] != '%' {
        SplitPlain(s[1..]);
        assert s[1..][1..] == s[2..];
        assert Split(s)[0] == [s[0]] + ([s[1]] + Split(s[2..])[0]);
      }
    }
  }

  predicate AlnumPair(s: Text) {
    |s| >= 3 && IsAlnum(s[1]) && IsAlnum(s[2])
  }

  predicate RipePair(s: Text) {
    |s| >= 3 && IsHex(s[1]) && IsHex(s[2]) && UnreservedValue(PairValue(s[1], s[2]))
  }

  lemma UnquotePercent(s: Text)
    requires s != [] && s[0] == '%'
    ensures AlnumPair(s) && IsBad(s[1], s[2]) ==> Unquote(s) == None
    ensures RipePair(s) ==> Unquote(s) == Prepend([Chr(PairValue(s[1], s[2]))], Unquote(s[3..]))
    ensures !(AlnumPair(s) && IsBad(s[1], s[2])) && !RipePair(s) ==> Unquote(s) == Prepend(['%'], Unquote(s[1..]))
  {
    var rest := s[1..];
    var parts: seq<Text> := Split(rest);
    SplitPercent(s);
    FirstPart(rest);
    if FixAll(parts).Some? {
      assert [] + FixAll(parts).value == FixAll(parts).value;
    }
    PrependTwice(['%'], parts[0], FixAll(parts[1..]));
    if RipePair(s) {
      assert rest[2..] == s[3..];
      PrependTwice([Chr(PairValue(s[1], s[2]))], parts[0][2..], FixAll(parts[1..]));
    }
  }

  lemma {:induction false} UnquoteIsScan(s: Text)
    ensures Unquote(s) == Scan(s)
    decreases |s|
  {
    if s == [] {
      assert [] + FixAll([]).value == [];
    } else if s[0] != '%' {
      SplitPlain(s);
      UnquoteIsScan(s[1..]);
    } else {
      UnquotePercent(s);
      UnquoteIsScan(s[1..]);
      if RipePair(s) {
        UnquoteIsScan(s[3..]);
      } else if AlnumPair(s) && !IsBad(s[1], s[2]) {
        assert s[1..][2..] == s[3..];
        ScanPair(s[1..]);
        PrependTwice(['%'], [s[1], s[2]], Scan(s[3..]));
        assert ['%'] + [s[1], s[2]] == ['%', s[1], s[2]];
      }
    }
  }

  lemma ScanPair(s: Text)
    requires |s| >= 2 && s[0] != '%' && s[1] != '%'
    ensures Scan(s) == Prepend([s[0], s[1]], Scan(s[2..]))
  {
    assert s[1..][1..] == s[2..];
    PrependTwice([s[0]], [s[1]], Scan(s[2..]));
    assert [s[0]] + [s[1]] == [s[0], s[1]];
  }

  // ---------- requoting token by token ----------

  /** What requoting makes of a token, when it does not give up. */
  function Shown(t: Scanned): Text {
    match t
    case Plain(c) => QuoteChar(c, true)
    case Escape(a, b) => if UnreservedValue(PairValue(a, b)) then [Chr(PairValue(a, b))] else ['%', a, b]
  }

  function Show(ts: seq<Scanned>): Text {
    if ts == [] then [] else Shown(ts[0]) + Show(ts[1..])
  }

  lemma ShowFirst(t: Scanned, rest: seq<Scanned>)
    ensures Show([t] + rest) == Shown(t) + Show(rest)
  {
    assert ([t] + rest)[1..] == rest;
  }

  lemma QuoteFirst(c: Ascii, rest: Text, percent: bool)
    ensures Quote([c] + rest, percent) == QuoteChar(c, percent) + Quote(rest, percent)
  {
    assert ([c] + rest)[1..] == rest;
  }

  lemma SkipHexPair(s: Text)
    requires |s| >= 3 && IsHex(s[1]) && IsHex(s[2])
    ensures HasBad(s[1..]) == HasBad(s[3..]) && HasRipe(s[1..]) == HasRipe(s[3..])
  {
    assert s[1..][1..] == s[2..] && s[2..][1..] == s[3..];
  }

  lemma {:induction false} ScanIsShow(s: Text)
    ensures HasBad(s) <==> Scan(s) == None
    ensures !HasBad(s) ==> Quote(Scan(s).value, true) == Show(Tokens(s))
    decreases |s|
  {
    if s == [] {
    } else if s[0] == '%' && |s| >= 3 && IsHex(s[1]) && IsHex(s[2]) {
      SkipHexPair(s);
      ScanIsShow(s[3..]);
      ShowFirst(Escape(s[1], s[2]), Tokens(s[3..]));
      if Scan(s[3..]).Some? {
        var rest := Scan(s[3..]).value;
        if UnreservedValue(PairValue(s[1], s[2])) {
          QuoteFirst(Chr(PairValue(s[1], s[2])), rest, true);
        } else {
          QuotePair(s[1], s[2], rest);
        }
      }
    } else {
      ScanIsShow(s[1..]);
      ShowFirst(Plain(s[0]), Tokens(s[1..]));
      if Scan(s[1..]).Some? {
        QuoteFirst(s[0], Scan(s[1..]).value, true);
      }
    }
  }

  lemma QuotePair(a: Ascii, b: Ascii, rest: Text)
    requires IsHex(a) && IsHex(b)
    ensures Quote(['%', a, b] + rest, true) == ['%', a, b] + Quote(rest, true)
  {
    QuoteFirst(b, rest, true);
    QuoteFirst(a, [b] + rest, true);
    QuoteFirst('%', [a] + ([b] + rest), true);
    assert ['%', a, b] + rest == ['%'] + ([a] + ([b] + rest));
  }

  /** Requoting without giving up shows each token of the URI anew. */
  lemma RequoteIsShow(s: Text)
    ensures Requote(s) == if HasBad(s) then Quote(s, false) else Show(Tokens(s))
  {
    UnquoteIsScan(s);
    ScanIsShow(s);
  }

  // ---------- meaning ----------

  /** The character a token is shown as, unless it is shown as an escape. */
  function Single(t: Scanned): Option<Ascii> {
    if |Shown(t)| == 1 then Some(Shown(t)[0]) else None
  }

  predicate ClashesHere(ts: seq<Scanned>) {
    && |ts| >= 3 && ts[0] == Plain('%')
    && Single(ts[1]).Some? && IsHex(Single(ts[1]).value)
    && Single(ts[2]).Some? && IsHex(Single(ts[2]).value)
  }

  /** A stray '%' is followed by two characters, one of them escaped, that requoting makes two hex digits. */
  predicate Clashes(ts: seq<Scanned>) {
    ts != [] && (ClashesHere(ts) || Clashes(ts[1..]))
  }

  lemma FirstTwo(ts: seq<Scanned>)
    ensures var s := Show(ts);
            && (|s| >= 2 && IsAlnum(s[0]) && IsAlnum(s[1]) <==>
                  && |ts| >= 2 && Single(ts[0]).Some? && Single(ts[1]).Some?
                  && IsAlnum(Single(ts[0]).value) && IsAlnum(Single(ts[1]).value))
            && (|s| >= 2 && IsAlnum(s[0]) && IsAlnum(s[1]) ==>
                  Single(ts[0]).value == s[0] && Single(ts[1]).value == s[1] && s[2..] == Show(ts[2..]))
  {
    if |ts| >= 2 {
      assert ts[1..][1..] == ts[2..];
      assert Show(ts) == Shown(ts[0]) + (Shown(ts[1]) + Show(ts[2..]));
    }
  }

  lemma TokensPlain(c: Ascii, rest: Text)
    requires c != '%' || !(|rest| >= 2 && IsHex(rest[0]) && IsHex(rest[1]))
    ensures Tokens([c] + rest) == [Plain(c)] + Tokens(rest)
  {
    assert ([c] + rest)[1..] == rest;
  }

  lemma TokensEscape(a: Ascii, b: Ascii, rest: Text)
    requires IsHex(a) && IsHex(b)
    ensures Tokens(['%', a, b] + rest) == [Escape(a, b)] + Tokens(rest)
  {
    assert (['%', a, b] + rest)[3..] == rest;
  }

  lemma OctetsFirst(t: Scanned, rest: seq<Scanned>)
    ensures Octets([t] + rest) == [Octet(t)] + Octets(rest)
  {
  }

  /** A token that does not clash reads back as one token with the same octet. */
  lemma ShownReads(t: Scanned, rest: Text)
    requires t == Plain('%') ==> !(|rest| >= 2 && IsHex(rest[0]) && IsHex(rest[1]))
    ensures |Tokens(Shown(t) + rest)| == 1 + |Tokens(rest)|
    ensures Octets(Tokens(Shown(t) + rest)) == [Octet(t)] + Octets(Tokens(rest))
  {
    match t {
      case Plain(c) =>
        if IsSafe(c, true) {
          TokensPlain(c, rest);
          OctetsFirst(t, Tokens(rest));
        } else {
          EscapeReads(HexDigit(c as int / 16), HexDigit(c as int % 16), rest);
        }
      case Escape(a, b) =>
        if UnreservedValue(PairValue(a, b)) {
          TokensPlain(Chr(PairValue(a, b)), rest);
          OctetsFirst(Plain(Chr(PairValue(a, b))), Tokens(rest));
        } else {
          EscapeReads(a, b, rest);
        }
    }
  }

  lemma EscapeReads(a: Ascii, b: Ascii, rest: Text)
    requires IsHex(a) && IsHex(b)
    ensures |Tokens(['%', a, b] + rest)| == 1 + |Tokens(rest)|
    ensures Octets(Tokens(['%', a, b] + rest)) == [PairValue(a, b)] + Octets(Tokens(rest))
  {
    TokensEscape(a, b, rest);
    OctetsFirst(Escape(a, b), Tokens(rest));
  }

  lemma ClashMerges(ts: seq<Scanned>)
    requires ClashesHere(ts)
    ensures |Tokens(Show(ts))| == 1 + |Tokens(Show(ts[3..]))|
  {
    FirstTwo(ts[1..]);
    var s := Show(ts[1..]);
    assert ts[1..][2..] == ts[3..];
    assert Show(ts) == ['%', s[0], s[1]] + s[2..];
    TokensEscape(s[0], s[1], s[2..]);
  }

  lemma NoClashReads(ts: seq<Scanned>)
    requires ts != [] && !ClashesHere(ts)
    ensures |Tokens(Show(ts))| == 1 + |Tokens(Show(ts[1..]))|
    ensures Decode(Show(ts)) == [Octet(ts[0])] + Decode(Show(ts[1..]))
  {
    FirstTwo(ts[1..]);
    ShownReads(ts[0], Show(ts[1..]));
  }

  lemma {:induction false} ShowReads(ts: seq<Scanned>)
    ensures |Decode(Show(ts))| <= |ts|
    ensures !Clashes(ts) ==> Decode(Show(ts)) == Octets(ts)
    ensures Clashes(ts) ==> |Decode(Show(ts))| < |ts|
  {
    if ts == [] {
    } else if ClashesHere(ts) {
      ShowReads(ts[3..]);
      ClashMerges(ts);
    } else {
      ShowReads(ts[1..]);
      NoClashReads(ts);
      assert ts == [ts[0]] + ts[1..];
      OctetsFirst(ts[0], ts[1..]);
    }
  }

  lemma {:induction false} QuoteReads(s: Text)
    ensures Decode(Quote(s, false)) == Codes(s)
  {
    if s == [] {
    } else {
      QuoteReads(s[1..]);
      var rest := Quote(s[1..], false);
      if IsSafe(s[0], false) {
        TokensPlain(s[0], rest);
        OctetsFirst(Plain(s[0]), Tokens(rest));
      } else {
        EscapeReads(HexDigit(s[0] as int / 16), HexDigit(s[0] as int % 16), rest);
      }
      assert Codes(s) == [s[0] as int] + Codes(s[1..]);
    }
  }

  /**
   Meaning. When requoting gives up, the result stands for the characters of the URI themselves;
   otherwise it stands for the same octets exactly when no stray '%' clashes.
   */
  lemma RequoteMeaning(s: Text)
    ensures HasBad(s) ==> Decode(Requote(s)) == Codes(s)
    ensures !HasBad(s) ==> (Decode(Requote(s)) == Decode(s) <==> !Clashes(Tokens(s)))
  {
    RequoteIsShow(s);
    QuoteReads(s);
    ShowReads(Tokens(s));
  }

  // ---------- fixed points ----------

  predicate AllSafe(s: Text) {
    forall i :: 0 <= i < |s| ==> IsSafe(s[i], true)
  }

  lemma SameHead(head: Text, x: Text, y: Text)
    ensures head + x == head + y <==> x == y
  {
    if head + x == head + y {
      assert (head + x)[|head|..] == x && (head + y)[|head|..] == y;
    }
  }

  lemma OtherHead(a: Text, x: Text, b: Text, y: Text)
    requires a != [] && b != [] && a[0] != b[0]
    ensures a + x != b + y
  {
    assert (a + x)[0] != (b + y)[0];
  }

  lemma AllSafeParts(a: Text, b: Text)
    ensures AllSafe(a + b) <==> AllSafe(a) && AllSafe(b)
  {
    if AllSafe(a + b) {
      assert forall i :: 0 <= i < |a| ==> a[i] == (a + b)[i];
      assert forall i :: 0 <= i < |b| ==> b[i] == (a + b)[|a| + i];
    }
  }

  lemma FixedEscape(a: Ascii, b: Ascii, rest: Text)
    requires IsHex(a) && IsHex(b)
    ensures var s := ['%', a, b] + rest;
            && (HasBad(s) <==> HasBad(rest))
            && (Show(Tokens(s)) == s <==> !UnreservedValue(PairValue(a, b)) && Show(Tokens(rest)) == rest)
            && (AllSafe(s) && !HasRipe(s) <==> !UnreservedValue(PairValue(a, b)) && AllSafe(rest) && !HasRipe(rest))
  {
    var head, t := ['%', a, b], Escape(a, b);
    var s := head + rest;
    assert s[3..] == rest;
    SkipHexPair(s);
    TokensEscape(a, b, rest);
    ShowFirst(t, Tokens(rest));
    AllSafeParts(head, rest);
    if UnreservedValue(PairValue(a, b)) {
      OtherHead(Shown(t), Show(Tokens(rest)), head, rest);
    } else {
      SameHead(head, Show(Tokens(rest)), rest);
    }
  }

  lemma FixedPlain(c: Ascii, rest: Text)
    requires c != '%' || !(|rest| >= 2 && IsHex(rest[0]) && IsHex(rest[1]))
    requires !HasBad([c] + rest)
    ensures var s := [c] + rest;
            && !HasBad(rest)
            && (Show(Tokens(s)) == s <==> IsSafe(c, true) && Show(Tokens(rest)) == rest)
            && (AllSafe(s) && !HasRipe(s) <==> IsSafe(c, true) && AllSafe(rest) && !HasRipe(rest))
  {
    var s := [c] + rest;
    assert s[1..] == rest;
    TokensPlain(c, rest);
    ShowFirst(Plain(c), Tokens(rest));
    AllSafeParts([c], rest);
    if IsSafe(c, true) {
      SameHead([c], Show(Tokens(rest)), rest);
    } else {
      OtherHead(Shown(Plain(c)), Show(Tokens(rest)), [c], rest);
    }
  }

  lemma {:induction false} ShowFixed(s: Text)
    requires !HasBad(s)
    ensures Show(Tokens(s)) == s <==> AllSafe(s) && !HasRipe(s)
    decreases |s|
  {
    if s == [] {
    } else if s[0] == '%' && |s| >= 3 && IsHex(s[1]) && IsHex(s[2]) {
      assert s == ['%', s[1], s[2]] + s[3..];
      FixedEscape(s[1], s[2], s[3..]);
      ShowFixed(s[3..]);
    } else {
      assert s == [s[0]] + s[1..];
      FixedPlain(s[0], s[1..]);
      ShowFixed(s[1..]);
    }
  }

  lemma {:induction false} QuoteGrows(s: Text)
    ensures |Quote(s, false)| >= |s|
    ensures '%' in s ==> |Quote(s, false)| > |s|
  {
    if s != [] {
      QuoteGrows(s[1..]);
    }
  }

  lemma {:induction false} BadHasPercent(s: Text)
    ensures HasBad(s) ==> '%' in s && HasRipe(s)
  {
    if s != [] {
      BadHasPercent(s[1..]);
    }
  }

  /** Requoting leaves alone exactly the URIs of safe characters in which no '%' is followed by a ripe pair. */
  lemma FixedExactly(s: Text)
    ensures Requote(s) == s <==> AllSafe(s) && !HasRipe(s)
  {
    RequoteIsShow(s);
    BadHasPercent(s);
    if HasBad(s) {
      QuoteGrows(s);
    } else {
      ShowFixed(s);
    }
  }

  predicate RevivesHere(ts: seq<Scanned>) {
    && |ts| >= 3 && ts[0] == Plain('%')
    && Single(ts[1]).Some? && Single(ts[2]).Some?
    && IsRipe(Single(ts[1]).value, Single(ts[2]).value)
  }

  /** A stray '%' is followed by two characters, one of them escaped, that requoting makes a ripe pair. */
  predicate Revives(ts: seq<Scanned>) {
    ts != [] && (RevivesHere(ts) || Revives(ts[1..]))
  }

  lemma ShownShape(t: Scanned)
    ensures AllSafe(Shown(t))
    ensures var shown := Shown(t);
            || (|shown| == 1 && (shown[0] == '%' <==> t == Plain('%')))
            || (|shown| == 3 && shown[0] == '%' && IsHex(shown[1]) && IsHex(shown[2]) && !IsRipe(shown[1], shown[2]))
  {
  }

  lemma ShowRipeHere(ts: seq<Scanned>)
    requires ts != []
    ensures HasRipe(Show(ts)) <==> HasRipe(Show(ts[1..])) || RevivesHere(ts)
  {
    ShownShape(ts[0]);
    FirstTwo(ts[1..]);
    PrefixRipe(Shown(ts[0]), Show(ts[1..]));
  }

  lemma {:induction false} ShowRipe(ts: seq<Scanned>)
    ensures AllSafe(Show(ts))
    ensures HasRipe(Show(ts)) <==> Revives(ts)
  {
    if ts == [] {
    } else {
      ShowRipe(ts[1..]);
      ShownShape(ts[0]);
      AllSafeParts(Shown(ts[0]), Show(ts[1..]));
      ShowRipeHere(ts);
    }
  }

  lemma PrefixRipe(shown: Text, rest: Text)
    requires |shown| == 1 || (|shown| == 3 && shown[0] == '%' && IsHex(shown[1]) && IsHex(shown[2]))
    ensures HasRipe(shown + rest) <==>
            || HasRipe(rest)
            || (|shown| == 3 && IsRipe(shown[1], shown[2]))
            || (|shown| == 1 && shown[0] == '%' && |rest| >= 2 && IsRipe(rest[0], rest[1]))
  {
    var s := shown + rest;
    if |shown| == 1 {
      assert s[1..] == rest;
    } else {
      SkipHexPair(s);
      assert s[3..] == rest;
    }
  }

  lemma {:induction false} QuoteRipe(s: Text)
    ensures AllSafe(Quote(s, false)) && !HasRipe(Quote(s, false))
  {
    if s == [] {
    } else {
      QuoteRipe(s[1..]);
      PrefixRipe(QuoteChar(s[0], false), Quote(s[1..], false));
    }
  }

  /** Requoting twice is requoting once exactly when requoting gives up or revives no stray '%'. */
  lemma RequoteTwice(s: Text)
    ensures Requote(Requote(s)) == Requote(s) <==> HasBad(s) || !Revives(Tokens(s))
  {
    RequoteIsShow(s);
    FixedExactly(Requote(s));
    if HasBad(s) {
      QuoteRipe(s);
    } else {
      ShowRipe(Tokens(s));
    }
  }

  lemma {:induction false} WellFormedHasNoStray(s: Text)
    requires WellFormed(s)
    ensures !HasBad(s) && !Clashes(Tokens(s)) && !Revives(Tokens(s))
    decreases |s|
  {
    if s == [] {
    } else if s[0] == '%' {
      SkipHexPair(s);
      WellFormedHasNoStray(s[3..]);
      assert ([Escape(s[1], s[2])] + Tokens(s[3..]))[1..] == Tokens(s[3..]);
    } else {
      WellFormedHasNoStray(s[1..]);
      assert ([Plain(s[0])] + Tokens(s[1..]))[1..] == Tokens(s[1..]);
    }
  }

  /** A URI whose every '%' begins an escape keeps its octets, and its requoted form is a fixed point. */
  lemma RequoteWellFormed(s: Text)
    requires WellFormed(s)
    ensures Decode(Requote(s)) == Decode(s) && Requote(Requote(s)) == Requote(s)
  {
    WellFormedHasNoStray(s);
    RequoteMeaning(s);
    RequoteTwice(s);
  }

  /** When requoting gives up, the result stands for the raw characters and is a fixed point. */
  lemma RequoteFallback(s: Text)
    requires HasBad(s)
    ensures Unquote(s) == None && Decode(Requote(s)) == Codes(s) && Requote(Requote(s)) == Requote(s)
  {
    UnquoteIsScan(s);
    ScanIsShow(s);
    RequoteMeaning(s);
    RequoteTwice(s);
  }

  /** A stray '%' can do harm: the URI "%%341" becomes "%41", another octet, and then "A". */
  lemma StrayPercent()
    ensures var s: Text := ['%', '%', '3', '4', '1'];
            !HasBad(s) && Decode(Requote(s)) != Decode(s) && Requote(Requote(s)) != Requote(s)
  {
    var s: Text := ['%', '%', '3', '4', '1'];
    StrayTokens();
    StrayNotBad();
    RequoteMeaning(s);
    RequoteTwice(s);
    assert Single(Escape('3', '4')) == Some('4') && Single(Plain('1')) == Some('1');
  }

  lemma StrayNotBad()
    ensures !HasBad(['%', '%', '3', '4', '1'])
  {
    var s: Text := ['%', '%', '3', '4', '1'];
    assert s[1..] == ['%', '3', '4', '1'];
    assert s[1..][1..] == ['3', '4', '1'];
  }

  lemma StrayTokens()
    ensures Tokens(['%', '%', '3', '4', '1']) == [Plain('%'), Escape('3', '4'), Plain('1')]
  {
    TokensPlain('1', []);
    TokensEscape('3', '4', ['1']);
    TokensPlain('%', ['%', '3', '4', '1']);
    assert ['%', '3', '4'] + ['1'] == ['%', '3', '4', '1'] && ['1'] + [] == ['1'];
    assert ['%'] + ['%', '3', '4', '1'] == ['%', '%', '3', '4', '1'];
  }
}
