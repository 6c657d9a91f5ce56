/**
 Requoting character by character, with the characters of sections 2.1 to 2.3 of RFC 3986 listed: what becomes
 of every character and every escape of a URI.
 */
module RequoteText {
  import opened Requoting = Requote

  predicate Letter(c: Ascii) {
    'A' <= c <= 'Z' || 'a' <= c <= 'z'
  }

  /** Section 2.3. */
  predicate Unreserved(c: Ascii) {
    Letter(c) || '0' <= c <= '9' || c == '-' || c == '.' || c == '_' || c == '~'
  }

  /** Section 2.2: the delimiters. */
  predicate Reserved(c: Ascii) {
    || c == ':' || c == '/' || c == '?' || c == '#' || c == '[' || c == ']' || c == '@'
    || c == '!' || c == '$' || c == '&' || c == '\'' || c == '(' || c == ')' || c == '*' || c == '+' || c == ','
    || c == ';' || c == '='
  }

  /** Section 2.1. */
  predicate Hex(c: Ascii) {
    '0' <= c <= '9' || 'A' <= c <= 'F' || 'a' <= c <= 'f'
  }

  function Digit(v: nat): Ascii
    requires v < 16
  {
    if v < 10 then (v + 48) as char else (v + 55) as char
  }

  function DigitValue(c: Ascii): nat
    requires Hex(c)
  {
    if c <= '9' then c as int - 48 else if c <= 'F' then c as int - 55 else c as int - 87
  }

  /** The character that an escape stands for, when it is an unreserved one. */
  predicate StandsFor(hi: Ascii, lo: Ascii, c: Ascii) {
    Hex(hi) && Hex(lo) && Unreserved(c) && 16 * DigitValue(hi) + DigitValue(lo) == c as int
  }

  lemma Classes(c: Ascii)
    ensures IsUnreserved(c) <==> Unreserved(c)
    ensures IsSafe(c, true) <==> Unreserved(c) || Reserved(c) || c == '%'
    ensures IsSafe(c, false) <==> Unreserved(c) || Reserved(c)
    ensures IsHex(c) <==> Hex(c)
    ensures IsAlnum(c) <==> Letter(c) || '0' <= c <= '9'
    ensures Hex(c) ==> HexValue(c) == DigitValue(c)
  {
  }

  // ---------- what a URI is made of ----------

  /** The characters and escapes of a URI, from left to right. */
  function Read(s: Text): seq<Token> {
    if s == [] then []
    else if s[0] == '%' && |s| >= 3 && Hex(s[1]) && Hex(s[2]) then [Escape(s[1], s[2])] + Read(s[3..])
    else [Plain(s[0])] + Read(s[1..])
  }

  function Spelled(t: Token): Text {
    match t
    case Plain(c) => [c]
    case Escape(hi, lo) => ['%', hi, lo]
  }

  function Spell(ts: seq<Token>): Text {
    if ts == [] then [] else Spelled(ts[0]) + Spell(ts[1..])
  }

  /** Some '%' is followed by two letters or digits that are not both hexadecimal. */
  predicate Hopeless(s: Text) {
    s != [] &&
    (|| (s[0] == '%' && |s| >= 3 && (Letter(s[1]) || '0' <= s[1] <= '9') && (Letter(s[2]) || '0' <= s[2] <= '9')
         && !(Hex(s[1]) && Hex(s[2])))
     || Hopeless(s[1..]))
  }

  // ---------- what becomes of it ----------

  function Escaped(c: Ascii): Token {
    Escape(Digit(c as int / 16), Digit(c as int % 16))
  }

  /** A character that is neither reserved nor unreserved is escaped, and a stray '%' is left. */
  function Requoted(t: Token): Token {
    match t
    case Plain(c) => if Unreserved(c) || Reserved(c) || c == '%' then t else Escaped(c)
    case Escape(hi, lo) =>
      if Hex(hi) && Hex(lo) && 16 * DigitValue(hi) + DigitValue(lo) < 128
         && Unreserved((16 * DigitValue(hi) + DigitValue(lo)) as char)
      then Plain((16 * DigitValue(hi) + DigitValue(lo)) as char)
      else t
  }

  /** When requoting gives up, '%' is escaped too. */
  function Quoted(c: Ascii): Token {
    if Unreserved(c) || Reserved(c) then Plain(c) else Escaped(c)
  }

  function RequotedAll(ts: seq<Token>): seq<Token> {
    if ts == [] then [] else [Requoted(ts[0])] + RequotedAll(ts[1..])
  }

  function QuotedAll(s: Text): seq<Token> {
    if s == [] then [] else [Quoted(s[0])] + QuotedAll(s[1..])
  }

  lemma {:induction false} HopelessIsBad(s: Text)
    ensures HasBad(s) <==> Hopeless(s)
  {
    if s != [] {
      HopelessIsBad(s[1..]);
      if |s| >= 3 {
        Classes(s[1]);
        Classes(s[2]);
      }
    }
  }

  lemma EscapedIs(c: Ascii, percent: bool)
    ensures !IsSafe(c, percent) ==> QuoteChar(c, percent) == Spelled(Escaped(c))
  {
  }

  lemma {:induction false} ReadIsTokens(s: Text)
    ensures Spell(RequotedAll(Read(s))) == Show(Tokens(s))
    decreases |s|
  {
    if s == [] {
    } else if s[0] == '%' && |s| >= 3 && Hex(s[1]) && Hex(s[2]) {
      Classes(s[1]);
      Classes(s[2]);
      var v := 16 * DigitValue(s[1]) + DigitValue(s[2]);
      if v < 128 {
        Classes(v as char);
      }
      ReadIsTokens(s[3..]);
      RequoteFirst(Escape(s[1], s[2]), Read(s[3..]));
      ShowFirst(Escape(s[1], s[2]), Tokens(s[3..]));
    } else {
      if |s| >= 3 {
        Classes(s[1]);
        Classes(s[2]);
      }
      Classes(s[0]);
      EscapedIs(s[0], true);
      ReadIsTokens(s[1..]);
      RequoteFirst(Plain(s[0]), Read(s[1..]));
      ShowFirst(Plain(s[0]), Tokens(s[1..]));
    }
  }

  lemma RequoteFirst(t: Token, rest: seq<Token>)
    ensures Spell(RequotedAll([t] + rest)) == Spelled(Requoted(t)) + Spell(RequotedAll(rest))
  {
    assert ([t] + rest)[1..] == rest;
    assert ([Requoted(t)] + RequotedAll(rest))[1..] == RequotedAll(rest);
  }

  lemma {:induction false} QuoteIsQuoted(s: Text)
    ensures Quote(s, false) == Spell(QuotedAll(s))
  {
    if s != [] {
      Classes(s[0]);
      EscapedIs(s[0], false);
      QuoteIsQuoted(s[1..]);
      assert ([Quoted(s[0])] + QuotedAll(s[1..]))[1..] == QuotedAll(s[1..]);
    }
  }

  /** Requoting any URI: each of its characters and escapes by itself. */
  lemma RequoteIs(s: Text)
    ensures Requote(s) == Spell(if Hopeless(s) then QuotedAll(s) else RequotedAll(Read(s)))
  {
    HopelessIsBad(s);
    RequoteIsShow(s);
    ReadIsTokens(s);
    QuoteIsQuoted(s);
  }

  // ---------- what that means ----------

  predicate AreHex(ts: seq<Token>) {
    forall i :: 0 <= i < |ts| && ts[i].Escape? ==> Hex(ts[i].hi) && Hex(ts[i].lo)
  }

  /** Every '%' begins an escape. */
  predicate WellSpelled(ts: seq<Token>) {
    AreHex(ts) && forall i :: 0 <= i < |ts| ==> ts[i] != Plain('%')
  }

  lemma {:induction false} ReadSpell(ts: seq<Token>)
    requires WellSpelled(ts)
    ensures Read(Spell(ts)) == ts && !Hopeless(Spell(ts))
  {
    if ts != [] {
      ReadSpell(ts[1..]);
      var rest := Spell(ts[1..]);
      match ts[0] {
        case Plain(c) =>
          assert ([c] + rest)[1..] == rest;
        case Escape(hi, lo) =>
          var s: Text := ['%', hi, lo] + rest;
          assert s[3..] == rest;
          HopelessSkips(hi, lo, rest);
      }
    }
  }

  lemma HopelessSkips(hi: Ascii, lo: Ascii, rest: Text)
    requires Hex(hi) && Hex(lo)
    ensures Hopeless(['%', hi, lo] + rest) == Hopeless(rest)
  {
    var s: Text := ['%', hi, lo] + rest;
    assert s[1..][1..] == s[2..] && s[2..][1..] == s[3..] == rest;
    assert s[1..][0] == hi && s[2..][0] == lo;
    assert Hopeless(s[1..]) == Hopeless(s[2..]) == Hopeless(s[3..]);
  }

  /** A URI whose every '%' begins an escape, in terms of its characters and escapes. */
  lemma RequoteSpelled(ts: seq<Token>)
    requires WellSpelled(ts)
    ensures Requote(Spell(ts)) == Spell(RequotedAll(ts))
  {
    ReadSpell(ts);
    RequoteIs(Spell(ts));
  }

  /** A delimiter stays, and nothing becomes one. */
  lemma DelimitersStay(t: Token, d: Ascii)
    requires Reserved(d)
    ensures Requoted(t) == Plain(d) <==> t == Plain(d)
  {
  }

  /** The escapes that become characters are those of letters, digits, '-', '.', '_' and '~'. */
  lemma EscapesUndone(hi: Ascii, lo: Ascii, c: Ascii)
    requires Hex(hi) && Hex(lo)
    ensures Requoted(Escape(hi, lo)) == Plain(c) <==> StandsFor(hi, lo, c)
  {
  }

  /** No character but an illegal one is escaped, and then in upper case. */
  lemma CharactersEscaped(c: Ascii, hi: Ascii, lo: Ascii)
    ensures Requoted(Plain(c)) == Escape(hi, lo) <==>
            !Unreserved(c) && !Reserved(c) && c != '%' && hi == Digit(c as int / 16) && lo == Digit(c as int % 16)
  {
  }

  predicate Lasting(t: Token) {
    match t
    case Plain(c) => Unreserved(c) || Reserved(c)
    case Escape(hi, lo) => forall c: Ascii :: !StandsFor(hi, lo, c)
  }

  /** A URI is left alone exactly when it is made of legal characters and of escapes of other octets. */
  lemma LeftAlone(ts: seq<Token>)
    requires WellSpelled(ts)
    ensures Requote(Spell(ts)) == Spell(ts) <==> forall i :: 0 <= i < |ts| ==> Lasting(ts[i])
  {
    RequoteSpelled(ts);
    SpellLasting(ts);
  }

  lemma LastingIs(t: Token)
    requires t != Plain('%') && (t.Escape? ==> Hex(t.hi) && Hex(t.lo))
    ensures Lasting(t) <==> Requoted(t) == t
    ensures Requoted(t) != t ==> Spelled(Requoted(t))[0] != Spelled(t)[0]
  {
    if t.Escape? && Requoted(t) != t {
      assert StandsFor(t.hi, t.lo, Requoted(t).c);
    }
  }

  lemma {:induction false} SpellLasting(ts: seq<Token>)
    requires WellSpelled(ts)
    ensures Spell(RequotedAll(ts)) == Spell(ts) <==> forall i :: 0 <= i < |ts| ==> Lasting(ts[i])
  {
    if ts != [] {
      assert ts == [ts[0]] + ts[1..];
      RequoteFirst(ts[0], ts[1..]);
      LastingIs(ts[0]);
      SpellLasting(ts[1..]);
      if Lasting(ts[0]) {
        SameHead(Spelled(ts[0]), Spell(RequotedAll(ts[1..])), Spell(ts[1..]));
      } else {
        OtherHead(Spelled(Requoted(ts[0])), Spell(RequotedAll(ts[1..])), Spelled(ts[0]), Spell(ts[1..]));
      }
    }
  }
}
