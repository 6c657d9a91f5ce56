/** The escape sequences of quoted VDF text. */
module VdfEscape {
  import opened Outcomes

  /** The letter that stands for an escaped character after the backslash. */
  function LetterFor(c: char): Option<char> {
    match c
    case '\n' => Some('n')
    case '\t' => Some('t')
    case '\U{B}' => Some('v')
    case '\U{8}' => Some('b')
    case '\r' => Some('r')
    case '\U{C}' => Some('f')
    case '\U{7}' => Some('a')
    case '\\' => Some('\\')
    case '?' => Some('?')
    case '\"' => Some('\"')
    case '\'' => Some('\'')
    case _ => None
  }

  function CharFor(letter: char): Option<char> {
    match letter
    case 'n' => Some('\n')
    case 't' => Some('\t')
    case 'v' => Some('\U{B}')
    case 'b' => Some('\U{8}')
    case 'r' => Some('\r')
    case 'f' => Some('\U{C}')
    case 'a' => Some('\U{7}')
    case '\\' => Some('\\')
    case '?' => Some('?')
    case '\"' => Some('\"')
    case '\'' => Some('\'')
    case _ => None
  }

  function EscapeChar(c: char): string {
    match LetterFor(c)
    case Some(letter) => ['\\', letter]
    case None => [c]
  }

  function Escape(text: string): string {
    if text == [] then [] else EscapeChar(text[0]) + Escape(text[1..])
  }

  /** Leftmost, non-overlapping replacement; a backslash before any other character stays. */
  function Unescape(text: string): string {
    if text == [] then []
    else if text[0] == '\\' && |text| > 1 && CharFor(text[1]).Some? then [CharFor(text[1]).value] + Unescape(text[2..])
    else [text[0]] + Unescape(text[1..])
  }

  lemma {:induction false} UnescapeEscape(text: string)
    ensures Unescape(Escape(text)) == text
  {
    if text == [] {
    } else {
      UnescapeEscape(text[1..]);
      var rest := Escape(text[1..]);
      if LetterFor(text[0]).Some? {
        assert (EscapeChar(text[0]) + rest)[2..] == rest;
      } else {
        assert ([text[0]] + rest)[1..] == rest;
      }
    }
  }

  /** Escaped text holds no raw line break, so a printed pair stays on one line. */
  lemma {:induction false} EscapeStaysOnLine(text: string)
    ensures '\n' !in Escape(text)
  {
    if text == [] {
    } else {
      EscapeStaysOnLine(text[1..]);
    }
  }

  const ESCAPED: string := "\n\t\U{B}\U{8}\r\U{C}\U{7}\\?\"\'"
  const LETTERS: string := "ntvbrfa\\?\"\'"

  /** The letter of each character, and no others. */
  lemma EscapedLetters(c: char)
    ensures |ESCAPED| == |LETTERS|
    ensures forall i :: 0 <= i < |ESCAPED| && c == ESCAPED[i] ==> EscapeChar(c) == ['\\', LETTERS[i]]
    ensures c !in ESCAPED ==> EscapeChar(c) == [c]
  {
  }

  lemma UnescapedLetters(letter: char, rest: string)
    ensures forall i :: 0 <= i < |LETTERS| && letter == LETTERS[i] ==>
              Unescape(['\\', letter] + rest) == [ESCAPED[i]] + Unescape(rest)
    ensures letter !in LETTERS ==> Unescape(['\\', letter] + rest) == ['\\'] + Unescape([letter] + rest)
    ensures letter != '\\' ==> Unescape([letter] + rest) == [letter] + Unescape(rest)
  {
    var text := ['\\', letter] + rest;
    assert text[2..] == rest && text[1..] == [letter] + rest;
    assert ([letter] + rest)[1..] == rest;
  }
}
