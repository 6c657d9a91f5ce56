/** Bytes, UTF-8 encoding and fixed-width little-endian integers. */
module Bytes {

  type byte = b: int | 0 <= b < 256
  type bytes = seq<byte>

  /** `b"".join(pieces)`. */
  function Join(pieces: seq<bytes>): bytes {
    if pieces == [] then [] else pieces[0] + Join(pieces[1..])
  }

  lemma {:induction false} JoinAppend(pieces: seq<bytes>, last: bytes)
    ensures Join(pieces + [last]) == Join(pieces) + last
  {
    if pieces == [] {
      assert pieces + [last] == [last] && [last][1..] == [];
    } else {
      assert (pieces + [last])[1..] == pieces[1..] + [last];
      JoinAppend(pieces[1..], last);
    }
  }

  const LF: byte := 10

  /** Length of the first line, its newline included: what `readline()` takes. */
  function LineLength(b: bytes): (n: nat)
    ensures n <= |b| && (b != [] ==> n > 0)
    ensures forall j :: 0 <= j < n - 1 ==> b[j] != LF
    ensures 0 < n < |b| ==> b[n - 1] == LF
  {
    if b == [] then 0 else if b[0] == LF then 1 else 1 + LineLength(b[1..])
  }

  function Utf8Char(c: char): (b: bytes)
    ensures b != [] && (c != '\0' ==> 0 !in b)
  {
    var n := c as int;
    if n < 0x80 then [n]
    else if n < 0x800 then [0xC0 + n / 0x40, 0x80 + n % 0x40]
    else if n < 0x10000 then [0xE0 + n / 0x1000, 0x80 + n / 0x40 % 0x40, 0x80 + n % 0x40]
    else [0xF0 + n / 0x40000, 0x80 + n / 0x1000 % 0x40, 0x80 + n / 0x40 % 0x40, 0x80 + n % 0x40]
  }

  /** `text.encode('utf-8')`. */
  function Utf8(text: string): (b: bytes)
    ensures b == [] <==> text == ""
    ensures '\0' !in text ==> 0 !in b
  {
    if text == "" then [] else Utf8Char(text[0]) + Utf8(text[1..])
  }

  /** The first byte of an encoded character tells how long it is, and all bytes together which it is. */
  lemma Utf8CharInjective(c: char, x: bytes, d: char, y: bytes)
    requires Utf8Char(c) + x == Utf8Char(d) + y
    ensures c == d && x == y
  {
    var a, b := Utf8Char(c), Utf8Char(d);
    assert (a + x)[0] == a[0] && (b + y)[0] == b[0];
    assert |a| == |b|;
    assert (a + x)[..|a|] == a && (b + y)[..|b|] == b;
    assert (a + x)[|a|..] == x && (b + y)[|b|..] == y;
    CodeOfUtf8(c);
    CodeOfUtf8(d);
  }

  /** The code point that the bytes of a character spell. */
  function CodeOf(b: seq<int>): int {
    if |b| == 1 then b[0]
    else if |b| == 2 then (b[0] - 0xC0) * 0x40 + (b[1] - 0x80)
    else if |b| == 3 then (b[0] - 0xE0) * 0x1000 + (b[1] - 0x80) * 0x40 + (b[2] - 0x80)
    else if |b| == 4 then (b[0] - 0xF0) * 0x40000 + (b[1] - 0x80) * 0x1000 + (b[2] - 0x80) * 0x40 + (b[3] - 0x80)
    else 0
  }

  /** The shortest form of each code point: a lead byte that tells the length, and continuation bytes. */
  lemma CodeOfUtf8(c: char)
    ensures CodeOf(Utf8Char(c)) == c as int
    ensures var b, n := Utf8Char(c), c as int;
            && |b| == (if n < 0x80 then 1 else if n < 0x800 then 2 else if n < 0x10000 then 3 else 4)
            && (|b| == 2 ==> 0xC0 <= b[0] < 0xE0) && (|b| == 3 ==> 0xE0 <= b[0] < 0xF0) && (|b| == 4 ==> 0xF0 <= b[0])
            && forall i :: 0 < i < |b| ==> 0x80 <= b[i] < 0xC0
  {
    var n := c as int;
    assert n / 0x40 / 0x40 == n / 0x1000 && n / 0x1000 / 0x40 == n / 0x40000;
  }

  lemma {:induction false} Utf8Concat(s: string, t: string)
    ensures Utf8(s + t) == Utf8(s) + Utf8(t)
  {
    if s == "" {
      assert s + t == t;
    } else {
      assert (s + t)[1..] == s[1..] + t;
      Utf8Concat(s[1..], t);
    }
  }

  lemma {:induction false} Utf8Injective(s: string, t: string)
    requires Utf8(s) == Utf8(t)
    ensures s == t
    decreases |s|
  {
    if s != "" && t != "" {
      Utf8CharInjective(s[0], Utf8(s[1..]), t[0], Utf8(t[1..]));
      Utf8Injective(s[1..], t[1..]);
      assert s == [s[0]] + s[1..] && t == [t[0]] + t[1..];
    }
  }

  function Power256(k: nat): (p: nat)
    ensures p >= 1
  {
    if k == 0 then 1 else 256 * Power256(k - 1)
  }

  function LittleEndian(n: nat, k: nat): (b: bytes)
    ensures |b| == k
  {
    if k == 0 then [] else [n % 256] + LittleEndian(n / 256, k - 1)
  }

  function FromLittleEndian(b: bytes): nat {
    if b == [] then 0 else b[0] + 256 * FromLittleEndian(b[1..])
  }

  lemma {:induction false} LittleEndianInverse(n: nat, k: nat)
    requires n < Power256(k)
    ensures FromLittleEndian(LittleEndian(n, k)) == n
  {
    if k == 0 {
    } else {
      LittleEndianInverse(n / 256, k - 1);
      assert LittleEndian(n, k)[1..] == LittleEndian(n / 256, k - 1);
    }
  }

  /** Two's complement: the struct formats `<i` (k = 4) and `<q` (k = 8). */
  predicate FitsSigned(v: int, k: nat) {
    0 <= 2 * v + Power256(k) < 2 * Power256(k)
  }

  function Signed(v: int, k: nat): (b: bytes)
    requires FitsSigned(v, k)
    ensures |b| == k
  {
    LittleEndian(if v < 0 then v + Power256(k) else v, k)
  }

  function FromSigned(b: bytes): int {
    var n := FromLittleEndian(b);
    if 2 * n >= Power256(|b|) then n - Power256(|b|) else n
  }

  lemma SignedInverse(v: int, k: nat)
    requires FitsSigned(v, k)
    ensures FromSigned(Signed(v, k)) == v
  {
    LittleEndianInverse(if v < 0 then v + Power256(k) else v, k);
  }
}
