/** Character classes, case mapping and UTF-8 widths from Go's unicode and
    unicode/utf8 packages, restricted to what pdftext.go uses. Classes are
    exact for code points below U+0100 (ASCII and Latin-1); the text that
    reaches word extraction has already been reduced to ASCII. */
module Unicode {

  /** unicode.IsLetter for Latin-1; other code points count as non-letters. */
  predicate IsLetter(c: char) {
    var n := c as int;
    (0x41 <= n <= 0x5A) || (0x61 <= n <= 0x7A) || n == 0xAA || n == 0xB5 || n == 0xBA
    || (0xC0 <= n <= 0xD6) || (0xD8 <= n <= 0xF6) || (0xF8 <= n <= 0xFF)
  }

  /** unicode.IsDigit for Latin-1, whose only decimal digits are '0'..'9'. */
  predicate IsDigit(c: char) {
    '0' <= c <= '9'
  }

  /** The test pdftext.go applies to first and last runes: a letter or a digit. */
  predicate IsAlnum(c: char) {
    IsLetter(c) || IsDigit(c)
  }

  /** unicode.IsSpace: the Unicode White_Space property, as strings.Fields uses it. */
  predicate IsSpace(c: char) {
    var n := c as int;
    (0x09 <= n <= 0x0D) || n == 0x20 || n == 0x85 || n == 0xA0 || n == 0x1680
    || (0x2000 <= n <= 0x200A) || n == 0x2028 || n == 0x2029 || n == 0x202F
    || n == 0x205F || n == 0x3000
  }

  /** unicode.ToLower for Latin-1; other code points are left as they are. */
  function ToLower(c: char): (r: char)
    ensures IsLetter(r) == IsLetter(c) && IsDigit(r) == IsDigit(c)
    ensures (c as int) < 0x80 <==> (r as int) < 0x80
    ensures r == c || (IsLetter(c) && (c as int) + 32 == r as int)
    ensures (0x41 <= c as int <= 0x5A || (0xC0 <= c as int <= 0xDE && c as int != 0xD7)) <==> r != c
    ensures r != c ==> r as int == c as int + 32
  {
    var n := c as int;
    if (0x41 <= n <= 0x5A) || (0xC0 <= n <= 0xDE && n != 0xD7) then (n + 32) as char else c
  }

  /** strings.ToLower: every rune mapped through ToLower. */
  function Lower(s: string): (r: string)
    ensures |r| == |s|
    ensures forall i :: 0 <= i < |s| ==> r[i] == ToLower(s[i])
  {
    seq(|s|, i requires 0 <= i < |s| => ToLower(s[i]))
  }

  /** A string that strings.ToLower leaves unchanged. */
  predicate IsLowered(s: string) {
    forall i :: 0 <= i < |s| ==> ToLower(s[i]) == s[i]
  }

  /** A string that is already lowercase is unchanged by Lower. */
  lemma LoweredFixed(s: string)
    requires IsLowered(s)
    ensures Lower(s) == s
  {
  }

  /** Lower-casing is idempotent, so a lowered string is a fixed point. */
  lemma LowerIsLowered(s: string)
    ensures IsLowered(Lower(s)) && Lower(Lower(s)) == Lower(s)
  {
    forall i | 0 <= i < |s| ensures ToLower(ToLower(s[i])) == ToLower(s[i]) {
    }
  }

  /** utf8.RuneLen: the number of bytes of the UTF-8 encoding of c. */
  function RuneLen(c: char): (r: nat)
    ensures 1 <= r <= 4
    ensures r == 1 <==> (c as int) < 0x80
  {
    var n := c as int;
    if n < 0x80 then 1 else if n < 0x800 then 2 else if n < 0x10000 then 3 else 4
  }

  /** len(s) of a Go string: the byte length of its UTF-8 encoding. */
  function ByteLen(s: string): (r: nat)
    ensures |s| <= r <= 4 * |s|
    ensures r == 0 <==> s == []
  {
    if s == [] then 0 else ByteLen(s[..|s| - 1]) + RuneLen(s[|s| - 1])
  }

  lemma {:induction false} ByteLenConcat(a: string, b: string)
    ensures ByteLen(a + b) == ByteLen(a) + ByteLen(b)
    decreases |b|
  {
    if b == [] {
      assert a + b == a;
    } else {
      assert (a + b)[..|a + b| - 1] == a + b[..|b| - 1];
      ByteLenConcat(a, b[..|b| - 1]);
    }
  }

  /** A string of one-byte runes has as many bytes as runes. */
  lemma {:induction false} ByteLenAscii(s: string)
    requires forall i :: 0 <= i < |s| ==> (s[i] as int) < 0x80
    ensures ByteLen(s) == |s|
    decreases |s|
  {
    if s != [] {
      ByteLenAscii(s[..|s| - 1]);
    }
  }
}
