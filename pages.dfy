/** processFile without the PDF decoder: each page's glyphs are laid out by
    getText, a page is kept when most of its space-separated tokens start
    with a letter or a digit, the kept pages are joined with newlines, and
    the join is reduced to its non-NUL one-byte runes inside a rune buffer
    as long as the join's byte length. */
module Pages {
  import opened Options
  import opened Unicode
  import opened Strs
  import opened Layout

  /** The token starts with a letter or a digit (the goodCount test). */
  predicate Good(token: string) {
    token != [] && IsAlnum(token[0])
  }

  /** goodCount over the first n tokens. */
  function GoodCount(tokens: seq<string>): (r: nat)
    ensures r <= |tokens|
  {
    if tokens == [] then 0
    else GoodCount(tokens[..|tokens| - 1]) + (if Good(tokens[|tokens| - 1]) then 1 else 0)
  }

  /** The page filter: goodCount > strCount/2 in Go's truncating division. */
  predicate KeepPage(text: string) {
    var tokens := Split(text, ' ');
    GoodCount(tokens) > |tokens| / 2
  }

  /** The page filter is a strict majority of good tokens, and an empty
      page, whose only token is "", is always dropped. */
  lemma KeepPageMajority(text: string)
    ensures KeepPage(text) <==> 2 * GoodCount(Split(text, ' ')) > |Split(text, ' ')|
    ensures text == "" ==> !KeepPage(text)
  {
    var tokens := Split(text, ' ');
    var q := |tokens| / 2;
    assert |tokens| == 2 * q + |tokens| % 2;
    if text == "" {
      assert tokens == [""];
      assert GoodCount(tokens) == GoodCount([]) + 0;
    }
  }

  /** The per-page counting loop of processFile. */
  method PageKept(text: string) returns (keep: bool)
    ensures keep == KeepPage(text)
  {
    var tokens := Split(text, ' ');
    var strCount := 0;
    var goodCount := 0;
    var i := 0;
    while i < |tokens|
      invariant i <= |tokens|
      invariant strCount == i
      invariant goodCount == GoodCount(tokens[..i])
    {
      var str := tokens[i];
      strCount := strCount + 1;
      if |str| > 0 {
        if IsDigit(str[0]) || IsLetter(str[0]) {
          goodCount := goodCount + 1;
        }
      }
      assert tokens[..i + 1][..i] == tokens[..i];
      i := i + 1;
    }
    assert tokens[..i] == tokens;
    keep := goodCount > strCount / 2;
  }

  /** The page texts the filter keeps, in page order. */
  function KeptPages(texts: seq<string>): (r: seq<string>)
    ensures |r| <= |texts|
  {
    if texts == [] then []
    else
      var last := texts[|texts| - 1];
      var rest := KeptPages(texts[..|texts| - 1]);
      if KeepPage(last) then rest + [last] else rest
  }

  /** The filter keeps exactly the pages that pass it: every kept text is a
      page that passes, and every page that passes is kept. */
  lemma {:induction false} KeptPagesExactly(texts: seq<string>)
    ensures forall t :: t in KeptPages(texts) <==> t in texts && KeepPage(t)
    decreases |texts|
  {
    if texts != [] {
      var init := texts[..|texts| - 1];
      KeptPagesExactly(init);
      assert texts == init + [texts[|texts| - 1]];
    }
  }

  lemma KeptPagesSnoc(texts: seq<string>, t: string)
    ensures KeptPages(texts + [t]) == if KeepPage(t) then KeptPages(texts) + [t] else KeptPages(texts)
  {
    assert (texts + [t])[..|texts|] == texts;
  }

  /** A rune that survives the ASCII filter: one UTF-8 byte and not NUL. */
  predicate AsciiKept(c: char) {
    RuneLen(c) == 1 && c != '\0'
  }

  /** The runes of s that survive the ASCII filter, in order. */
  function AsciiOnly(s: string): (r: string)
    ensures |r| <= |s|
    ensures forall i :: 0 <= i < |r| ==> AsciiKept(r[i])
  {
    if s == [] then []
    else AsciiOnly(s[..|s| - 1]) + (if AsciiKept(s[|s| - 1]) then [s[|s| - 1]] else [])
  }

  /** n NUL runes. */
  function Nuls(n: nat): (r: string)
    ensures |r| == n && forall i :: 0 <= i < n ==> r[i] == '\0'
  {
    seq(n, _ => '\0')
  }

  /** string(alltext): the surviving runes, then the NULs the buffer was
      allocated with, up to the byte length of the input. */
  function AsciiPadded(s: string): string {
    AsciiOnly(s) + Nuls(ByteLen(s) - |AsciiOnly(s)|)
  }

  /** getText applied to every page. */
  function PageTexts(pages: seq<seq<Glyph>>): (r: seq<string>)
    ensures |r| == |pages| && forall i :: 0 <= i < |pages| ==> r[i] == PageText(pages[i])
  {
    seq(|pages|, i requires 0 <= i < |pages| => PageText(pages[i]))
  }

  /** The text processFile returns for a decoded document, or "" when the
      decoder panicked (None). */
  function DocumentText(doc: Option<seq<seq<Glyph>>>): string {
    match doc
    case None => ""
    case Some(pages) =>
      AsciiPadded(Join(KeptPages(PageTexts(pages)), '\n'))
  }

  /** The rune-buffer loop at the end of processFile. */
  method AsciiFilter(input: string) returns (out: string)
    ensures out == AsciiPadded(input)
  {
    var alltext := new char[ByteLen(input)](_ => '\0');
    var i := 0;
    var k := 0;
    while k < |input|
      invariant k <= |input|
      invariant i == |AsciiOnly(input[..k])| && i <= k
      invariant alltext[..i] == AsciiOnly(input[..k])
      invariant forall p :: i <= p < alltext.Length ==> alltext[p] == '\0'
    {
      var c := input[k];
      assert input[..k + 1][..k] == input[..k];
      if RuneLen(c) == 1 && c != '\0' {
        alltext[i] := c;
        i := i + 1;
      }
      k := k + 1;
    }
    assert input[..k] == input;
    out := alltext[..];
    assert out == alltext[..i] + alltext[i..];
    assert alltext[i..] == Nuls(alltext.Length - i);
  }

  /** processFile once the decoder has produced each page's glyphs. */
  method ProcessFile(doc: Option<seq<seq<Glyph>>>) returns (text: string)
    ensures text == DocumentText(doc)
  {
    if doc.None? {
      return "";
    }
    var kept := KeepPages(doc.value);
    var input := Join(kept, '\n');
    text := AsciiFilter(input);
  }

  /** The page loop of processFile: lay out every page and keep those that
      pass the filter, in page order. */
  method KeepPages(pages: seq<seq<Glyph>>) returns (kept: seq<string>)
    ensures kept == KeptPages(PageTexts(pages))
  {
    kept := [];
    var i := 0;
    while i < |pages|
      invariant i <= |pages|
      invariant kept == KeptPages(PageTexts(pages)[..i])
    {
      var pageText := GetText(pages[i]);
      var keep := PageKept(pageText);
      KeepPagesStep(pages, i);
      if keep {
        kept := kept + [pageText];
      }
      i := i + 1;
    }
    assert PageTexts(pages)[..i] == PageTexts(pages);
  }

  /** One more page laid out and filtered. */
  lemma KeepPagesStep(pages: seq<seq<Glyph>>, i: nat)
    requires i < |pages|
    ensures var texts := PageTexts(pages);
      KeptPages(texts[..i + 1]) ==
        if KeepPage(PageText(pages[i])) then KeptPages(texts[..i]) + [PageText(pages[i])]
        else KeptPages(texts[..i])
  {
    var texts := PageTexts(pages);
    assert texts[..i + 1] == texts[..i] + [PageText(pages[i])];
    KeptPagesSnoc(texts[..i], PageText(pages[i]));
  }

  // ---------------------------------------------------------------------
  // Properties of the ASCII filter

  /** The filtered text is exactly as long, in bytes and in runes, as the
      joined text, and is empty exactly when the joined text is. */
  lemma AsciiPaddedLength(s: string)
    ensures |AsciiPadded(s)| == ByteLen(s) == ByteLen(AsciiPadded(s))
    ensures AsciiPadded(s) == "" <==> s == ""
  {
    var r := AsciiPadded(s);
    assert forall i :: 0 <= i < |r| ==> (r[i] as int) < 0x80;
    ByteLenAscii(r);
  }

  /** Stripping the padding gives back exactly the surviving runes: the
      filter keeps every one-byte non-NUL rune in order and nothing else. */
  lemma {:induction false} AsciiOnlyKeepsExactly(s: string)
    ensures forall c :: AsciiKept(c) ==> multiset(AsciiOnly(s))[c] == multiset(s)[c]
    ensures forall c :: !AsciiKept(c) ==> c !in AsciiOnly(s)
    decreases |s|
  {
    if s != [] {
      var init := s[..|s| - 1];
      AsciiOnlyKeepsExactly(init);
      assert s == init + [s[|s| - 1]];
    }
  }

  /** Text made only of non-NUL ASCII passes the filter unchanged. */
  lemma AsciiUnchanged(s: string)
    requires forall i :: 0 <= i < |s| ==> AsciiKept(s[i])
    ensures AsciiPadded(s) == s
  {
    AsciiOnlyIdentity(s);
    ByteLenAscii(s);
  }

  lemma {:induction false} AsciiOnlyIdentity(s: string)
    requires forall i :: 0 <= i < |s| ==> AsciiKept(s[i])
    ensures AsciiOnly(s) == s
    decreases |s|
  {
    if s != [] {
      AsciiOnlyIdentity(s[..|s| - 1]);
    }
  }

  /** A decoded document yields "" exactly when the filter keeps none of its
      pages: a kept page is never empty, so neither is their join. */
  lemma EmptyDocumentIff(pages: seq<seq<Glyph>>)
    ensures DocumentText(Some(pages)) == "" <==> KeptPages(PageTexts(pages)) == []
  {
    var kept := KeptPages(PageTexts(pages));
    AsciiPaddedLength(Join(kept, '\n'));
    if kept != [] {
      KeptPagesExactly(PageTexts(pages));
      assert kept[0] in kept;
      KeepPageMajority(kept[0]);
      JoinNonEmpty(kept, '\n');
    }
  }

  /** A join whose first part is non-empty is non-empty. */
  lemma JoinNonEmpty(parts: seq<string>, sep: char)
    requires parts != [] && parts[0] != ""
    ensures Join(parts, sep) != ""
  {
    if |parts| > 1 {
      assert Join(parts, sep)[0] == parts[0][0];
    }
  }
}
