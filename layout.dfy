/** The layout reconstructor getText: one page's positioned glyphs, in the
    decoder's order, become text with inferred newlines and spaces.

    A glyph starts a new line when it lies lower than the previous glyph by
    more than a fifth of the previous glyph's font size. At each such
    boundary a newline is emitted, followed by the line that the boundary
    completes; a line of two or more glyphs is spaced by the median-gap rule,
    a one-glyph line contributes nothing, and the glyphs after the last
    boundary are never emitted. */
module Layout {
  import opened Strs
  import opened Sorting

  /** A pdf.Text element: position, width, font size, font name and text. */
  datatype Glyph = Glyph(x: real, y: real, w: real, fontSize: real, font: string, s: string)

  /** The zero pdf.Text that prevText holds before the first glyph. */
  const Blank := Glyph(0.0, 0.0, 0.0, 0.0, "", "")

  /** The boundary test of getText: dy is measured only when the previous
      glyph has a font name, and a boundary needs -dy > FontSize/5. */
  predicate Breaks(prev: Glyph, t: Glyph) {
    var dy := if prev.font != "" then t.y - prev.y else 0.0;
    -dy > prev.fontSize / 5.0
  }

  /** The glyph that precedes glyph i, Blank for the first one. */
  function Prev(g: seq<Glyph>, i: nat): Glyph
    requires i <= |g|
  {
    if i == 0 then Blank else g[i - 1]
  }

  /** Glyph i starts a new line. */
  predicate BoundaryAt(g: seq<Glyph>, i: nat)
    requires i < |g|
  {
    Breaks(Prev(g, i), g[i])
  }

  /** The first glyph only sets the baseline, so the branch of getText that
      would handle a boundary at index 0 is never taken. */
  lemma FirstGlyphNeverBreaks(g: seq<Glyph>)
    requires |g| > 0
    ensures !BoundaryAt(g, 0)
  {
  }

  /** Only a downward move can start a line: a glyph at or above the
      previous one does not, as long as that glyph's font size is not
      negative. */
  lemma UpwardNeverBreaks(g: seq<Glyph>, i: nat)
    requires i < |g|
    requires g[i].y >= Prev(g, i).y && Prev(g, i).fontSize >= 0.0
    ensures !BoundaryAt(g, i)
  {
  }

  /** The indices among the first n glyphs at which a line starts. */
  function Boundaries(g: seq<Glyph>, n: nat): set<nat>
    requires n <= |g|
  {
    set i: nat | i < n && BoundaryAt(g, i)
  }

  /** The value of `first` once n glyphs have been read: the last boundary
      before n, or 0 when there is none. */
  function LineStart(g: seq<Glyph>, n: nat): (r: nat)
    requires n <= |g|
    ensures r <= n && (n > 0 ==> r < n)
    ensures r > 0 ==> BoundaryAt(g, r)
    ensures forall i :: r < i < n ==> !BoundaryAt(g, i)
  {
    if n == 0 then 0 else if BoundaryAt(g, n - 1) then n - 1 else LineStart(g, n - 1)
  }

  /** The horizontal gap between glyph a and the glyph b after it. */
  function Gap(a: Glyph, b: Glyph): real {
    b.x - a.x - a.w
  }

  /** The gaps of all adjacent pairs of a line, in order (the dxs slice). */
  function Gaps(line: seq<Glyph>): (r: seq<real>)
    requires |line| >= 1
    ensures |r| == |line| - 1
  {
    seq(|line| - 1, k requires 0 <= k < |line| - 1 => Gap(line[k], line[k + 1]))
  }

  /** The order sort.Float64s sorts by. */
  predicate RealLess(a: real, b: real) {
    a < b
  }

  lemma RealLessIsStrictTotal()
    ensures StrictTotalOrder(RealLess)
  {
  }

  /** Element len/2 of the sorted gaps, raised to 0 when negative. */
  function Median(gaps: seq<real>): (m: real)
    requires |gaps| >= 1
    ensures m >= 0.0
    ensures m > 0.0 ==> m in gaps
  {
    var sorted := SortSeq(gaps, RealLess);
    var v := sorted[|gaps| / 2];
    assert v in multiset(sorted);
    if v < 0.0 then 0.0 else v
  }

  /** The median does not depend on the order in which the gaps arrive. */
  lemma MedianOrderFree(a: seq<real>, b: seq<real>)
    requires |a| >= 1 && multiset(a) == multiset(b)
    ensures |b| >= 1 && Median(a) == Median(b)
  {
    assert |a| == |multiset(a)| == |multiset(b)| == |b|;
    RealLessIsStrictTotal();
    SortSeqSorted(a, RealLess);
    SortSeqSorted(b, RealLess);
    SortedUnique(SortSeq(a, RealLess), SortSeq(b, RealLess), RealLess);
  }

  /** A space goes before now when its gap from prior exceeds the median by
      more than a fifth of prior's font size, or when the font changes. */
  predicate NeedsSpace(prior: Glyph, now: Glyph, median: real) {
    Gap(prior, now) > median + prior.fontSize / 5.0 || now.font != prior.font
  }

  /** The text of glyphs 1 .. n-1 of a line, each preceded by a space when
      NeedsSpace says so. */
  function Spaced(line: seq<Glyph>, median: real, n: nat): string
    requires 1 <= n <= |line|
  {
    if n == 1 then ""
    else
      Spaced(line, median, n - 1) + Sep(line, median, n) + line[n - 1].s
  }

  /** What a completed line contributes after its newline: nothing for a
      line of fewer than two glyphs, otherwise the first glyph's text
      followed by the spaced rest. */
  function LineText(line: seq<Glyph>): string {
    if |line| < 2 then "" else line[0].s + Spaced(line, Median(Gaps(line)), |line|)
  }

  /** The value of `ret` once n glyphs have been read. */
  function TextUpTo(g: seq<Glyph>, n: nat): string
    requires n <= |g|
  {
    if n == 0 then ""
    else
      TextUpTo(g, n - 1)
      + (if BoundaryAt(g, n - 1) then "\n" + LineText(g[LineStart(g, n - 1)..n - 1]) else "")
  }

  /** The text getText returns for a page. */
  function PageText(g: seq<Glyph>): string {
    TextUpTo(g, |g|)
  }

  /** getText (pdftext.go:348-444), without its debug output. */
  method GetText(g: seq<Glyph>) returns (ret: string)
    ensures ret == PageText(g)
  {
    var prevText := Blank;
    var first := 0;
    ret := "";
    var idx := 0;
    while idx < |g|
      invariant idx <= |g|
      invariant first == LineStart(g, idx)
      invariant prevText == Prev(g, idx)
      invariant ret == TextUpTo(g, idx)
    {
      var t := g[idx];
      var dy := 0.0;
      if prevText.font != "" {
        dy := t.y - prevText.y;
      }
      var newLine := -dy > prevText.fontSize / 5.0;
      assert newLine == BoundaryAt(g, idx);
      if newLine {
        ghost var lineText := LineText(g[first..idx]);
        assert TextUpTo(g, idx + 1) == ret + ("\n" + lineText);
        var line := "";
        if idx > first + 1 {
          line := RenderLine(g, first, idx);
        }
        ret := ret + "\n" + line;
        first := idx;
      } else {
        assert TextUpTo(g, idx + 1) == ret + "";
      }
      prevText := t;
      idx := idx + 1;
    }
  }

  /** The body of getText's boundary branch for a line g[first..idx] of at
      least two glyphs: collect the gaps, sort them in place, take the
      median, then emit the glyphs with the spaces the median rule asks for. */
  method RenderLine(g: seq<Glyph>, first: nat, idx: nat) returns (s: string)
    requires first + 2 <= idx <= |g|
    ensures s == LineText(g[first..idx])
  {
    var dxs := LineGaps(g, first, idx);
    var median := MedianInPlace(dxs);
    s := SpaceLine(g, first, idx, median);
    LineTextOfLong(g, first, idx);
  }

  lemma LineTextOfLong(g: seq<Glyph>, first: nat, idx: nat)
    requires first + 2 <= idx <= |g|
    ensures LineText(g[first..idx]) == g[first].s + Spaced(g[first..idx], Median(Gaps(g[first..idx])), idx - first)
  {
  }

  /** The dxs slice of getText: the gap before each glyph of the line but
      its first. */
  method LineGaps(g: seq<Glyph>, first: nat, idx: nat) returns (dxs: array<real>)
    requires first + 2 <= idx <= |g|
    ensures fresh(dxs)
    ensures dxs[..] == Gaps(g[first..idx])
  {
    dxs := new real[idx - first - 1];
    var i := first;
    while i < idx
      invariant first <= i <= idx
      invariant forall k :: 0 <= k < i - first - 1 ==> dxs[k] == Gap(g[first + k], g[first + k + 1])
    {
      var here := g[i];
      var gap := 0.0;
      if i > 0 {
        gap := here.x - g[i - 1].x - g[i - 1].w;
      }
      if i > first {
        dxs[i - first - 1] := gap;
      }
      i := i + 1;
    }
  }

  /** sort.Float64s(dxs) followed by the median pick of getText. */
  method MedianInPlace(dxs: array<real>) returns (median: real)
    requires dxs.Length >= 1
    modifies dxs
    ensures median == Median(old(dxs[..]))
    ensures dxs[..] == SortSeq(old(dxs[..]), RealLess)
  {
    ghost var gaps := dxs[..];
    SortPrefix(dxs, dxs.Length, RealLess);
    assert dxs[..dxs.Length] == dxs[..];
    assert old(dxs[..dxs.Length]) == gaps;
    var mid := dxs.Length / 2;
    median := dxs[mid];
    if median < 0.0 {
      median := 0.0;
    }
  }

  /** The emitting loop of getText for the line g[first..idx]. */
  method SpaceLine(g: seq<Glyph>, first: nat, idx: nat, median: real) returns (s: string)
    requires first + 2 <= idx <= |g|
    ensures s == g[first].s + Spaced(g[first..idx], median, idx - first)
  {
    ghost var line := g[first..idx];
    s := g[first].s;
    var prior := Blank;
    var i := first;
    while i < idx
      invariant first <= i <= idx
      invariant i > first ==> prior == g[i - 1] && s == g[first].s + Spaced(line, median, i - first)
      invariant i == first ==> s == g[first].s
    {
      var now := g[i];
      if i > first {
        ghost var before := s;
        SpacedStep(line, median, i - first + 1);
        var gap := now.x - prior.x - prior.w;
        if gap > median + prior.fontSize / 5.0 || now.font != prior.font {
          assert SpaceBefore(line, median, i - first);
          s := s + " ";
        }
        assert s == before + Sep(line, median, i - first + 1);
        s := s + now.s;
        AppendAssoc(g[first].s, Spaced(line, median, i - first) + Sep(line, median, i - first + 1), now.s);
        AppendAssoc(g[first].s, Spaced(line, median, i - first), Sep(line, median, i - first + 1));
      } else {
        assert Spaced(line, median, 1) == "";
        assert s == g[first].s + "";
      }
      prior := now;
      i := i + 1;
    }
  }

  // ---------------------------------------------------------------------
  // Line segmentation

  /** The first n glyphs of a page give the same text whatever follows them. */
  lemma {:induction false} TextUpToPrefix(g: seq<Glyph>, n: nat, m: nat)
    requires m <= n <= |g|
    ensures TextUpTo(g, m) == TextUpTo(g[..n], m)
    ensures LineStart(g, m) == LineStart(g[..n], m)
    decreases m
  {
    if m > 0 {
      TextUpToPrefix(g, n, m - 1);
      TextUpToPrefixStep(g, n, m);
    }
  }

  lemma TextUpToPrefixStep(g: seq<Glyph>, n: nat, m: nat)
    requires 0 < m <= n <= |g|
    requires TextUpTo(g, m - 1) == TextUpTo(g[..n], m - 1)
    requires LineStart(g, m - 1) == LineStart(g[..n], m - 1)
    ensures TextUpTo(g, m) == TextUpTo(g[..n], m)
    ensures LineStart(g, m) == LineStart(g[..n], m)
  {
    var h := g[..n];
    assert Prev(h, m - 1) == Prev(g, m - 1);
    assert BoundaryAt(h, m - 1) == BoundaryAt(g, m - 1);
    assert h[LineStart(g, m - 1)..m - 1] == g[LineStart(g, m - 1)..m - 1];
  }

  /** Reading glyphs that start no new line adds nothing to the text. */
  lemma {:induction false} TextUpToFlat(g: seq<Glyph>, n: nat, m: nat)
    requires n <= m <= |g|
    requires forall i :: n <= i < m ==> !BoundaryAt(g, i)
    ensures TextUpTo(g, m) == TextUpTo(g, n)
    decreases m
  {
    if m > n {
      TextUpToFlat(g, n, m - 1);
    }
  }

  /** The glyphs after the last boundary are never flushed: a page gives the
      same text as its prefix up to the start of its last line. */
  lemma TrailingRunDropped(g: seq<Glyph>, n: nat)
    requires n <= |g|
    requires forall i :: n <= i < |g| ==> !BoundaryAt(g, i)
    ensures PageText(g) == PageText(g[..n])
  {
    TextUpToFlat(g, n, |g|);
    TextUpToPrefix(g, n, n);
  }

  /** A page in which no glyph starts a new line yields "". */
  lemma NoBoundaryNoText(g: seq<Glyph>)
    requires forall i :: 0 <= i < |g| ==> !BoundaryAt(g, i)
    ensures PageText(g) == ""
  {
    TrailingRunDropped(g, 0);
  }

  /** A boundary that closes a one-glyph line adds only its newline. */
  lemma OneGlyphLineAddsNewline(g: seq<Glyph>, k: nat)
    requires k < |g| && BoundaryAt(g, k) && LineStart(g, k) + 1 >= k
    ensures TextUpTo(g, k + 1) == TextUpTo(g, k) + "\n"
  {
  }

  /** Spaced text contains a character c other than ' ' only through the
      glyphs' own text. */
  lemma {:induction false} SpacedCount(line: seq<Glyph>, median: real, n: nat, c: char)
    requires 1 <= n <= |line| && c != ' '
    requires forall i :: 0 <= i < |line| ==> c !in line[i].s
    ensures CountChar(Spaced(line, median, n), c) == 0
    decreases n
  {
    if n > 1 {
      SpacedCount(line, median, n - 1, c);
      var sep := Sep(line, median, n);
      CountCharConcat(Spaced(line, median, n - 1), sep, c);
      CountCharConcat(Spaced(line, median, n - 1) + sep, line[n - 1].s, c);
      CountAbsent(line[n - 1].s, c);
    }
  }

  lemma {:induction false} CountAbsent(s: string, c: char)
    requires c !in s
    ensures CountChar(s, c) == 0
    decreases |s|
  {
    if s != [] {
      CountAbsent(s[1..], c);
    }
  }

  /** Exactly one newline per boundary: when no glyph text holds a newline,
      the page text holds as many newlines as the page has boundaries. */
  lemma NewlinePerBoundary(g: seq<Glyph>)
    requires forall i :: 0 <= i < |g| ==> '\n' !in g[i].s
    ensures CountChar(PageText(g), '\n') == |Boundaries(g, |g|)|
  {
    NewlinesUpTo(g, |g|);
  }

  /** No glyph text holds a newline. */
  predicate NoNewlines(g: seq<Glyph>) {
    forall i :: 0 <= i < |g| ==> '\n' !in g[i].s
  }

  lemma {:induction false} NewlinesUpTo(g: seq<Glyph>, n: nat)
    requires n <= |g|
    requires NoNewlines(g)
    ensures CountChar(TextUpTo(g, n), '\n') == |Boundaries(g, n)|
  {
    NoBoundariesYet(g);
    var k := 0;
    while k < n
      invariant k <= n
      invariant CountChar(TextUpTo(g, k), '\n') == |Boundaries(g, k)|
    {
      k := k + 1;
      NewlinesStep(g, k);
    }
  }

  lemma NoBoundariesYet(g: seq<Glyph>)
    ensures TextUpTo(g, 0) == "" && Boundaries(g, 0) == {}
  {
  }

  /** Glyph n-1 adds a newline exactly when it is a boundary. */
  lemma NewlinesStep(g: seq<Glyph>, n: nat)
    requires 1 <= n <= |g|
    requires NoNewlines(g)
    requires CountChar(TextUpTo(g, n - 1), '\n') == |Boundaries(g, n - 1)|
    ensures CountChar(TextUpTo(g, n), '\n') == |Boundaries(g, n)|
  {
    BoundariesStep(g, n);
    var before := TextUpTo(g, n - 1);
    if BoundaryAt(g, n - 1) {
      var line := g[LineStart(g, n - 1)..n - 1];
      LineTextNoNewline(line);
      CountCharConcat("\n", LineText(line), '\n');
      CountCharConcat(before, "\n" + LineText(line), '\n');
      assert |Boundaries(g, n - 1) + {n - 1}| == |Boundaries(g, n - 1)| + 1;
    } else {
      assert TextUpTo(g, n) == before + "";
      assert before + "" == before;
    }
  }

  /** Index n-1 joins the boundaries exactly when glyph n-1 starts a line. */
  lemma BoundariesStep(g: seq<Glyph>, n: nat)
    requires 1 <= n <= |g|
    ensures n - 1 !in Boundaries(g, n - 1)
    ensures BoundaryAt(g, n - 1) ==> Boundaries(g, n) == Boundaries(g, n - 1) + {n - 1}
    ensures !BoundaryAt(g, n - 1) ==> Boundaries(g, n) == Boundaries(g, n - 1)
  {
    var a := Boundaries(g, n);
    var b := Boundaries(g, n - 1) + (if BoundaryAt(g, n - 1) then {n - 1} else {});
    forall i | i in a ensures i in b {
    }
    forall i | i in b ensures i in a {
    }
    assert a == b;
  }

  /** A line whose glyph texts hold no newline renders without one. */
  lemma LineTextNoNewline(line: seq<Glyph>)
    requires forall i :: 0 <= i < |line| ==> '\n' !in line[i].s
    ensures CountChar(LineText(line), '\n') == 0
  {
    if |line| >= 2 {
      var rest := Spaced(line, Median(Gaps(line)), |line|);
      SpacedCount(line, Median(Gaps(line)), |line|, '\n');
      CountAbsent(line[0].s, '\n');
      CountCharConcat(line[0].s, rest, '\n');
    }
  }

  // ---------------------------------------------------------------------
  // Spacing

  /** The concatenated text of the first n glyphs of a line. */
  function Texts(line: seq<Glyph>, n: nat): string
    requires n <= |line|
  {
    if n == 0 then "" else Texts(line, n - 1) + line[n - 1].s
  }

  /** A space goes before glyph i of a line. */
  predicate SpaceBefore(line: seq<Glyph>, median: real, i: nat)
    requires 1 <= i < |line|
  {
    NeedsSpace(line[i - 1], line[i], median)
  }

  /** The positions 1 .. n-1 of a line before which a space goes. */
  function SpacePositions(line: seq<Glyph>, median: real, n: nat): set<nat>
    requires n <= |line|
  {
    set i: nat | 1 <= i < n && SpaceBefore(line, median, i)
  }

  /** The separator Spaced puts before glyph n-1. */
  function Sep(line: seq<Glyph>, median: real, n: nat): string
    requires 2 <= n <= |line|
  {
    if SpaceBefore(line, median, n - 1) then " " else ""
  }

  lemma SpacedStep(line: seq<Glyph>, median: real, n: nat)
    requires 2 <= n <= |line|
    ensures Spaced(line, median, n) == (Spaced(line, median, n - 1) + Sep(line, median, n)) + line[n - 1].s
  {
  }

  lemma {:induction false} SpacedSpaces(line: seq<Glyph>, median: real, n: nat)
    requires 1 <= n <= |line|
    requires forall i :: 0 <= i < |line| ==> ' ' !in line[i].s
    ensures CountChar(Spaced(line, median, n), ' ') == |SpacePositions(line, median, n)|
    decreases n
  {
    if n == 1 {
      assert Spaced(line, median, 1) == "";
      assert SpacePositions(line, median, 1) == {};
    } else {
      SpacedSpaces(line, median, n - 1);
      SpacedSpacesStep(line, median, n);
    }
  }

  /** The count of spaces and the count of space positions grow together. */
  lemma SpacedSpacesStep(line: seq<Glyph>, median: real, n: nat)
    requires 2 <= n <= |line|
    requires ' ' !in line[n - 1].s
    requires CountChar(Spaced(line, median, n - 1), ' ') == |SpacePositions(line, median, n - 1)|
    ensures CountChar(Spaced(line, median, n), ' ') == |SpacePositions(line, median, n)|
  {
    SpacedCountStep(line, median, n);
    SpacePositionsStep(line, median, n);
    var before := SpacePositions(line, median, n - 1);
    if SpaceBefore(line, median, n - 1) {
      assert |before + {n - 1}| == |before| + 1;
    }
  }

  /** Glyph n-1 adds one space to the count when a space goes before it. */
  lemma SpacedCountStep(line: seq<Glyph>, median: real, n: nat)
    requires 2 <= n <= |line|
    requires ' ' !in line[n - 1].s
    ensures CountChar(Spaced(line, median, n), ' ') ==
      CountChar(Spaced(line, median, n - 1), ' ') + (if SpaceBefore(line, median, n - 1) then 1 else 0)
  {
    var prev := Spaced(line, median, n - 1);
    var sep := Sep(line, median, n);
    var t := line[n - 1].s;
    SpacedStep(line, median, n);
    CountCharConcat(prev, sep, ' ');
    CountCharConcat(prev + sep, t, ' ');
    CountAbsent(t, ' ');
    if sep != "" {
      assert CountChar(sep, ' ') == 1 + CountChar(sep[1..], ' ');
      assert sep[1..] == "";
    }
  }

  /** Position n-1 joins the space positions exactly when a space goes
      before glyph n-1. */
  lemma SpacePositionsStep(line: seq<Glyph>, median: real, n: nat)
    requires 2 <= n <= |line|
    ensures n - 1 !in SpacePositions(line, median, n - 1)
    ensures SpaceBefore(line, median, n - 1) ==>
      SpacePositions(line, median, n) == SpacePositions(line, median, n - 1) + {n - 1}
    ensures !SpaceBefore(line, median, n - 1) ==>
      SpacePositions(line, median, n) == SpacePositions(line, median, n - 1)
  {
    var a := SpacePositions(line, median, n);
    var b := SpacePositions(line, median, n - 1) + (if SpaceBefore(line, median, n - 1) then {n - 1} else {});
    forall i | i in a ensures i in b {
    }
    forall i | i in b ensures i in a {
    }
    assert a == b;
  }

  lemma {:induction false} SpacedStripped(line: seq<Glyph>, median: real, n: nat)
    requires 1 <= n <= |line|
    requires forall i :: 0 <= i < |line| ==> ' ' !in line[i].s
    ensures line[0].s + RemoveAll(Spaced(line, median, n), ' ') == Texts(line, n)
    decreases n
  {
    if n == 1 {
      SpacedStrippedBase(line, median);
    } else {
      SpacedStripped(line, median, n - 1);
      SpacedStrippedStep(line, median, n);
    }
  }

  lemma SpacedStrippedBase(line: seq<Glyph>, median: real)
    requires 1 <= |line|
    ensures line[0].s + RemoveAll(Spaced(line, median, 1), ' ') == Texts(line, 1)
  {
    assert Spaced(line, median, 1) == "";
    assert RemoveAll("", ' ') == "";
    assert Texts(line, 1) == Texts(line, 0) + line[0].s;
    assert "" + line[0].s == line[0].s + "";
  }

  lemma SpacedStrippedStep(line: seq<Glyph>, median: real, n: nat)
    requires 2 <= n <= |line|
    requires ' ' !in line[n - 1].s
    requires line[0].s + RemoveAll(Spaced(line, median, n - 1), ' ') == Texts(line, n - 1)
    ensures line[0].s + RemoveAll(Spaced(line, median, n), ' ') == Texts(line, n)
  {
    SpacedStep(line, median, n);
    StrippedAppend(line[0].s, Spaced(line, median, n - 1), Sep(line, median, n), line[n - 1].s, Texts(line, n - 1));
    assert Texts(line, n) == Texts(line, n - 1) + line[n - 1].s;
  }

  /** Appending an optional space and a space-free t to prev appends t to
      what remains of h + prev once prev's spaces are removed. */
  lemma StrippedAppend(h: string, prev: string, sep: string, t: string, before: string)
    requires sep == "" || sep == " "
    requires ' ' !in t
    requires h + RemoveAll(prev, ' ') == before
    ensures h + RemoveAll(prev + sep + t, ' ') == before + t
  {
    StripStep(prev, sep, t);
    AppendAssoc(h, RemoveAll(prev, ' '), t);
  }

  /** Removing the spaces from prev, an optional space and a space-free t. */
  lemma StripStep(prev: string, sep: string, t: string)
    requires sep == "" || sep == " "
    requires ' ' !in t
    ensures RemoveAll(prev + sep + t, ' ') == RemoveAll(prev, ' ') + t
  {
    RemoveAllConcat(prev + sep, t, ' ');
    RemoveAllConcat(prev, sep, ' ');
    RemoveAllAbsent(t, ' ');
    SepStripped(sep);
    assert RemoveAll(prev + sep, ' ') == RemoveAll(prev, ' ');
  }

  /** An optional space vanishes when the spaces are removed. */
  lemma SepStripped(sep: string)
    requires sep == "" || sep == " "
    ensures RemoveAll(sep, ' ') == ""
  {
    if sep != "" {
      assert sep[1..] == "";
    }
  }

  /** The spacing rule, for glyph texts without spaces: a completed line of
      two or more glyphs holds one space per position where NeedsSpace holds
      against the line's median gap, and removing those spaces leaves its
      glyphs' texts in order. */
  lemma LineSpacing(line: seq<Glyph>)
    requires |line| >= 2
    requires forall i :: 0 <= i < |line| ==> ' ' !in line[i].s
    ensures var median := Median(Gaps(line));
      && CountChar(LineText(line), ' ') == |SpacePositions(line, median, |line|)|
      && RemoveAll(LineText(line), ' ') == Texts(line, |line|)
  {
    var median := Median(Gaps(line));
    var rest := Spaced(line, median, |line|);
    SpacedSpaces(line, median, |line|);
    SpacedStripped(line, median, |line|);
    CountAbsent(line[0].s, ' ');
    CountCharConcat(line[0].s, rest, ' ');
    RemoveAllConcat(line[0].s, rest, ' ');
    RemoveAllAbsent(line[0].s, ' ');
  }
}
