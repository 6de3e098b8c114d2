# pdftext in Dafny

pdftext reads the PDFs of a directory. It turns the text of each one into
tags and word counts, and gives every PDF whose keywords match a rename rule
a new, collision-free file name. This project models the part of
`pdftext.go` that does this once the PDF decoder has produced each page's
positioned glyphs:

- **getText** (`Layout`): from the glyph sequence of a page to text with
  inferred newlines and spaces.
- **processFile** (`Pages`): the page filter, the newline join and the
  ASCII filter with its NUL padding.
- **processFileAndRename** (`Words`, `Dates`, `Document.OutputTag`): the
  words, the keyword tags and the first date of a document.
- **init** (`Rules`): the normalisation of the rename rule table and the
  keyword set.
- **renameBase** (`Document`, `Names`): rule selection, the `newFileNames`
  registry (`Names.Registry`) and the rewriting of the output paths.
- **Process**: the naming decisions made around those steps.
- **Extract and the final prune** (`Document.Aggregates`): the `alltags` and
  `allWords` aggregates.

The Go helpers these rely on are written out in `Strs`, `Paths`, `Unicode`
and `Sorting`:

- strings: Index, Contains, Replace, Split, Join, Fields;
- path/filepath: Clean, Base, Dir, Ext, Join;
- unicode: character classes and ToLower;
- sort.Strings and sort.Float64s.

The code is imperative wherever the Go code is. Each such method is proved
equal to a specification function, and the behaviour promised of the
program is proved about those functions:

- `getText` and its line loops are methods over the glyph sequence.
- The median sort works on an `array<real>`.
- The word de-duplication works in place on an `array<string>`.
- `OutputTag`, the registry and the aggregates are classes whose methods
  update their fields.

Where the code and its own comments disagree, the model follows the code.
The comment above `getText` (pdftext.go:341-347) describes a half-font-size
line test and a 1.5-width space test. The code breaks a line when the drop
exceeds a fifth of the font size, and spaces by the median-gap rule; the
model does that.

## Model

| member | source | states |
|---|---|---|
| Layout.FirstGlyphNeverBreaks | pdftext.go:349-372 | The first glyph of a page never starts a line, because the zero prevText gives dy = 0 and a font size of 0; so the idx == 0 branch is unreachable |
| Layout.UpwardNeverBreaks | pdftext.go:358-362 | A glyph at or above the previous one does not start a line |
| Layout.LineStart | pdftext.go:350-438 | The value of `first` after n glyphs: the last boundary before n, or 0 when there is none. It is below n when n > 0, and no boundary lies between it and n |
| Layout.GetText | pdftext.go:348-444 | The getText loop returns PageText(g), the text defined glyph by glyph: at each boundary, a newline and then the line the boundary completes |
| Layout.RenderLine | pdftext.go:378-436 | A completed line of two or more glyphs renders as LineText: its first glyph's text, then the others spaced against the median of the line's gaps |
| Layout.LineGaps | pdftext.go:379-396 | dxs holds exactly the gap X − prior.X − prior.W of every adjacent pair of the line, in order |
| Layout.MedianInPlace | pdftext.go:397-402 | dxs ends up as the sorted original gaps, and element len/2, clamped at 0, is Median of the original gaps |
| Layout.Median | pdftext.go:397-402 | The median is never negative, and when positive it is one of the gaps |
| Layout.MedianOrderFree | pdftext.go:397-399 | The median depends only on the multiset of gaps, not on their order |
| Layout.SpaceLine | pdftext.go:403-430 | The emitting loop yields the first glyph's text followed by Spaced: each later glyph's text preceded by one space exactly when NeedsSpace holds against the median |
| Layout.LineSpacing | pdftext.go:403-430 | For glyph texts without spaces, a line holds one space per position where NeedsSpace holds, and removing the spaces leaves the glyph texts in order |
| Layout.NewlinePerBoundary | pdftext.go:355-374 | For glyph texts without newlines, the page text holds exactly one newline per boundary |
| Layout.OneGlyphLineAddsNewline | pdftext.go:374-378 | A boundary that completes a line of at most one glyph adds only its newline |
| Layout.TextUpToPrefix | pdftext.go:355-442 | The text and the line start after m glyphs do not depend on the glyphs after them |
| Layout.TextUpToFlat | pdftext.go:355-442 | Glyphs that start no line add nothing to the text |
| Layout.TrailingRunDropped | pdftext.go:355-443 | The glyphs after the last boundary never appear: the page gives the same text as its prefix up to that boundary |
| Layout.NoBoundaryNoText | pdftext.go:355-443 | A page with no boundary yields "" |
| Pages.GoodCount | pdftext.go:314-323 | goodCount never exceeds the number of tokens |
| Pages.KeepPageMajority | pdftext.go:324-326 | A page is kept iff 2·goodCount > strCount, the same test as goodCount > strCount/2; an empty page (one empty token) is always dropped |
| Pages.PageKept | pdftext.go:313-326 | The counting loop decides KeepPage for the page text |
| Pages.KeptPagesExactly | pdftext.go:309-328 | The kept pages are exactly the pages that pass the filter |
| Pages.KeptPagesSnoc | pdftext.go:324-326 | Pages are appended in page order, each one only when it passes |
| Pages.KeepPages | pdftext.go:309-328 | The page loop collects KeptPages of the getText results of all pages |
| Pages.AsciiOnly | pdftext.go:332-337 | Every rune the filter keeps is one byte long and not NUL |
| Pages.AsciiOnlyKeepsExactly | pdftext.go:332-337 | Each one-byte non-NUL rune is kept as often as it occurs; no other rune is kept |
| Pages.AsciiFilter | pdftext.go:330-338 | The rune-buffer loop yields AsciiPadded: the kept runes in order, then NULs up to the input's byte length |
| Pages.AsciiPaddedLength | pdftext.go:330-338 | The result has as many runes and bytes as the input has bytes, so it is empty iff the input is |
| Pages.AsciiUnchanged | pdftext.go:330-338 | Text made only of one-byte non-NUL runes passes unchanged |
| Pages.ProcessFile | pdftext.go:309-338 | processFile yields DocumentText: "" for a failed decode, otherwise the filtered join of the kept page texts |
| Pages.EmptyDocumentIff | pdftext.go:324-338 | A decoded document's text is empty iff no page was kept |
| Words.LastAlnum | pdftext.go:234-240 | The index of the last letter or digit, with none after it, or -1 |
| Words.LastAlnumIndex | pdftext.go:233-240 | The backward scan stops at LastAlnum |
| Words.Normalize | pdftext.go:232-248 | A field becomes its lowercase form cut after its last letter or digit. It is dropped exactly when the cut leaves fewer than two runes or a first rune that is neither a letter nor a digit |
| Words.CandidatesWellFormed | pdftext.go:230-249 | Every word taken from whitespace fields has at least two runes, no space, is lowercase, and starts and ends with a letter or digit |
| Words.TextWordsWellFormed | pdftext.go:230-249 | The same for the words of a text |
| Words.AppendWords | pdftext.go:230-250 | The field loop appends the candidates of the fields, in order, to tag.Words |
| Words.Dedup | pdftext.go:252-262 | De-duplication keeps exactly the words that occur |
| Words.DedupDistinct | pdftext.go:252-262 | The de-duplicated list has no repeats |
| Words.DedupInPlace | pdftext.go:252-262 | The seen/j loop leaves Dedup of the original words in a[..j] |
| Words.SortedWordsShape | pdftext.go:252-263 | tag.Words ends strictly increasing, so sorted and duplicate-free, and holds exactly the appended words |
| Words.CollectWords | pdftext.go:230-263 | tag.Words becomes the sorted, de-duplicated old words plus the text's words |
| Words.MatchKeywords | pdftext.go:266-271 | The keyword loop finds exactly the keywords contained in the lowercased text |
| Words.FoundIff | pdftext.go:266-271 | A keyword is found iff it occurs at some position of the lowercased text |
| Words.StrLessIsStrictTotal | pdftext.go:263 | The byte-wise string order of sort.Strings is a strict total order |
| Strs.IndexFrom | pdftext.go:268 | strings.Index: the first occurrence at or after i, or -1 when there is none |
| Strs.ContainsIff | pdftext.go:268 | strings.Contains holds iff the substring occurs at some position |
| Strs.ReplaceFirst | pdftext.go:175 | strings.Replace with n = 1 replaces the first occurrence only, and leaves text without one unchanged |
| Strs.RemoveAllRemoves | pdftext.go:529 | strings.Replace with n = -1 and an empty replacement leaves no occurrence |
| Strs.SplitJoin | pdftext.go:313 | strings.Split gives one more piece than there are separators, no piece holds the separator, and joining the pieces gives the input back |
| Strs.Fields | pdftext.go:230 | strings.Fields gives non-empty fields without white space |
| Strs.FieldsConcat | pdftext.go:230 | Run together, the fields are the input with every white-space character removed |
| Strs.FieldsCount | pdftext.go:230 | There is one field per position holding a non-space at the start or after a space |
| Strs.DecimalRoundTrip | pdftext.go:582 | The digits %d prints read back as the number |
| Strs.DecimalInjective | pdftext.go:582 | Distinct numbers print differently |
| Strs.StrLessTotal | pdftext.go:263 | Distinct strings are ordered one way or the other |
| Unicode.ToLower | pdftext.go:232 | Lowercasing keeps letters letters, digits digits and ASCII ASCII; it changes exactly A-Z and the Latin-1 capitals U+00C0-U+00DE other than U+00D7, each to the code point 32 above |
| Unicode.LowerIsLowered | pdftext.go:232 | Lowercasing is idempotent |
| Unicode.RuneLen | pdftext.go:333 | utf8.RuneLen is 1 exactly for code points below 0x80 |
| Unicode.ByteLenConcat | pdftext.go:330 | The byte length of a concatenation is the sum of the byte lengths |
| Paths.BaseShape | pdftext.go:173 | filepath.Base is "/" or a single element without '/' |
| Paths.ExtShape | pdftext.go:562 | filepath.Ext is "" or a suffix of the path that starts with its only '.' and holds no '/' |
| Paths.CleanSegsElements | pdftext.go:561 | filepath.Clean keeps no empty and no "." element |
| Paths.CleanAppendPlain | pdftext.go:561 | Joining a directory with a plain name cleans to a prefix that is empty or ends in '/', followed by that name; that prefix cleans to the cleaned directory |
| Paths.ConvertBase | pdftext.go:559-563 | When newbase plus the old extension is a plain path element (non-empty, not "." or "..", no '/'), the convert closure gives a path whose base name is newbase followed by the old extension |
| Paths.ConvertDir | pdftext.go:559-563 | When newbase plus the old extension is a plain path element (non-empty, not "." or "..", no '/'), the converted path stays in the directory of the original path |
| Paths.CleanIdempotent | pdftext.go:561 | filepath.Clean of a cleaned path is that path |
| Names.Suffixed | pdftext.go:582 | base-N starts with base and a '-' |
| Names.SuffixedInjective | pdftext.go:581-588 | Distinct suffixes give distinct names |
| Names.TakenBound | pdftext.go:581-588 | When the names base-1 … base-(s-1) are all taken, the registry has at least s-1 names, so the suffix search ends |
| Names.FreeSuffix | pdftext.go:581-588 | The suffix found is free, and every smaller suffix is taken |
| Names.ChosenName | pdftext.go:580-589 | The chosen name is not in the registry: base itself when free, otherwise base-s for the smallest free s ≥ 1 |
| Names.ChosenSuffixUnique | pdftext.go:580-589 | The free suffix with all smaller ones taken is unique |
| Names.StemOfPdf | pdftext.go:77 | A base name whose only ".pdf" is its extension has that name without the extension as its stem |
| Names.Registry.constructor | pdftext.go:76-78 | The registry starts as the stems of the pre-existing PDFs |
| Names.Registry.Claim | pdftext.go:579-594 | The locked section hands out ChosenName, which was absent, and the registry becomes the old set plus exactly that name |
| Rules.Expand | pdftext.go:473-477 | A bare name gains its '-'-separated parts, one more than its '-' count, which joined with '-' give the name back; longer rules are kept |
| Rules.InitRules | pdftext.go:472-486 | init leaves the normalised table and the union of its tokens as keywords |
| Rules.LowerTokens | pdftext.go:478-485 | The inner loop lowercases the tokens and collects them |
| Rules.NormalizedRuleShape | pdftext.go:472-485 | A normalised named rule keeps its name first and has at least one keyword, all lowercase |
| Rules.BareNameKeywords | pdftext.go:473-484 | A bare name's keywords, joined with '-', are the lowercased name |
| Rules.LowerJoin | pdftext.go:474-482 | Lowercasing commutes with joining on a non-letter separator |
| Rules.NormalizeIdempotent | pdftext.go:472-485 | Normalising a normalised rule changes nothing |
| Rules.KeywordsOfTable | pdftext.go:484 | A string is a keyword iff it is a token of some rule |
| Rules.KeywordsLowered | pdftext.go:482-484 | Every keyword is lowercase |
| Dates.NumericName | pdftext.go:43 | A numeric name ends in "pdf" and has at least 23 characters |
| Dates.NumericNameSuffix | pdftext.go:43 | The pattern is anchored only at the end: any prefix keeps a match |
| Dates.NumericNameSeparator | pdftext.go:43 | The unescaped '.' accepts any character but a newline before "pdf" |
| Dates.FindFirstDate | pdftext.go:527-532 | A match on the text itself wins; when there is none the result is the match on the text with every space removed |
| Dates.FindFirstDateSpaceless | pdftext.go:527-532 | Text without spaces gets a single search |
| Dates.FindFirstDateStable | pdftext.go:527-532 | Searching the space-stripped text is a single search |
| Document.FirstMatch | pdftext.go:566-577 | The rule chosen applies, no earlier rule does, and none means no rule applies |
| Document.RuleApplies | pdftext.go:569-575 | The token loop succeeds iff every token of arr[1:] is among the tags |
| Document.FindRule | pdftext.go:566-577 | The rule loop stops at the first rule that applies, in table order |
| Document.RenameSpec | pdftext.go:556-611 | renameBase adds at most one name to the registry, and none unless it renames |
| Document.RenameByFirstRule | pdftext.go:564-596 | With tags and a first applying rule k, the base becomes ChosenName of rules[k][0] + FirstDate. It was free and is registered, Renamed is set, and both paths move to it |
| Document.NoRuleNoChange | pdftext.go:564-597 | With tags and no applying rule, nothing changes |
| Document.NoTagsOutcome | pdftext.go:598-610 | Without tags: with text nothing changes; with no text the text file and the new PDF both move to notext- plus the base name with its first extension removed, and Renamed and the registry are untouched |
| Document.RenamedBaseName | pdftext.go:559-596 | After renaming, NewPDF's base name is the chosen name plus the old extension |
| Document.TextNameOfPdf | pdftext.go:174-175 | A file whose only ".pdf" is its extension gets the ".txt" extension |
| Document.ReadDocument | pdftext.go:222-271 | The document's text, first date, sorted words and found keywords |
| Document.OutputTag.constructor | pdftext.go:98-104 | A new tag has only its path and output directory set |
| Document.OutputTag.ProcessFileAndRename | pdftext.go:218-272 | Text, FirstDate, Words and Tags are set from the document, and the naming fields are untouched |
| Document.OutputTag.RenameBase | pdftext.go:556-611 | The naming state (paths, Renamed, registry) becomes RenameSpec of the old state; the other fields are untouched |
| Document.OutputTag.RenameTagged | pdftext.go:564-597 | With tags, the naming state becomes RenameSpec of the old state: the first applying rule's claimed name, or no change; the other fields are untouched |
| Document.OutputTag.Relocate | pdftext.go:559-563 | Both output paths are converted to the new base name |
| Document.OutputTag.StartNames | pdftext.go:171-180 | Tags are emptied; TextFileName is the output directory joined with the base name whose first ".pdf" becomes ".txt"; NewPDF is the output flag's directory joined with the base name |
| Document.OutputTag.ExtractAndRename | pdftext.go:181-184 | processFileAndRename then renameBase from empty tags |
| Document.OutputTag.Process | pdftext.go:165-217 | The output names, then, for a numeric name or when renameNewOnly is off, text, words, tags and renaming; otherwise nothing else changes. AddToAllTags is set for a numeric name when the base name was kept or tagcvtonly is off |
| Document.CountWords | pdftext.go:153-159 | The word loop of Extract computes Tally |
| Document.TallyCounts | pdftext.go:153-159 | Each count rises by the number of letter-initial words that lowercase to its key; no other key appears |
| Document.DistinctWordsBumpOnce | pdftext.go:152-159 | For tag.Words as processFileAndRename leaves them, each letter-initial word raises its count by exactly one and every other count stays |
| Document.Pruned | pdftext.go:128-132 | After the prune, exactly the entries with count ≥ 4 and key byte length ≥ 5 remain, with their counts unchanged |
| Document.PrunedIdempotent | pdftext.go:128-132 | Pruning twice is pruning once |
| Document.Aggregates.constructor | pdftext.go:79 | alltags and allWords start empty |
| Document.Aggregates.Extract | pdftext.go:147-162 | A real tag to be added is filed under its base name. The words of a real, unrenamed tag are tallied. A placeholder or renamed tag leaves allWords unchanged |
| Document.Aggregates.Prune | pdftext.go:128-132 | The prune loop leaves Pruned(allWords) and does not touch alltags |
| Sorting.SortSeqSorted | pdftext.go:263 | The reference sort sorts |
| Sorting.SortedUnique | pdftext.go:397 | Under a strict total order, two sorted permutations of the same elements are equal, so the result of sort.Strings and sort.Float64s does not depend on the algorithm |
| Sorting.SortPrefix | pdftext.go:263 | Sorting overwrites a[..n] with its sorted permutation and leaves the rest |

## Left out

- PDF decoding (pdftext.go:282-311) is not part of this model. A document is given as `Option<seq<seq<Glyph>>>`: `None` stands for a decoder failure that the deferred `recover` turns into "", `Some(pages)` for each page's glyphs.
- File I/O is left out: Walk and Glob, the PDF copy or symlink, the text file, the JSON files, and `log.Fatal`. The pre-existing PDF list is a parameter of `Names.Registry`. The `--files` branch of Run (pdftext.go:58-70) only prints.
- Concurrency is left out: the tagChan pool, WaitGroup and Mutex. `Names.Registry.Claim` is the locked section as one atomic step. The order in which workers reach Extract is not modelled; each Extract call is.
- Date recognition (the dateRE and expRE1 expressions, time.Parse and Format) is the parameter `dateFind`; only findFirstDate's fallback is modelled.
- Glyph coordinates and sizes are `real`. Float rounding, NaN and signed zero are not modelled.
- The debug and timing output (linemap, dout, elapsed, the 500 ms print) and flag parsing are left out. The flags Process reads (`output`, `renamenew`, `tagonly`) are parameters.
- unicode.IsLetter and ToLower are exact below U+0100 only; other code points count as non-letters and are not lowercased. A page of mostly non-Latin words therefore fails the page filter's majority test (pdftext.go:319-325) where Go keeps it, and a document of such pages becomes the notext case of renameBase. unicode.IsDigit is modelled as '0'..'9' only, while Go's IsDigit accepts every decimal-digit (Nd) code point, such as U+0660..U+0669 and U+FF10..U+FF19; for text with such digits the model's Normalize (pdftext.go:237, 246) cuts such a field shorter than Go does, or drops a word Go keeps, and the page filter's count of good characters (pdftext.go:319) is lower than Go's. Strings are sequences of code points, so invalid UTF-8 is not modelled.
- path/filepath is modelled for '/' as the separator and without volume names.
- The renameKeys table is not defined in pdftext.go. It is modelled as an ordered sequence of rules, each a name followed by tokens.
- Sorting.SortPrefix: the algorithm of sort.Strings and sort.Float64s is not modelled, only its result. SortPrefix writes the reference sorted permutation back into the array, and Sorting.SortedUnique shows every correct sort gives that sequence.
- Layout.UpwardNeverBreaks: holds only when the previous glyph's font size is not negative; a negative size makes the threshold negative.
- Layout.NewlinePerBoundary: stated for glyph texts without newlines; a glyph text holding "\n" adds newlines of its own.
- Layout.LineSpacing: stated for glyph texts without spaces, for the same reason.
- Document.DistinctWordsBumpOnce: stated for distinct, lowercase, non-empty words, as processFileAndRename leaves tag.Words; Document.TallyCounts covers any word list.
- Document.Aggregates.Extract: requires the words of a real, unrenamed tag to be non-empty, as `[]rune(w)[0]` demands; processFileAndRename only produces words of two or more runes.
- Document.RenamedBaseName: stated for a chosen name plus extension that is a plain path element (non-empty, not "." or "..", no '/').
- Paths.ConvertBase: stated only when newbase plus the old extension is a plain path element; a newbase holding '/' ("a/b") makes filepath.Join descend into a subdirectory, so the base name is then only the part after the last '/', in Go as in the model.
- Paths.ConvertDir: stated under the same plain-element condition; with a '/' in newbase the converted path lies in a subdirectory of the original directory, in Go as in the model.
