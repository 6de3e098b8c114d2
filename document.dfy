/** The per-document pipeline of pdftext.go: an OutputTag is named from its
    path (Process), filled with the document's text, first date, words and
    keyword tags (processFileAndRename), possibly renamed by the first rule
    whose keywords it carries (renameBase), and finally merged into the
    tag and word-frequency aggregates (Extract and the final prune). */
module Document {
  import opened Options
  import opened Unicode
  import opened Strs
  import opened Layout
  import opened Pages
  import opened Words
  import opened Paths
  import opened Names
  import opened Dates

  // ---------------------------------------------------------------------
  // Rule selection

  /** Every rule has a name (renameBase reads arr[0] of each rule it tries). */
  predicate WellFormedRules(rules: seq<seq<string>>) {
    forall k :: 0 <= k < |rules| ==> |rules[k]| >= 1
  }

  /** Every keyword of the rule is among the tags. */
  predicate Applies(rule: seq<string>, tags: set<string>) {
    forall j :: 1 <= j < |rule| ==> rule[j] in tags
  }

  /** The first rule from index from on that applies, in table order. */
  function FirstMatch(rules: seq<seq<string>>, tags: set<string>, from: nat): (r: Option<nat>)
    ensures r.Some? ==> from <= r.value < |rules| && Applies(rules[r.value], tags)
    ensures r.Some? ==> forall j :: from <= j < r.value ==> !Applies(rules[j], tags)
    ensures r.None? ==> forall j :: from <= j < |rules| ==> !Applies(rules[j], tags)
    decreases |rules| - from
  {
    if from >= |rules| then None
    else if Applies(rules[from], tags) then Some(from)
    else FirstMatch(rules, tags, from + 1)
  }

  /** The inner token loop of renameBase: does every keyword of the rule
      occur among the tags? */
  method RuleApplies(arr: seq<string>, tags: set<string>) returns (success: bool)
    ensures success == Applies(arr, tags)
  {
    success := true;
    var i := 1;
    while i < |arr|
      invariant 1 <= i
      invariant forall j :: 1 <= j < i && j < |arr| ==> arr[j] in tags
    {
      if arr[i] !in tags {
        success := false;
        break;
      }
      i := i + 1;
    }
  }

  /** The rule loop of renameBase: the index of the first rule, in table
      order, whose keywords are all tagged. */
  method FindRule(rules: seq<seq<string>>, tags: set<string>) returns (m: Option<nat>)
    ensures m == FirstMatch(rules, tags, 0)
  {
    var k := 0;
    while k < |rules|
      invariant k <= |rules|
      invariant FirstMatch(rules, tags, 0) == FirstMatch(rules, tags, k)
    {
      var success := RuleApplies(rules[k], tags);
      if success {
        return Some(k);
      }
      k := k + 1;
    }
    return None;
  }

  /** The outcome of renameBase: both output paths, the Renamed flag and the
      registry's names. */
  datatype Naming = Naming(textFileName: string, newPdf: string, renamed: bool, names: set<string>)

  /** The base name the notext branch gives a file: "notext-" and the file
      name with the first occurrence of its extension removed. */
  function NoTextBase(originalPdf: string): string {
    "notext-" + ReplaceFirst(Base(originalPdf), Ext(originalPdf), "")
  }

  /** What renameBase does, as a function of the tag and the registry. */
  function RenameSpec(tags: set<string>, text: string, originalPdf: string, firstDate: string,
                      rules: seq<seq<string>>, start: Naming): (r: Naming)
    requires WellFormedRules(rules)
    ensures start.names <= r.names && |r.names - start.names| <= 1
    ensures !r.renamed ==> r.names == start.names
  {
    if |tags| > 0 then
      match FirstMatch(rules, tags, 0)
      case None => start
      case Some(k) =>
        var nb := ChosenName(start.names, rules[k][0] + firstDate);
        assert start.names + {nb} - start.names == {nb};
        Naming(Convert(start.textFileName, nb), Convert(start.newPdf, nb), true, start.names + {nb})
    else if text == "" then
      var nb := NoTextBase(originalPdf);
      start.(textFileName := Convert(start.textFileName, nb), newPdf := Convert(start.newPdf, nb))
    else start
  }

  /** With tags, the first rule in table order whose keywords are all tagged
      decides the name: its name followed by the first date, made unique
      against the registry, which gains exactly that name. */
  lemma RenameByFirstRule(tags: set<string>, text: string, originalPdf: string, firstDate: string,
                          rules: seq<seq<string>>, start: Naming, k: nat)
    requires WellFormedRules(rules) && |tags| > 0
    requires k < |rules| && Applies(rules[k], tags)
    requires forall j :: 0 <= j < k ==> !Applies(rules[j], tags)
    ensures var r := RenameSpec(tags, text, originalPdf, firstDate, rules, start);
      var nb := ChosenName(start.names, rules[k][0] + firstDate);
      && r.renamed
      && nb !in start.names
      && r.names == start.names + {nb}
      && r.textFileName == Convert(start.textFileName, nb)
      && r.newPdf == Convert(start.newPdf, nb)
  {
    var m := FirstMatch(rules, tags, 0);
    assert m.Some?;
    assert !(m.value < k) && !(k < m.value);
  }

  /** With tags but no applicable rule, nothing changes. */
  lemma NoRuleNoChange(tags: set<string>, text: string, originalPdf: string, firstDate: string,
                       rules: seq<seq<string>>, start: Naming)
    requires WellFormedRules(rules) && |tags| > 0
    requires forall j :: 0 <= j < |rules| ==> !Applies(rules[j], tags)
    ensures RenameSpec(tags, text, originalPdf, firstDate, rules, start) == start
  {
    assert FirstMatch(rules, tags, 0).None?;
  }

  /** Without tags, a file without text gets the notext- name with Renamed
      and the registry left alone, and a file with text keeps its names. */
  lemma NoTagsOutcome(text: string, originalPdf: string, firstDate: string,
                      rules: seq<seq<string>>, start: Naming)
    requires WellFormedRules(rules)
    ensures var r := RenameSpec({}, text, originalPdf, firstDate, rules, start);
      && r.renamed == start.renamed
      && r.names == start.names
      && (text != "" ==> r == start)
      && (text == "" ==> r.newPdf == Convert(start.newPdf, NoTextBase(originalPdf)))
      && (text == "" ==> r.textFileName == Convert(start.textFileName, NoTextBase(originalPdf)))
  {
  }

  /** When the new base name and the extension form a plain path element,
      the renamed PDF's file name is that base name followed by the old
      extension. */
  lemma RenamedBaseName(tags: set<string>, text: string, originalPdf: string, firstDate: string,
                        rules: seq<seq<string>>, start: Naming, k: nat)
    requires WellFormedRules(rules) && |tags| > 0
    requires FirstMatch(rules, tags, 0) == Some(k)
    requires PlainName(ChosenName(start.names, rules[k][0] + firstDate) + Ext(start.newPdf))
    ensures var r := RenameSpec(tags, text, originalPdf, firstDate, rules, start);
      Base(r.newPdf) == ChosenName(start.names, rules[k][0] + firstDate) + Ext(start.newPdf)
  {
    ConvertBase(start.newPdf, ChosenName(start.names, rules[k][0] + firstDate));
  }

  // ---------------------------------------------------------------------
  // The tag of one document

  /** The strings.Replace(base, ".pdf", ".txt", 1) of Process: only the
      first ".pdf" of the file name becomes ".txt". */
  function TextName(path: string): string {
    ReplaceFirst(Base(path), ".pdf", ".txt")
  }

  /** A file name whose only ".pdf" is its extension gets the ".txt" one. */
  lemma TextNameOfPdf(b: string)
    requires |b| >= 4 && Index(b, ".pdf") == |b| - 4
    ensures ReplaceFirst(b, ".pdf", ".txt") == b[..|b| - 4] + ".txt"
  {
    assert OccursAt(b, ".pdf", |b| - 4);
  }

  /** What processFileAndRename learns from a document: its text, the first
      date in it, the sorted distinct words it adds to existing, and the
      keywords it holds. */
  method ReadDocument(doc: Option<seq<seq<Glyph>>>, dateFind: string -> string, keywords: set<string>,
                      existing: seq<string>)
    returns (text: string, firstDate: string, words: seq<string>, found: set<string>)
    ensures text == DocumentText(doc)
    ensures firstDate == FindFirstDate(text, dateFind)
    ensures words == SortedWords(existing + TextWords(text))
    ensures found == Found(text, keywords)
  {
    text := ProcessFile(doc);
    firstDate := FindFirstDate(text, dateFind);
    words := CollectWords(existing, text);
    found := MatchKeywords(text, keywords);
  }

  /** OutputTag: what pdftext records about one PDF. */
  class OutputTag {
    var originalPdf: string
    var output: string
    var newPdf: string
    var textFileName: string
    var firstDate: string
    var text: string
    var tags: set<string>
    var words: seq<string>
    var renamed: bool
    var addToAllTags: bool

    /** The tag the directory walk creates for a PDF. */
    constructor(originalPdf: string, output: string)
      ensures this.originalPdf == originalPdf && this.output == output
      ensures newPdf == "" && textFileName == "" && firstDate == "" && text == ""
      ensures tags == {} && words == [] && !renamed && !addToAllTags
    {
      this.originalPdf := originalPdf;
      this.output := output;
      newPdf := "";
      textFileName := "";
      firstDate := "";
      text := "";
      tags := {};
      words := [];
      renamed := false;
      addToAllTags := false;
    }

    /** The current naming state, as renameBase sees it. */
    function CurrentNaming(reg: Registry): Naming
      reads this, reg
    {
      Naming(textFileName, newPdf, renamed, reg.names)
    }

    /** processFileAndRename with the decoder's output as input. */
    method ProcessFileAndRename(doc: Option<seq<seq<Glyph>>>, dateFind: string -> string, keywords: set<string>)
      modifies this
      ensures text == DocumentText(doc)
      ensures firstDate == FindFirstDate(text, dateFind)
      ensures words == SortedWords(old(words) + TextWords(text))
      ensures tags == old(tags) + Found(text, keywords)
      ensures unchanged(this`originalPdf, this`output, this`newPdf, this`textFileName, this`renamed, this`addToAllTags)
    {
      var t, date, w, found := ReadDocument(doc, dateFind, keywords, words);
      text := t;
      firstDate := date;
      words := w;
      tags := tags + found;
    }

    /** renameBase: rename by the first rule whose keywords are all tagged,
        under a name made unique against the registry; or, without tags and
        without text, give the notext- name and leave the registry alone. */
    method RenameBase(rules: seq<seq<string>>, reg: Registry)
      requires WellFormedRules(rules)
      modifies this, reg
      ensures CurrentNaming(reg) == RenameSpec(old(tags), old(text), old(originalPdf), old(firstDate), rules, old(CurrentNaming(reg)))
      ensures unchanged(this`originalPdf, this`output, this`firstDate, this`text, this`tags, this`words, this`addToAllTags)
    {
      ghost var start := CurrentNaming(reg);
      if |tags| > 0 {
        RenameTagged(rules, reg);
      } else if |text| == 0 {
        Relocate(NoTextBase(originalPdf));
        NoTagsOutcome(text, originalPdf, firstDate, rules, start);
      }
    }

    /** The tagged branch of renameBase: the first rule whose keywords all
        occur among the tags names the file. */
    method RenameTagged(rules: seq<seq<string>>, reg: Registry)
      requires WellFormedRules(rules) && |tags| > 0
      modifies this, reg
      ensures CurrentNaming(reg) == RenameSpec(old(tags), old(text), old(originalPdf), old(firstDate), rules, old(CurrentNaming(reg)))
      ensures unchanged(this`originalPdf, this`output, this`firstDate, this`text, this`tags, this`words, this`addToAllTags)
    {
      ghost var start := CurrentNaming(reg);
      var m := FindRule(rules, tags);
      if m.Some? {
        var newbase := reg.Claim(rules[m.value][0] + firstDate);
        Relocate(newbase);
        renamed := true;
        RenameByFirstRule(tags, text, originalPdf, firstDate, rules, start, m.value);
      } else {
        NoRuleNoChange(tags, text, originalPdf, firstDate, rules, start);
      }
    }

    /** The two convert calls of renameBase: both output paths move to the
        new base name, keeping their directories and extensions. */
    method Relocate(newBase: string)
      modifies this
      ensures textFileName == Convert(old(textFileName), newBase)
      ensures newPdf == Convert(old(newPdf), newBase)
      ensures unchanged(this`originalPdf, this`output, this`firstDate, this`text, this`tags, this`words, this`renamed, this`addToAllTags)
    {
      var textPath := Convert(textFileName, newBase);
      var pdfPath := Convert(newPdf, newBase);
      textFileName, newPdf := textPath, pdfPath;
    }

    /** The first steps of Process: empty tags, and the text file and new
        PDF named after the original in their output directories. */
    method StartNames(outputFlag: string)
      modifies this
      ensures tags == {}
      ensures textFileName == JoinPath(output, TextName(originalPdf))
      ensures newPdf == JoinPath(outputFlag, Base(originalPdf))
      ensures unchanged(this`originalPdf, this`output, this`firstDate, this`text, this`words, this`renamed, this`addToAllTags)
    {
      var original, dir := originalPdf, output;
      var textf := JoinPath(dir, TextName(original));
      var pdf := JoinPath(outputFlag, Base(original));
      tags, textFileName, newPdf := {}, textf, pdf;
      assert original == originalPdf && dir == output;
    }

    /** The branch of Process for a selected file: processFileAndRename
        then renameBase, starting from empty tags. */
    method ExtractAndRename(doc: Option<seq<seq<Glyph>>>, dateFind: string -> string,
                            rules: seq<seq<string>>, keywords: set<string>, reg: Registry)
      requires WellFormedRules(rules)
      requires tags == {}
      modifies this, reg
      ensures text == DocumentText(doc)
      ensures firstDate == FindFirstDate(text, dateFind)
      ensures words == SortedWords(old(words) + TextWords(text))
      ensures tags == Found(text, keywords)
      ensures CurrentNaming(reg) == RenameSpec(tags, text, originalPdf, firstDate, rules, old(CurrentNaming(reg)))
      ensures unchanged(this`originalPdf, this`output, this`addToAllTags)
    {
      ProcessFileAndRename(doc, dateFind, keywords);
      RenameBase(rules, reg);
    }

    /** Process without its file output: the output names, then text, words,
        tags and renaming for the files it selects, then AddToAllTags. */
    method Process(outputFlag: string, renameNewOnly: bool, tagCvtOnly: bool,
                   doc: Option<seq<seq<Glyph>>>, dateFind: string -> string,
                   rules: seq<seq<string>>, keywords: set<string>, reg: Registry)
      requires WellFormedRules(rules)
      modifies this, reg
      ensures originalPdf == old(originalPdf) && output == old(output)
      ensures var selected := NumericName(originalPdf) || !renameNewOnly;
        var start := Naming(JoinPath(output, TextName(originalPdf)), JoinPath(outputFlag, Base(originalPdf)),
                            old(renamed), old(reg.names));
        && (selected ==>
              && text == DocumentText(doc)
              && firstDate == FindFirstDate(text, dateFind)
              && words == SortedWords(old(words) + TextWords(text))
              && tags == Found(text, keywords)
              && CurrentNaming(reg) == RenameSpec(tags, text, originalPdf, firstDate, rules, start))
        && (!selected ==>
              && text == old(text) && firstDate == old(firstDate) && words == old(words)
              && tags == {}
              && CurrentNaming(reg) == start)
      ensures addToAllTags == (old(addToAllTags) ||
        ((!tagCvtOnly || Base(newPdf) == Base(originalPdf)) && NumericName(originalPdf)))
    {
      var path := originalPdf;
      StartNames(outputFlag);
      ghost var start := CurrentNaming(reg);
      assert start == Naming(JoinPath(output, TextName(path)), JoinPath(outputFlag, Base(path)), old(renamed), old(reg.names));
      var isNumericName := NumericName(path);
      if isNumericName || !renameNewOnly {
        ExtractAndRename(doc, dateFind, rules, keywords, reg);
      }
      var sameName := Base(newPdf) == Base(path);
      if (!tagCvtOnly || sameName) && isNumericName {
        addToAllTags := true;
      }
    }
  }

  // ---------------------------------------------------------------------
  // Aggregation

  /** A map's value for k, 0 when k is missing (Go's zero value). */
  function Get(m: map<string, int>, k: string): int {
    if k in m then m[k] else 0
  }

  /** The word is counted: its first rune is a letter. */
  predicate Counted(w: string) {
    w != [] && IsLetter(w[0])
  }

  /** The allWords update of Extract for a list of words. */
  function Tally(counts: map<string, int>, words: seq<string>): map<string, int>
    requires forall i :: 0 <= i < |words| ==> words[i] != ""
  {
    if words == [] then counts
    else
      var c := Tally(counts, words[..|words| - 1]);
      var w := words[|words| - 1];
      if IsLetter(w[0]) then c[Lower(w) := Get(c, Lower(w)) + 1] else c
  }

  /** The word loop of Extract: each word that starts with a letter raises
      the count of its lowercase form by one. */
  method CountWords(counts: map<string, int>, words: seq<string>) returns (r: map<string, int>)
    requires forall i :: 0 <= i < |words| ==> words[i] != ""
    ensures r == Tally(counts, words)
  {
    r := counts;
    var i := 0;
    while i < |words|
      invariant i <= |words|
      invariant r == Tally(counts, words[..i])
    {
      var w := words[i];
      TallyStep(counts, words, i);
      if IsLetter(w[0]) {
        w := Lower(w);
        var c := Get(r, w);
        r := r[w := c + 1];
      }
      i := i + 1;
    }
    assert words[..i] == words;
  }

  lemma TallyStep(counts: map<string, int>, words: seq<string>, i: nat)
    requires forall i :: 0 <= i < |words| ==> words[i] != ""
    requires i < |words|
    ensures var c := Tally(counts, words[..i]);
      Tally(counts, words[..i + 1]) == if IsLetter(words[i][0]) then c[Lower(words[i]) := Get(c, Lower(words[i])) + 1] else c
  {
    assert words[..i + 1][..i] == words[..i];
  }

  /** How many counted words lowercase to k. */
  function Bumps(words: seq<string>, k: string): nat {
    if words == [] then 0
    else
      var w := words[|words| - 1];
      Bumps(words[..|words| - 1], k) + (if Counted(w) && Lower(w) == k then 1 else 0)
  }

  /** Tally raises each count by the number of counted words that lowercase
      to its key, and adds no key that no such word has. */
  lemma {:induction false} TallyCounts(counts: map<string, int>, words: seq<string>, k: string)
    requires forall i :: 0 <= i < |words| ==> words[i] != ""
    ensures Get(Tally(counts, words), k) == Get(counts, k) + Bumps(words, k)
    ensures k in Tally(counts, words) <==> k in counts || Bumps(words, k) > 0
    decreases |words|
  {
    if words != [] {
      TallyCounts(counts, words[..|words| - 1], k);
    }
  }

  /** Words with no repeats that are already lowercase, as tag.Words holds
      them, each raise their own count by exactly one when they start with
      a letter, and leave every other count alone. */
  lemma DistinctWordsBumpOnce(counts: map<string, int>, words: seq<string>, k: string)
    requires forall i :: 0 <= i < |words| ==> words[i] != "" && IsLowered(words[i])
    requires Distinct(words)
    ensures Get(Tally(counts, words), k) == Get(counts, k) + (if k in words && Counted(k) then 1 else 0)
  {
    TallyCounts(counts, words, k);
    BumpsDistinct(words, k);
  }

  lemma {:induction false} BumpsDistinct(words: seq<string>, k: string)
    requires forall i :: 0 <= i < |words| ==> IsLowered(words[i])
    requires Distinct(words)
    ensures Bumps(words, k) == if k in words && Counted(k) then 1 else 0
    decreases |words|
  {
    if words != [] {
      var init := words[..|words| - 1];
      var w := words[|words| - 1];
      BumpsDistinct(init, k);
      LoweredFixed(w);
      assert w !in init;
      assert words == init + [w];
    }
  }

  /** The allWords entries the final prune keeps. */
  predicate Keep(m: map<string, int>, k: string)
    requires k in m
  {
    m[k] >= 4 && ByteLen(k) >= 5
  }

  /** allWords after the prune of Run: the entries with a count of at least
      4 and a key of at least 5 bytes, with their counts. */
  function Pruned(m: map<string, int>): (r: map<string, int>)
    ensures forall k :: k in r <==> k in m && Keep(m, k)
    ensures forall k :: k in r ==> r[k] == m[k] && r[k] >= 4 && ByteLen(k) >= 5
  {
    map k | k in m && Keep(m, k) :: m[k]
  }

  /** Pruning a pruned map changes nothing. */
  lemma PrunedIdempotent(m: map<string, int>)
    ensures Pruned(Pruned(m)) == Pruned(m)
  {
  }

  /** The alltags and allWords maps of Run. */
  class Aggregates {
    var allTags: map<string, OutputTag>
    var allWords: map<string, int>

    constructor()
      ensures allTags == map[] && allWords == map[]
    {
      allTags := map[];
      allWords := map[];
    }

    /** Extract: a tag of a real file is filed under its base name when it
        is to be added, and the words of a file that was not renamed are
        counted. */
    method Extract(tag: OutputTag)
      requires tag.originalPdf != "" && !tag.renamed ==> forall i :: 0 <= i < |tag.words| ==> tag.words[i] != ""
      modifies this
      ensures allTags == if tag.originalPdf != "" && tag.addToAllTags
        then old(allTags)[Base(tag.originalPdf) := tag] else old(allTags)
      ensures allWords == if tag.originalPdf != "" && !tag.renamed
        then Tally(old(allWords), tag.words) else old(allWords)
    {
      if tag.originalPdf != "" {
        if tag.addToAllTags {
          allTags := allTags[Base(tag.originalPdf) := tag];
        }
        if !tag.renamed {
          var counts := CountWords(allWords, tag.words);
          allWords := counts;
        }
      }
    }

    /** The prune loop of Run over allWords. */
    method Prune()
      modifies this
      ensures allWords == Pruned(old(allWords))
      ensures allTags == old(allTags)
    {
      var words := allWords;
      var keys := words.Keys;
      while keys != {}
        invariant keys <= old(allWords).Keys
        invariant forall k :: k in words <==> k in old(allWords) && (k in keys || Keep(old(allWords), k))
        invariant forall k :: k in words ==> words[k] == old(allWords)[k]
        decreases |keys|
      {
        var k :| k in keys;
        if words[k] < 4 || ByteLen(k) < 5 {
          words := words - {k};
        }
        keys := keys - {k};
      }
      allWords := words;
    }
  }
}
