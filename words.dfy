/** Word and keyword extraction from processFileAndRename: the whitespace
    fields of the text, lowercased and cut after their last letter or digit,
    kept when at least two runes long and starting with a letter or digit,
    then de-duplicated in place and sorted; and the keywords that occur in
    the lowercased text. */
module Words {
  import opened Options
  import opened Unicode
  import opened Strs
  import opened Sorting

  /** The index of the last letter or digit of w, or -1 when there is none. */
  function LastAlnum(w: string): (r: int)
    ensures -1 <= r < |w|
    ensures r >= 0 ==> IsAlnum(w[r])
    ensures forall k :: r < k < |w| ==> !IsAlnum(w[k])
  {
    if w == [] then -1
    else if IsAlnum(w[|w| - 1]) then |w| - 1
    else LastAlnum(w[..|w| - 1])
  }

  /** The backward scan of processFileAndRename for the last letter or digit. */
  method LastAlnumIndex(w: string) returns (i: int)
    ensures i == LastAlnum(w)
  {
    i := |w| - 1;
    while i >= 0 && !(IsDigit(w[i]) || IsLetter(w[i]))
      invariant -1 <= i < |w|
      invariant forall k :: i < k < |w| ==> !IsAlnum(w[k])
      decreases i + 1
    {
      i := i - 1;
    }
    ghost var r := LastAlnum(w);
    assert !(i < r) && !(r < i);
  }

  /** A word as processFileAndRename keeps it. */
  predicate WellFormedWord(w: string) {
    && |w| >= 2
    && IsAlnum(w[0])
    && IsAlnum(w[|w| - 1])
    && IsLowered(w)
    && forall k :: 0 <= k < |w| ==> !IsSpace(w[k])
  }

  /** What one whitespace field becomes: its lowercase form cut after the
      last letter or digit, or None when that leaves fewer than two runes or
      a first rune that is neither a letter nor a digit. */
  function Normalize(field: string): (r: Option<string>)
    ensures r.Some? ==> 2 <= |r.value| <= |field| && r.value == Lower(field)[..|r.value|]
    ensures r.Some? ==> forall k :: |r.value| <= k < |field| ==> !IsAlnum(Lower(field)[k])
    ensures r.Some? ==> IsAlnum(r.value[0]) && IsAlnum(r.value[|r.value| - 1]) && IsLowered(r.value)
    ensures r.None? <==> LastAlnum(Lower(field)) < 1 || !IsAlnum(Lower(field)[0])
  {
    var l := Lower(field);
    var i := LastAlnum(l);
    if i < 1 then None
    else if !IsAlnum(l[0]) then None
    else
      LowerIsLowered(field);
      Some(l[..i + 1])
  }

  /** The words appended to tag.Words for the given fields, in order. */
  function Candidates(fields: seq<string>): seq<string> {
    if fields == [] then []
    else
      var rest := Candidates(fields[..|fields| - 1]);
      match Normalize(fields[|fields| - 1])
      case None => rest
      case Some(w) => rest + [w]
  }

  /** Every candidate taken from whitespace fields is a well-formed word. */
  lemma {:induction false} CandidatesWellFormed(fields: seq<string>)
    requires forall i, k :: 0 <= i < |fields| && 0 <= k < |fields[i]| ==> !IsSpace(fields[i][k])
    ensures forall w :: w in Candidates(fields) ==> WellFormedWord(w)
    decreases |fields|
  {
    if fields != [] {
      var last := fields[|fields| - 1];
      CandidatesWellFormed(fields[..|fields| - 1]);
      match Normalize(last)
      case None =>
      case Some(w) =>
        forall k | 0 <= k < |w| ensures !IsSpace(w[k]) {
          assert w[k] == ToLower(last[k]);
        }
    }
  }

  /** The words of a text that reach tag.Words, before de-duplication. */
  function TextWords(text: string): seq<string> {
    Candidates(Fields(text))
  }

  lemma TextWordsWellFormed(text: string)
    ensures forall w :: w in TextWords(text) ==> WellFormedWord(w)
  {
    CandidatesWellFormed(Fields(text));
  }

  /** The first occurrence of every value of s, in order: what the in-place
      loop with the seen map leaves in tag.Words[:j]. */
  function Dedup(s: seq<string>): (r: seq<string>)
    ensures forall x :: x in r <==> x in s
  {
    if s == [] then []
    else
      var init := s[..|s| - 1];
      var last := s[|s| - 1];
      assert s == init + [last];
      Dedup(init) + (if last in init then [] else [last])
  }

  lemma DedupStep(s: seq<string>, k: nat)
    requires k < |s|
    ensures Dedup(s[..k + 1]) == Dedup(s[..k]) + (if s[k] in s[..k] then [] else [s[k]])
  {
    assert s[..k + 1][..k] == s[..k];
  }

  /** No value occurs twice. */
  ghost predicate Distinct<T>(s: seq<T>) {
    forall i, j :: 0 <= i < j < |s| ==> s[i] != s[j]
  }

  lemma {:induction false} DedupDistinct(s: seq<string>)
    ensures Distinct(Dedup(s))
    decreases |s|
  {
    if s != [] {
      DedupDistinct(s[..|s| - 1]);
    }
  }

  /** A sequence without repeats holds each value at most once. */
  lemma {:induction false} DistinctMultiset<T>(s: seq<T>)
    requires Distinct(s)
    ensures forall x :: multiset(s)[x] <= 1
    decreases |s|
  {
    if s != [] {
      var init := s[..|s| - 1];
      var last := s[|s| - 1];
      assert s == init + [last];
      DistinctMultiset(init);
      assert last !in init;
    }
  }

  /** A sequence holding each value at most once has no repeats. */
  lemma MultisetDistinct<T>(s: seq<T>)
    requires forall x :: multiset(s)[x] <= 1
    ensures Distinct(s)
  {
    forall i, j | 0 <= i < j < |s| ensures s[i] != s[j] {
      RepeatCounts(s, i, j);
    }
  }

  /** A value at two positions occurs at least twice. */
  lemma RepeatCounts<T>(s: seq<T>, i: nat, j: nat)
    requires i < j < |s|
    ensures s[i] == s[j] ==> multiset(s)[s[i]] >= 2
  {
    assert s == s[..i] + [s[i]] + s[i + 1..j] + [s[j]] + s[j + 1..];
  }

  /** StrLess is the strict total order sort.Strings sorts by. */
  lemma StrLessIsStrictTotal()
    ensures StrictTotalOrder(StrLess)
  {
    forall x: string ensures !StrLess(x, x) {
      StrLessIrreflexive(x);
    }
    forall x: string, y: string, z: string | StrLess(x, y) && StrLess(y, z) ensures StrLess(x, z) {
      StrLessTransitive(x, y, z);
    }
    forall x: string, y: string | x != y ensures StrLess(x, y) || StrLess(y, x) {
      StrLessTotal(x, y);
    }
  }

  /** The final contents of tag.Words for words appended to existing. */
  function SortedWords(words: seq<string>): seq<string> {
    SortSeq(Dedup(words), StrLess)
  }

  /** tag.Words ends strictly increasing (so sorted and free of duplicates)
      and holds exactly the words that were appended. */
  lemma SortedWordsShape(words: seq<string>)
    ensures var r := SortedWords(words);
      && (forall i, j :: 0 <= i < j < |r| ==> StrLess(r[i], r[j]))
      && (forall w :: w in r <==> w in words)
  {
    var d := Dedup(words);
    var r := SortedWords(words);
    StrLessIsStrictTotal();
    SortSeqSorted(d, StrLess);
    DedupDistinct(d);
    DedupDistinct(words);
    DistinctMultiset(d);
    assert multiset(r) == multiset(d);
    MultisetDistinct(r);
    forall i, j | 0 <= i < j < |r| ensures StrLess(r[i], r[j]) {
      StrLessTotal(r[i], r[j]);
    }
    forall w ensures w in r <==> w in words {
      assert w in r <==> w in multiset(r);
    }
  }

  /** The word loop, the in-place de-duplication and the sort of
      processFileAndRename, starting from the words already in tag.Words. */
  method CollectWords(existing: seq<string>, text: string) returns (words: seq<string>)
    ensures words == SortedWords(existing + TextWords(text))
  {
    var all := AppendWords(existing, Fields(text));
    var a := new string[|all|](k requires 0 <= k < |all| => all[k]);
    assert a[..] == all;
    var j := DedupInPlace(a);
    SortPrefix(a, j, StrLess);
    words := a[..j];
  }

  /** The loop over strings.Fields(text) that appends each kept word. */
  method AppendWords(existing: seq<string>, fields: seq<string>) returns (all: seq<string>)
    ensures all == existing + Candidates(fields)
  {
    all := existing;
    var f := 0;
    while f < |fields|
      invariant f <= |fields|
      invariant all == existing + Candidates(fields[..f])
    {
      assert fields[..f + 1][..f] == fields[..f];
      var w := Lower(fields[f]);
      var i := LastAlnumIndex(w);
      if i >= 1 {
        var runes := w[..i + 1];
        if IsDigit(runes[0]) || IsLetter(runes[0]) {
          all := all + [runes];
        }
      }
      f := f + 1;
    }
    assert fields[..f] == fields;
  }

  /** The seen-map loop: keeps the first occurrence of every word at the
      front of a, returning how many there are. */
  method DedupInPlace(a: array<string>) returns (j: nat)
    modifies a
    ensures j <= a.Length && a[..j] == Dedup(old(a[..]))
  {
    ghost var all := a[..];
    var seen: set<string> := {};
    j := 0;
    var k := 0;
    while k < a.Length
      invariant j <= k <= a.Length
      invariant forall p :: k <= p < a.Length ==> a[p] == all[p]
      invariant a[..j] == Dedup(all[..k])
      invariant forall x :: x in seen <==> x in all[..k]
    {
      var w := a[k];
      assert w == all[k];
      DedupStep(all, k);
      if w !in seen {
        seen := seen + {w};
        ghost var front := a[..j];
        a[j] := w;
        assert a[..j + 1] == front + [w];
        j := j + 1;
      }
      k := k + 1;
    }
    assert all[..k] == all;
  }

  /** The keyword loop: the keywords found in the lowercased text. */
  function Found(text: string, keywords: set<string>): set<string> {
    set k | k in keywords && Contains(Lower(text), k)
  }

  /** The keywords that occur in the lowercased text, added to tag.Tags. */
  method MatchKeywords(text: string, keywords: set<string>) returns (found: set<string>)
    ensures found == Found(text, keywords)
  {
    var lctext := Lower(text);
    found := {};
    var rest := keywords;
    while rest != {}
      invariant rest <= keywords
      invariant found == set k | k in keywords - rest && Contains(lctext, k)
      decreases |rest|
    {
      var k :| k in rest;
      if Index(lctext, k) >= 0 {
        found := found + {k};
      }
      rest := rest - {k};
    }
  }

  /** A keyword is found exactly when it occurs somewhere in the lowercased
      text; lowercase keywords are thus matched without regard to case. */
  lemma FoundIff(text: string, keywords: set<string>, k: string)
    ensures k in Found(text, keywords) <==> k in keywords && exists i :: OccursAt(Lower(text), k, i)
  {
    ContainsIff(Lower(text), k);
  }
}
