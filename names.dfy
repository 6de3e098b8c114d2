/** The registry of new base names (newFileNames) that renameBase resolves
    collisions against: seeded with the stems of the PDFs already present,
    it hands out a base name, or that name followed by the smallest free
    "-N" suffix, and records what it handed out. */
module Names {
  import opened Strs
  import opened Paths

  /** fmt.Sprintf("%s-%d", base, n). */
  function Suffixed(base: string, n: nat): (r: string)
    ensures |r| > |base| + 1 && r[..|base|] == base && r[|base|] == '-'
  {
    base + "-" + Decimal(n)
  }

  /** Distinct suffixes give distinct names. */
  lemma SuffixedInjective(base: string, m: nat, n: nat)
    requires Suffixed(base, m) == Suffixed(base, n)
    ensures m == n
  {
    var a := Suffixed(base, m);
    assert a[|base| + 1..] == Decimal(m);
    assert Suffixed(base, n)[|base| + 1..] == Decimal(n);
    DecimalInjective(m, n);
  }

  /** The names base-1 .. base-(s-1). */
  function SuffixRange(base: string, s: nat): set<string> {
    set t: nat | 1 <= t < s :: Suffixed(base, t)
  }

  lemma {:induction false} SuffixRangeSize(base: string, s: nat)
    requires s >= 1
    ensures |SuffixRange(base, s)| == s - 1
    decreases s
  {
    if s > 1 {
      SuffixRangeSize(base, s - 1);
      assert SuffixRange(base, s) == SuffixRange(base, s - 1) + {Suffixed(base, s - 1)};
      if Suffixed(base, s - 1) in SuffixRange(base, s - 1) {
        var t: nat :| 1 <= t < s - 1 && Suffixed(base, t) == Suffixed(base, s - 1);
        SuffixedInjective(base, t, s - 1);
      }
    } else {
      assert SuffixRange(base, s) == {};
    }
  }

  /** When base-1 .. base-(s-1) are all taken there are at least s-1 names,
      so the suffix search cannot go on past |names| + 1. */
  lemma TakenBound(names: set<string>, base: string, s: nat)
    requires s >= 1
    requires forall t: nat :: 1 <= t < s ==> Suffixed(base, t) in names
    ensures s - 1 <= |names|
  {
    SuffixRangeSize(base, s);
    SubsetCard(SuffixRange(base, s), names);
  }

  /** A subset is no larger than its superset. */
  lemma {:induction false} SubsetCard(a: set<string>, b: set<string>)
    requires a <= b
    ensures |a| <= |b|
    decreases |a|
  {
    if a != {} {
      var x :| x in a;
      SubsetCard(a - {x}, b - {x});
    }
  }

  /** The smallest suffix from s on whose name is free. */
  function FreeSuffix(names: set<string>, base: string, s: nat): (r: nat)
    requires s >= 1
    requires forall t: nat :: 1 <= t < s ==> Suffixed(base, t) in names
    ensures r >= s && Suffixed(base, r) !in names
    ensures forall t: nat :: 1 <= t < r ==> Suffixed(base, t) in names
    decreases |names| + 1 - s
  {
    if Suffixed(base, s) !in names then s
    else
      TakenBound(names, base, s + 1);
      FreeSuffix(names, base, s + 1)
  }

  /** The name renameBase settles on for base: base itself when it is free,
      otherwise base followed by the smallest free suffix. */
  function ChosenName(names: set<string>, base: string): (r: string)
    ensures r !in names
    ensures base !in names ==> r == base
    ensures base in names ==>
      exists s: nat :: 1 <= s && r == Suffixed(base, s) && forall t: nat :: 1 <= t < s ==> Suffixed(base, t) in names
  {
    if base !in names then base
    else
      var s := FreeSuffix(names, base, 1);
      Suffixed(base, s)
  }

  /** The suffix is the unique one that is free with every smaller one taken. */
  lemma ChosenSuffixUnique(names: set<string>, base: string, s: nat)
    requires base in names && s >= 1 && Suffixed(base, s) !in names
    requires forall t: nat :: 1 <= t < s ==> Suffixed(base, t) in names
    ensures ChosenName(names, base) == Suffixed(base, s)
  {
    var f := FreeSuffix(names, base, 1);
    assert !(s < f) && !(f < s);
  }

  /** strings.Replace(filepath.Base(f), ".pdf", "", 1): the name a PDF that
      is already present blocks. */
  function Stem(f: string): string {
    ReplaceFirst(Base(f), ".pdf", "")
  }

  /** A base name that holds ".pdf" only as its extension loses exactly it. */
  lemma StemOfPdf(b: string)
    requires |b| >= 4 && Index(b, ".pdf") == |b| - 4
    ensures ReplaceFirst(b, ".pdf", "") + ".pdf" == b
  {
    var i := |b| - 4;
    assert OccursAt(b, ".pdf", i);
    assert ReplaceFirst(b, ".pdf", "") == b[..i] + "" + b[i + 4..];
    assert b[..i] + b[i..] == b;
  }

  /** The stems of a list of PDF files. */
  function Stems(files: seq<string>): set<string> {
    if files == [] then {} else Stems(files[..|files| - 1]) + {Stem(files[|files| - 1])}
  }

  lemma StemsSnoc(files: seq<string>, i: nat)
    requires i < |files|
    ensures Stems(files[..i + 1]) == Stems(files[..i]) + {Stem(files[i])}
  {
    assert files[..i + 1][..i] == files[..i];
  }

  /** newFileNames: the base names already in use. */
  class Registry {
    var names: set<string>

    /** The registry seeded from the PDFs found before any renaming. */
    constructor(preexisting: seq<string>)
      ensures names == Stems(preexisting)
    {
      var seeded := {};
      var i := 0;
      while i < |preexisting|
        invariant i <= |preexisting|
        invariant seeded == Stems(preexisting[..i])
      {
        StemsSnoc(preexisting, i);
        seeded := seeded + {Stem(preexisting[i])};
        i := i + 1;
      }
      assert preexisting[..i] == preexisting;
      names := seeded;
    }

    /** The locked section of renameBase: pick the name for base and record
        it. The name was free before and the registry grows by exactly it. */
    method Claim(base: string) returns (chosen: string)
      modifies this
      ensures chosen == ChosenName(old(names), base)
      ensures chosen !in old(names)
      ensures names == old(names) + {chosen}
    {
      var taken := names;
      chosen := base;
      if base in taken {
        var suffix := 1;
        while Suffixed(base, suffix) in taken
          invariant suffix >= 1
          invariant forall t: nat :: 1 <= t < suffix ==> Suffixed(base, t) in taken
          decreases |taken| + 1 - suffix
        {
          TakenBound(taken, base, suffix + 1);
          suffix := suffix + 1;
        }
        chosen := Suffixed(base, suffix);
        ChosenSuffixUnique(taken, base, suffix);
      }
      names := taken + {chosen};
    }
  }
}
