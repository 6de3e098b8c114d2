/** The functions of Go's strings and fmt packages that pdftext.go relies
    on: Index, Contains, Replace with a count of 1 or -1, Split on a
    one-character separator, Join, Fields, the decimal form printed by
    "%d", and the byte-wise ordering used by sort.Strings. */
module Strs {
  import opened Unicode

  /** sub occurs in s starting at position i. */
  predicate OccursAt(s: string, sub: string, i: nat) {
    i + |sub| <= |s| && s[i..i + |sub|] == sub
  }

  /** strings.Index on s[i..], shifted back to positions of s: the first
      occurrence at or after i, or -1 when there is none. */
  function IndexFrom(s: string, sub: string, i: nat): (r: int)
    ensures r == -1 || (i <= r && OccursAt(s, sub, r))
    ensures r == -1 ==> forall j :: i <= j ==> !OccursAt(s, sub, j)
    ensures forall j :: i <= j && (r == -1 || j < r) ==> !OccursAt(s, sub, j)
    decreases |s| + 1 - i
  {
    if i + |sub| > |s| then -1
    else if OccursAt(s, sub, i) then i
    else IndexFrom(s, sub, i + 1)
  }

  /** strings.Index: the first occurrence of sub in s, or -1. */
  function Index(s: string, sub: string): int {
    IndexFrom(s, sub, 0)
  }

  /** strings.Contains. */
  predicate Contains(s: string, sub: string) {
    Index(s, sub) >= 0
  }

  /** Contains holds exactly when some position of s holds sub. */
  lemma ContainsIff(s: string, sub: string)
    ensures Contains(s, sub) <==> exists i :: OccursAt(s, sub, i)
  {
  }

  /** strings.Replace(s, pattern, repl, 1): only the first occurrence is
      replaced. An empty pattern matches at position 0. */
  function ReplaceFirst(s: string, pattern: string, repl: string): (r: string)
    ensures !Contains(s, pattern) ==> r == s
    ensures Contains(s, pattern) ==>
      var i := Index(s, pattern);
      r == s[..i] + repl + s[i + |pattern|..] && forall j: nat :: j < i ==> !OccursAt(s, pattern, j)
  {
    var i := Index(s, pattern);
    if i < 0 then s else s[..i] + repl + s[i + |pattern|..]
  }

  /** strings.Replace(s, string(c), "", -1): every c removed. */
  function RemoveAll(s: string, c: char): (r: string)
    ensures |r| <= |s|
  {
    if s == [] then [] else (if s[0] == c then [] else [s[0]]) + RemoveAll(s[1..], c)
  }

  /** No c is left after RemoveAll. */
  lemma {:induction false} RemoveAllRemoves(s: string, c: char)
    ensures c !in RemoveAll(s, c)
    decreases |s|
  {
    if s != [] {
      RemoveAllRemoves(s[1..], c);
    }
  }

  /** The number of occurrences of c in s. */
  function CountChar(s: string, c: char): nat {
    if s == [] then 0 else (if s[0] == c then 1 else 0) + CountChar(s[1..], c)
  }

  lemma {:induction false} CountCharConcat(a: string, b: string, c: char)
    ensures CountChar(a + b, c) == CountChar(a, c) + CountChar(b, c)
    decreases |a|
  {
    if a == [] {
      assert a + b == b;
    } else {
      assert (a + b)[1..] == a[1..] + b;
      CountCharConcat(a[1..], b, c);
    }
  }

  lemma {:induction false} RemoveAllConcat(a: string, b: string, c: char)
    ensures RemoveAll(a + b, c) == RemoveAll(a, c) + RemoveAll(b, c)
    decreases |a|
  {
    if a == [] {
      assert a + b == b;
    } else {
      assert (a + b)[1..] == a[1..] + b;
      RemoveAllConcat(a[1..], b, c);
    }
  }

  lemma AppendAssoc(a: string, b: string, c: string)
    ensures a + (b + c) == (a + b) + c
  {
  }

  /** A string without c is its own RemoveAll. */
  lemma {:induction false} RemoveAllAbsent(s: string, c: char)
    requires c !in s
    ensures RemoveAll(s, c) == s
    decreases |s|
  {
    if s != [] {
      RemoveAllAbsent(s[1..], c);
    }
  }

  /** strings.Join(parts, string(sep)). */
  function Join(parts: seq<string>, sep: char): string {
    if |parts| == 0 then ""
    else if |parts| == 1 then parts[0]
    else parts[0] + [sep] + Join(parts[1..], sep)
  }

  /** strings.Split(s, string(sep)): the pieces between separators. */
  function Split(s: string, sep: char): (r: seq<string>)
    ensures |r| >= 1
    decreases |s|
  {
    if s == [] then [""]
    else
      var rest := Split(s[1..], sep);
      if s[0] == sep then [""] + rest
      else [[s[0]] + rest[0]] + rest[1..]
  }

  /** Split gives one more piece than there are separators, "" giving [""];
      no piece holds sep, and joining the pieces back with sep gives s. */
  lemma {:induction false} SplitJoin(s: string, sep: char)
    ensures |Split(s, sep)| == CountChar(s, sep) + 1
    ensures forall i :: 0 <= i < |Split(s, sep)| ==> sep !in Split(s, sep)[i]
    ensures Join(Split(s, sep), sep) == s
    decreases |s|
  {
    if s != [] {
      SplitJoin(s[1..], sep);
      var rest := Split(s[1..], sep);
      if s[0] != sep {
        assert |rest| > 1 ==> Join(rest, sep) == rest[0] + [sep] + Join(rest[1..], sep);
        var r := Split(s, sep);
        forall i | 0 <= i < |r| ensures sep !in r[i] {
          if i > 0 {
            assert r[i] == rest[i];
          }
        }
      }
    }
  }

  /** The length of the run of non-space characters that starts s. */
  function FieldLen(s: string): (n: nat)
    ensures n <= |s|
    ensures forall k :: 0 <= k < n ==> !IsSpace(s[k])
    ensures n == |s| || IsSpace(s[n])
  {
    if s == [] || IsSpace(s[0]) then 0 else 1 + FieldLen(s[1..])
  }

  /** strings.Fields: the maximal runs of non-space characters, in order. */
  function Fields(s: string): (r: seq<string>)
    ensures forall i :: 0 <= i < |r| ==> r[i] != [] && forall k :: 0 <= k < |r[i]| ==> !IsSpace(r[i][k])
    decreases |s|
  {
    if s == [] then []
    else if IsSpace(s[0]) then Fields(s[1..])
    else
      var n := FieldLen(s);
      [s[..n]] + Fields(s[n..])
  }

  /** The parts run together without separators. */
  function Concat(parts: seq<string>): string
  {
    if parts == [] then "" else parts[0] + Concat(parts[1..])
  }

  /** s with every white-space character removed. */
  function RemoveSpaces(s: string): string
  {
    if s == [] then "" else (if IsSpace(s[0]) then "" else [s[0]]) + RemoveSpaces(s[1..])
  }

  /** A run of n non-space characters survives RemoveSpaces as it is. */
  lemma {:induction false} RemoveSpacesRun(s: string, n: nat)
    requires n <= |s|
    requires forall k :: 0 <= k < n ==> !IsSpace(s[k])
    ensures RemoveSpaces(s) == s[..n] + RemoveSpaces(s[n..])
  {
    if n == 0 {
      assert s[n..] == s;
    } else {
      RemoveSpacesRun(s[1..], n - 1);
      assert s[1..][n - 1..] == s[n..];
      assert s[..n] == [s[0]] + s[1..][..n - 1];
    }
  }

  /** Fields loses exactly the white space: run together, the fields are the
      input with its white-space characters removed. */
  lemma {:induction false} FieldsConcat(s: string)
    ensures Concat(Fields(s)) == RemoveSpaces(s)
    decreases |s|
  {
    if s == [] {
    } else if IsSpace(s[0]) {
      FieldsConcat(s[1..]);
    } else {
      var n := FieldLen(s);
      FieldsConcat(s[n..]);
      RemoveSpacesRun(s, n);
      var r := Fields(s);
      assert r == [s[..n]] + Fields(s[n..]);
      assert r[1..] == Fields(s[n..]);
    }
  }

  /** Position k begins a field: a non-space at the start or after a space. */
  predicate FieldStart(s: string, k: nat)
    requires k < |s|
  {
    !IsSpace(s[k]) && (k == 0 || IsSpace(s[k - 1]))
  }

  /** The number of field starts at positions i and later. */
  function FieldStarts(s: string, i: nat): nat
    requires i <= |s|
    decreases |s| - i
  {
    if i == |s| then 0 else (if FieldStart(s, i) then 1 else 0) + FieldStarts(s, i + 1)
  }

  /** Inside a run of non-space characters no field starts. */
  lemma {:induction false} RunHasNoStarts(s: string, i: nat, j: nat)
    requires 0 < i <= j <= |s|
    requires forall k :: i - 1 <= k < j ==> !IsSpace(s[k])
    ensures FieldStarts(s, i) == FieldStarts(s, j)
    decreases j - i
  {
    if i < j {
      RunHasNoStarts(s, i + 1, j);
    }
  }

  /** A space at position i adds no field. */
  lemma FieldsSkipSpace(s: string, i: nat)
    requires i < |s| && IsSpace(s[i])
    ensures Fields(s[i..]) == Fields(s[i + 1..])
  {
    assert s[i..][1..] == s[i + 1..];
  }

  /** A non-space at position i begins a field of n non-space characters,
      ended by a space or by the end of s. */
  lemma FieldsStep(s: string, i: nat, n: nat)
    requires i < |s| && !IsSpace(s[i])
    requires n == FieldLen(s[i..])
    ensures 0 < n && i + n <= |s|
    ensures |Fields(s[i..])| == 1 + |Fields(s[i + n..])|
    ensures forall k :: i <= k < i + n ==> !IsSpace(s[k])
    ensures i + n == |s| || IsSpace(s[i + n])
  {
    var t := s[i..];
    assert t[n..] == s[i + n..];
    forall k | i <= k < i + n
      ensures !IsSpace(s[k])
    {
      assert s[k] == t[k - i];
    }
    if i + n < |s| {
      assert s[i + n] == t[n];
    }
  }

  /** From a position at the start or after a space, Fields finds one field
      per field start. */
  lemma {:induction false} FieldsCountFrom(s: string, i: nat)
    requires i <= |s|
    requires i == 0 || IsSpace(s[i - 1])
    ensures |Fields(s[i..])| == FieldStarts(s, i)
    decreases |s| - i, 1
  {
    if i == |s| {
      assert s[i..] == [];
    } else if IsSpace(s[i]) {
      FieldsSkipSpace(s, i);
      FieldsCountFrom(s, i + 1);
    } else {
      FieldsCountRun(s, i, FieldLen(s[i..]));
    }
  }

  /** FieldsCountFrom at a field start: one field for the run of n non-space
      characters, then the count after the space that ends it. */
  lemma {:induction false} FieldsCountRun(s: string, i: nat, n: nat)
    requires i < |s| && !IsSpace(s[i]) && (i == 0 || IsSpace(s[i - 1]))
    requires n == FieldLen(s[i..])
    ensures |Fields(s[i..])| == FieldStarts(s, i)
    decreases |s| - i, 0
  {
    FieldsStep(s, i, n);
    StartsOfRun(s, i, n);
    if i + n < |s| {
      FieldsSkipSpace(s, i + n);
      FieldsCountFrom(s, i + n + 1);
    } else {
      assert s[i + n..] == [];
    }
  }

  /** A run of n non-space characters from a field start at i, ended by a
      space or the end of s, holds exactly one field start. */
  lemma StartsOfRun(s: string, i: nat, n: nat)
    requires 0 < n && i + n <= |s| && (i == 0 || IsSpace(s[i - 1]))
    requires forall k :: i <= k < i + n ==> !IsSpace(s[k])
    requires i + n == |s| || IsSpace(s[i + n])
    ensures FieldStarts(s, i) == 1 + FieldStarts(s, i + n)
    ensures i + n < |s| ==> FieldStarts(s, i + n) == FieldStarts(s, i + n + 1)
  {
    assert FieldStarts(s, i) == 1 + FieldStarts(s, i + 1);
    RunHasNoStarts(s, i + 1, i + n);
    if i + n < |s| {
      assert !FieldStart(s, i + n);
    }
  }

  /** strings.Fields returns one field per position that begins a run of
      non-space characters. */
  lemma FieldsCount(s: string)
    ensures |Fields(s)| == FieldStarts(s, 0)
  {
    FieldsCountFrom(s, 0);
    assert s[0..] == s;
  }

  /** The decimal digit character for d. */
  function DigitChar(d: nat): (c: char)
    requires d < 10
    ensures IsDigit(c) && DigitValue(c) == d
  {
    (('0' as int) + d) as char
  }

  /** fmt.Sprintf("%d", n) for a non-negative n: decimal, no leading zeros. */
  function Decimal(n: nat): (r: string)
    ensures |r| >= 1
    ensures forall i :: 0 <= i < |r| ==> IsDigit(r[i])
    decreases n
  {
    if n < 10 then [DigitChar(n)] else Decimal(n / 10) + [DigitChar(n % 10)]
  }

  /** The value of one decimal digit. */
  function DigitValue(c: char): (d: nat)
    requires IsDigit(c)
    ensures d < 10
  {
    (c as int) - ('0' as int)
  }

  /** The number a string of decimal digits denotes. */
  function DecimalValue(s: string): nat
    requires forall i :: 0 <= i < |s| ==> IsDigit(s[i])
  {
    if s == [] then 0
    else DecimalValue(s[..|s| - 1]) * 10 + DigitValue(s[|s| - 1])
  }

  /** Reading back the decimal form of n gives n. */
  lemma {:induction false} DecimalRoundTrip(n: nat)
    ensures DecimalValue(Decimal(n)) == n
    decreases n
  {
    if n >= 10 {
      var d := Decimal(n);
      assert d[..|d| - 1] == Decimal(n / 10);
      DecimalRoundTrip(n / 10);
    }
  }

  /** Distinct numbers print differently. */
  lemma DecimalInjective(m: nat, n: nat)
    requires Decimal(m) == Decimal(n)
    ensures m == n
  {
    DecimalRoundTrip(m);
    DecimalRoundTrip(n);
  }

  /** Go's < on strings: lexicographic on the UTF-8 bytes, which orders code
      points the same way, so it is lexicographic on runes. */
  predicate StrLess(a: string, b: string) {
    if b == [] then false
    else if a == [] then true
    else if a[0] != b[0] then a[0] < b[0]
    else StrLess(a[1..], b[1..])
  }

  lemma {:induction false} StrLessIrreflexive(a: string)
    ensures !StrLess(a, a)
    decreases |a|
  {
    if a != [] {
      StrLessIrreflexive(a[1..]);
    }
  }

  lemma {:induction false} StrLessTransitive(a: string, b: string, c: string)
    requires StrLess(a, b) && StrLess(b, c)
    ensures StrLess(a, c)
    decreases |a|
  {
    if a != [] && a[0] == b[0] && b[0] == c[0] {
      StrLessTransitive(a[1..], b[1..], c[1..]);
    }
  }

  lemma {:induction false} StrLessTotal(a: string, b: string)
    requires a != b
    ensures StrLess(a, b) || StrLess(b, a)
    decreases |a|
  {
    if a != [] && b != [] && a[0] == b[0] {
      assert a[1..] != b[1..] by {
        assert a == [a[0]] + a[1..] && b == [b[0]] + b[1..];
      }
      StrLessTotal(a[1..], b[1..]);
    }
  }
}
