/** The two date-related pieces of pdftext.go that do not depend on the
    regular-expression and time libraries: the numericName test on a file
    path, and the fallback of findFirstDate. The date matcher itself is a
    parameter. */
module Dates {
  import opened Unicode
  import opened Strs

  /** The 23 characters the numericName pattern matches at the end of a
      path: four digits, five groups of '_' and two digits, any character
      but a newline (the pattern's unescaped '.'), then "pdf". */
  predicate Stamp(s: string)
    requires |s| == 23
  {
    && (forall k :: 0 <= k < 19 ==> if k >= 4 && k % 3 == 1 then s[k] == '_' else IsDigit(s[k]))
    && s[19] != '\n'
    && s[20..] == "pdf"
  }

  /** numericName.MatchString(path): the pattern is anchored only at the
      end, so it is a test on the last 23 characters. */
  function NumericName(path: string): (r: bool)
    ensures r ==> |path| >= 23 && path[|path| - 3..] == "pdf"
  {
    |path| >= 23 && Stamp(path[|path| - 23..])
  }

  /** Only the ending of a path decides the test. */
  lemma NumericNameSuffix(prefix: string, path: string)
    requires NumericName(path)
    ensures NumericName(prefix + path)
  {
    var p := prefix + path;
    assert p[|p| - 23..] == path[|path| - 23..];
  }

  /** A timestamp name YYYY_MM_DD_hh_mm_ss.pdf passes, and so does the same
      name with any other character than a newline in place of the dot. */
  lemma NumericNameSeparator(path: string, c: char)
    requires NumericName(path) && c != '\n'
    ensures NumericName(path[|path| - 4 := c])
  {
    var q := path[|path| - 4 := c];
    assert q[|q| - 23..] == path[|path| - 23..][19 := c];
  }

  /** findFirstDate: the matcher on the text, and when it finds nothing, the
      matcher on the text with every space removed. */
  function FindFirstDate(text: string, dateFind: string -> string): (r: string)
    ensures r != "" ==> r == dateFind(text) || r == dateFind(RemoveAll(text, ' '))
    ensures dateFind(text) != "" ==> r == dateFind(text)
    ensures dateFind(text) == "" ==> r == dateFind(RemoveAll(text, ' '))
  {
    var date := dateFind(text);
    if date == "" then dateFind(RemoveAll(text, ' ')) else date
  }

  /** Text without spaces gets a single search: the fallback repeats it. */
  lemma FindFirstDateSpaceless(text: string, dateFind: string -> string)
    requires ' ' !in text
    ensures FindFirstDate(text, dateFind) == dateFind(text)
  {
    RemoveAllAbsent(text, ' ');
  }

  /** The fallback is already space-free, so searching the result of
      removing spaces again finds the same date. */
  lemma FindFirstDateStable(text: string, dateFind: string -> string)
    ensures FindFirstDate(RemoveAll(text, ' '), dateFind) == dateFind(RemoveAll(text, ' '))
  {
    RemoveAllRemoves(text, ' ');
    FindFirstDateSpaceless(RemoveAll(text, ' '), dateFind);
  }
}
