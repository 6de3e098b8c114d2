/** The path/filepath functions that name the output files, for '/' as the
    separator and no volume names: Clean, Base, Dir, Ext and two-element
    Join. */
module Paths {
  import opened Strs

  /** The index of the last '/' in p, or -1. */
  function LastSlash(p: string): (r: int)
    ensures -1 <= r < |p|
    ensures r >= 0 ==> p[r] == '/'
    ensures forall k :: r < k < |p| ==> p[k] != '/'
  {
    if p == [] then -1
    else if p[|p| - 1] == '/' then |p| - 1
    else LastSlash(p[..|p| - 1])
  }

  /** p without its trailing slashes. */
  function TrimTrailingSlashes(p: string): (r: string)
    ensures |r| <= |p| && r == p[..|r|]
    ensures r == [] || r[|r| - 1] != '/'
    ensures forall k :: |r| <= k < |p| ==> p[k] == '/'
  {
    if p != [] && p[|p| - 1] == '/' then TrimTrailingSlashes(p[..|p| - 1]) else p
  }

  /** filepath.Base: the last element of p; "." for "", "/" for a path of
      slashes only. */
  function Base(p: string): (r: string)
    ensures r != ""
  {
    if p == "" then "."
    else
      var t := TrimTrailingSlashes(p);
      var b := t[LastSlash(t) + 1..];
      if b == "" then "/" else b
  }

  /** The cleaning of the elements of a path, one element at a time: empty
      and "." elements vanish, ".." removes the element before it when that
      element is not itself "..", is dropped at the root of a rooted path,
      and is kept otherwise. */
  function CleanSegs(segs: seq<string>, rooted: bool): (r: seq<string>)
    ensures |r| <= |segs|
  {
    if segs == [] then []
    else CleanStep(CleanSegs(segs[..|segs| - 1], rooted), segs[|segs| - 1], rooted)
  }

  /** One element s added to the elements acc already cleaned. */
  function CleanStep(acc: seq<string>, s: string, rooted: bool): (r: seq<string>)
    ensures |r| <= |acc| + 1
  {
    if s == "" || s == "." then acc
    else if s == ".." then
      if |acc| > 0 && acc[|acc| - 1] != ".." then acc[..|acc| - 1]
      else if rooted then acc
      else acc + [".."]
    else acc + [s]
  }

  /** filepath.Clean: the shortest path equivalent to p by purely lexical
      processing; "." for a path that cleans to nothing. */
  function Clean(p: string): (r: string)
    ensures r != ""
  {
    Render(CleanSegs(Split(p, '/'), Rooted(p)), Rooted(p))
  }

  /** A path that starts at the root. */
  predicate Rooted(p: string) {
    |p| > 0 && p[0] == '/'
  }

  /** The path spelled by cleaned elements: joined with '/', after a '/' for
      a rooted path, and "." when an unrooted path has no element. */
  function Render(segs: seq<string>, rooted: bool): (r: string)
    ensures r != ""
  {
    var body := Join(segs, '/');
    if rooted then "/" + body else if body == "" then "." else body
  }

  /** filepath.Dir: everything up to the last '/', cleaned. */
  function Dir(p: string): (r: string)
    ensures r != ""
  {
    Clean(p[..LastSlash(p) + 1])
  }

  /** filepath.Ext: the suffix of p from the last '.' of its last element,
      or "" when that element has no '.'. */
  function Ext(p: string): (r: string)
    ensures |r| <= |p|
  {
    if p == [] then ""
    else
      var c := p[|p| - 1];
      if c == '/' then ""
      else if c == '.' then "."
      else
        var e := Ext(p[..|p| - 1]);
        if e == "" then "" else e + [c]
  }

  /** filepath.Join(a, b): the elements from the first non-empty one joined
      with '/' and cleaned, or "" when both are empty. */
  function JoinPath(a: string, b: string): string {
    if a != "" then Clean(a + "/" + b)
    else if b != "" then Clean(b)
    else ""
  }

  /** The convert closure of renameBase: the path moved to the new base
      name, keeping its directory and its extension. */
  function Convert(p: string, newBase: string): string {
    JoinPath(Dir(p), newBase + Ext(p))
  }

  /** Base names one element: "/" or a non-empty name without '/'. */
  lemma BaseShape(p: string)
    ensures Base(p) == "/" || '/' !in Base(p)
  {
  }

  /** Clean keeps no empty and no "." element. */
  lemma {:induction false} CleanSegsElements(segs: seq<string>, rooted: bool)
    ensures forall k :: 0 <= k < |CleanSegs(segs, rooted)| ==>
      CleanSegs(segs, rooted)[k] != "" && CleanSegs(segs, rooted)[k] != "."
    decreases |segs|
  {
    if segs != [] {
      CleanSegsElements(segs[..|segs| - 1], rooted);
    }
  }

  /** Ext is "" or a suffix of p that starts with its only '.' and holds
      no '/'. */
  lemma {:induction false} ExtShape(p: string)
    ensures var r := Ext(p);
      && (r == "" || (r[0] == '.' && r == p[|p| - |r|..]))
      && (forall k :: 0 <= k < |r| ==> r[k] != '/')
      && (forall k :: 1 <= k < |r| ==> r[k] != '.')
    decreases |p|
  {
    if p != [] && p[|p| - 1] != '/' && p[|p| - 1] != '.' {
      var init := p[..|p| - 1];
      var e := Ext(init);
      ExtShape(init);
      if e != "" {
        var r := e + [p[|p| - 1]];
        assert Ext(p) == r;
        assert r == init[|init| - |e|..] + [p[|p| - 1]];
        assert r == p[|p| - |r|..];
      }
    }
  }

  // ---------------------------------------------------------------------
  // The base name of a converted path

  /** An element Clean keeps as it is. */
  predicate PlainName(name: string) {
    name != "" && name != "." && name != ".." && '/' !in name
  }

  lemma {:induction false} SplitAppend(a: string, b: string, sep: char)
    requires sep !in b
    ensures Split(a + [sep] + b, sep) == Split(a, sep) + [b]
    decreases |a|
  {
    if a == [] {
      assert a + [sep] + b == [sep] + b;
      assert ([sep] + b)[1..] == b;
      SplitPlain(b, sep);
    } else {
      assert (a + [sep] + b)[1..] == a[1..] + [sep] + b;
      SplitAppend(a[1..], b, sep);
    }
  }

  lemma {:induction false} SplitPlain(b: string, sep: char)
    requires sep !in b
    ensures Split(b, sep) == [b]
    decreases |b|
  {
    if b != [] {
      SplitPlain(b[1..], sep);
      assert [b[0]] + b[1..] == b;
    }
  }

  lemma {:induction false} JoinAppend(parts: seq<string>, last: string, sep: char)
    requires parts != []
    ensures Join(parts + [last], sep) == Join(parts, sep) + [sep] + last
    decreases |parts|
  {
    if |parts| > 1 {
      assert (parts + [last])[1..] == parts[1..] + [last];
      JoinAppend(parts[1..], last, sep);
    }
  }

  /** A plain last element survives the cleaning of the elements. */
  lemma CleanSegsPlain(segs: seq<string>, name: string, rooted: bool)
    requires PlainName(name)
    ensures CleanSegs(segs + [name], rooted) == CleanSegs(segs, rooted) + [name]
  {
    assert (segs + [name])[..|segs|] == segs;
  }

  /** The elements of "dir/name" are those of dir followed by name. */
  lemma SplitDirName(dir: string, name: string)
    requires PlainName(name)
    ensures Split(dir + "/" + name, '/') == Split(dir, '/') + [name]
  {
    assert dir + "/" + name == dir + ['/'] + name;
    SplitAppend(dir, name, '/');
  }

  /** Cleaning "dir/name" for a plain name gives name after a prefix that is
      empty or ends in '/'. */
  lemma CleanAppendPlain(dir: string, name: string) returns (pre: string)
    requires dir != "" && PlainName(name)
    ensures Clean(dir + "/" + name) == pre + name
    ensures pre == "" || pre[|pre| - 1] == '/'
    ensures Clean(pre) == Clean(dir)
  {
    var q := dir + "/" + name;
    var rooted := Rooted(dir);
    assert q[0] == dir[0];
    SplitDirName(dir, name);
    var acc := CleanSegs(Split(dir, '/'), rooted);
    CleanSegsPlain(Split(dir, '/'), name, rooted);
    pre := Front(acc, rooted);
    RenderAppend(acc, name, rooted);
    SplitJoin(dir, '/');
    CleanSegsShape(Split(dir, '/'), rooted);
    CleanFront(acc, rooted);
  }

  /** What a rendered path holds before a last element appended to acc. */
  function Front(acc: seq<string>, rooted: bool): (r: string)
    ensures r == "" || r[|r| - 1] == '/'
  {
    (if rooted then "/" else "") + (if acc == [] then "" else Join(acc, '/') + "/")
  }

  /** A plain last element is rendered after the front of the others. */
  lemma RenderAppend(acc: seq<string>, name: string, rooted: bool)
    requires PlainName(name)
    ensures Render(acc + [name], rooted) == Front(acc, rooted) + name
  {
    var body := Join(acc + [name], '/');
    var front := if acc == [] then "" else Join(acc, '/') + "/";
    if acc == [] {
      assert body == name;
    } else {
      JoinAppend(acc, name, '/');
    }
    assert body == front + name;
    assert body != "";
  }

  /** The front of clean elements cleans to those elements rendered. */
  lemma CleanFront(acc: seq<string>, rooted: bool)
    requires CleanShape(acc, rooted)
    ensures Clean(Front(acc, rooted)) == Render(acc, rooted)
  {
    if acc == [] {
      if rooted {
        assert Front(acc, rooted) == "/";
        assert Split("/", '/') == ["", ""] by {
          assert "/"[1..] == "";
        }
        assert CleanSegs([""], rooted) == [] by {
          assert [""][..0] == [];
        }
        assert ["", ""][..1] == [""];
      } else {
        assert Front(acc, rooted) == "";
        assert [""][..0] == [];
      }
    } else {
      assert Join(acc, '/') != "" && Join(acc, '/')[0] == acc[0][0];
      assert Front(acc, rooted) == Render(acc, rooted) + "/";
      CleanSlashed(acc, rooted);
    }
  }

  // ---------------------------------------------------------------------
  // Clean is idempotent, and convert keeps the directory

  /** The elements Clean produces: none empty, "." or holding '/', and ".."
      only in a leading run of an unrooted path. */
  predicate CleanShape(segs: seq<string>, rooted: bool) {
    forall k :: 0 <= k < |segs| ==>
      && segs[k] != "" && segs[k] != "." && '/' !in segs[k]
      && (segs[k] == ".." ==> !rooted && forall j :: 0 <= j < k ==> segs[j] == "..")
  }

  /** CleanSegs gives elements of that shape. */
  lemma {:induction false} CleanSegsShape(segs: seq<string>, rooted: bool)
    requires forall k :: 0 <= k < |segs| ==> '/' !in segs[k]
    ensures CleanShape(CleanSegs(segs, rooted), rooted)
    decreases |segs|
  {
    if segs != [] {
      var init := segs[..|segs| - 1];
      CleanSegsShape(init, rooted);
      var acc := CleanSegs(init, rooted);
      var s := segs[|segs| - 1];
      if s == ".." && !(|acc| > 0 && acc[|acc| - 1] != "..") && !rooted {
        assert forall j :: 0 <= j < |acc| ==> acc[j] == "..";
      }
    }
  }

  /** Elements of that shape are left as they are. */
  lemma {:induction false} CleanSegsFixed(segs: seq<string>, rooted: bool)
    requires CleanShape(segs, rooted)
    ensures CleanSegs(segs, rooted) == segs
    decreases |segs|
  {
    if segs != [] {
      var init := segs[..|segs| - 1];
      assert CleanShape(init, rooted) by {
        forall k | 0 <= k < |init|
          ensures init[k] == segs[k]
        {
        }
      }
      CleanSegsFixed(init, rooted);
      assert segs == init + [segs[|segs| - 1]];
    }
  }

  /** A leading empty element changes nothing. */
  lemma {:induction false} CleanSegsEmptyFront(segs: seq<string>, rooted: bool)
    ensures CleanSegs([""] + segs, rooted) == CleanSegs(segs, rooted)
    decreases |segs|
  {
    if segs != [] {
      var init := segs[..|segs| - 1];
      var t := [""] + segs;
      CleanSegsEmptyFront(init, rooted);
      assert t[..|t| - 1] == [""] + init;
      assert t[|t| - 1] == segs[|segs| - 1];
      assert CleanSegs(t, rooted) == CleanStep(CleanSegs([""] + init, rooted), segs[|segs| - 1], rooted);
    }
  }

  lemma {:induction false} SplitSepFirst(a: string, b: string, sep: char)
    requires sep !in a
    ensures Split(a + [sep] + b, sep) == [a] + Split(b, sep)
    decreases |a|
  {
    if a == [] {
      assert a + [sep] + b == [sep] + b;
      assert ([sep] + b)[1..] == b;
    } else {
      assert (a + [sep] + b)[1..] == a[1..] + [sep] + b;
      SplitSepFirst(a[1..], b, sep);
      assert [a[0]] + a[1..] == a;
    }
  }

  /** Splitting the join of separator-free parts gives the parts back. */
  lemma {:induction false} JoinSplit(parts: seq<string>, sep: char)
    requires parts != []
    requires forall k :: 0 <= k < |parts| ==> sep !in parts[k]
    ensures Split(Join(parts, sep), sep) == parts
    decreases |parts|
  {
    if |parts| == 1 {
      SplitPlain(parts[0], sep);
    } else {
      JoinSplit(parts[1..], sep);
      SplitSepFirst(parts[0], Join(parts[1..], sep), sep);
      assert [parts[0]] + parts[1..] == parts;
    }
  }

  /** Rendered clean elements keep their rootedness and clean back to
      themselves. */
  lemma RenderSegs(segs: seq<string>, rooted: bool)
    requires CleanShape(segs, rooted)
    ensures Rooted(Render(segs, rooted)) == rooted
    ensures CleanSegs(Split(Render(segs, rooted), '/'), rooted) == segs
  {
    if segs == [] {
      if rooted {
        assert Split("/", '/') == ["", ""] by {
          assert "/"[1..] == "";
        }
      } else {
        assert Split(".", '/') == ["."] by {
          assert "."[1..] == "";
          assert Split("", '/') == [""];
          assert ['.'] + "" == ".";
        }
      }
    } else {
      var body := Join(segs, '/');
      JoinSplit(segs, '/');
      CleanSegsFixed(segs, rooted);
      assert body != "" && body[0] == segs[0][0];
      if rooted {
        assert ("/" + body)[1..] == body;
        CleanSegsEmptyFront(segs, rooted);
      }
    }
  }

  /** filepath.Clean is idempotent. */
  lemma CleanIdempotent(p: string)
    ensures Clean(Clean(p)) == Clean(p)
  {
    var segs := Split(p, '/');
    SplitJoin(p, '/');
    CleanSegsShape(segs, Rooted(p));
    RenderSegs(CleanSegs(segs, Rooted(p)), Rooted(p));
  }

  /** A clean non-empty path with a '/' appended cleans back to itself. */
  lemma CleanSlashed(segs: seq<string>, rooted: bool)
    requires CleanShape(segs, rooted) && segs != []
    ensures Clean(Render(segs, rooted) + "/") == Render(segs, rooted)
  {
    var r := Render(segs, rooted);
    RenderSegs(segs, rooted);
    SplitAppend(r, "", '/');
    assert r + "/" == r + ['/'] + "";
    var split := Split(r, '/');
    assert (split + [""])[..|split|] == split;
  }

  /** The directory of a path ending in a plain name after "" or a '/' is
      the cleaned prefix. */
  lemma DirAfterSlash(pre: string, name: string)
    requires PlainName(name)
    requires pre == "" || pre[|pre| - 1] == '/'
    ensures Dir(pre + name) == Clean(pre)
  {
    var p := pre + name;
    var i := LastSlash(p);
    assert pre != "" ==> p[|pre| - 1] == '/';
    assert forall k :: |pre| <= k < |p| ==> p[k] == name[k - |pre|];
    assert i == |pre| - 1;
    assert p[..i + 1] == pre;
  }

  /** Base of a path ending in a plain name after "" or a '/'. */
  lemma BaseAfterSlash(pre: string, name: string)
    requires PlainName(name)
    requires pre == "" || pre[|pre| - 1] == '/'
    ensures Base(pre + name) == name
  {
    var p := pre + name;
    assert p[|p| - 1] == name[|name| - 1];
    assert TrimTrailingSlashes(p) == p;
    var i := LastSlash(p);
    assert pre != "" ==> p[|pre| - 1] == '/';
    assert forall k :: |pre| <= k < |p| ==> p[k] == name[k - |pre|];
    assert i == |pre| - 1;
    assert p[i + 1..] == name;
  }

  /** renameBase's convert gives the path the new base name followed by the
      old extension, whenever that name is a plain path element. */
  lemma ConvertBase(p: string, newBase: string)
    requires PlainName(newBase + Ext(p))
    ensures Base(Convert(p, newBase)) == newBase + Ext(p)
  {
    var pre := CleanAppendPlain(Dir(p), newBase + Ext(p));
    BaseAfterSlash(pre, newBase + Ext(p));
  }

  /** renameBase's convert keeps the path in its directory. */
  lemma ConvertDir(p: string, newBase: string)
    requires PlainName(newBase + Ext(p))
    ensures Dir(Convert(p, newBase)) == Dir(p)
  {
    var pre := CleanAppendPlain(Dir(p), newBase + Ext(p));
    DirAfterSlash(pre, newBase + Ext(p));
    CleanIdempotent(p[..LastSlash(p) + 1]);
  }
}
