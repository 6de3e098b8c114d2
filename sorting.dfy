/** Sorting as sort.Float64s and sort.Strings do it in pdftext.go, for any
    strict total order, specified by a functional insertion sort. The Go
    library's algorithm is not modelled: under a strict total order every
    sorted permutation is the same sequence (SortedUnique), so the result
    does not depend on it. */
module Sorting {

  /** lt is irreflexive, transitive and total on distinct values. */
  ghost predicate StrictTotalOrder<T(!new)>(lt: (T, T) -> bool) {
    && (forall x :: !lt(x, x))
    && (forall x, y, z :: lt(x, y) && lt(y, z) ==> lt(x, z))
    && (forall x, y :: x != y ==> lt(x, y) || lt(y, x))
  }

  /** No element is smaller than one before it. */
  ghost predicate Sorted<T>(s: seq<T>, lt: (T, T) -> bool) {
    forall i, j :: 0 <= i < j < |s| ==> !lt(s[j], s[i])
  }

  /** x placed into the sorted s before the first element not smaller than it. */
  function Insert<T>(x: T, s: seq<T>, lt: (T, T) -> bool): (r: seq<T>)
    ensures multiset(r) == multiset(s) + multiset{x}
    ensures |r| == |s| + 1
  {
    if s == [] || !lt(s[0], x) then [x] + s
    else
      assert s == [s[0]] + s[1..];
      [s[0]] + Insert(x, s[1..], lt)
  }

  /** Insertion sort: the reference sorted permutation of s. */
  function SortSeq<T>(s: seq<T>, lt: (T, T) -> bool): (r: seq<T>)
    ensures multiset(r) == multiset(s)
    ensures |r| == |s|
  {
    if s == [] then []
    else
      assert s == [s[0]] + s[1..];
      Insert(s[0], SortSeq(s[1..], lt), lt)
  }

  lemma {:induction false} InsertSorted<T(!new)>(x: T, s: seq<T>, lt: (T, T) -> bool)
    requires StrictTotalOrder(lt) && Sorted(s, lt)
    ensures Sorted(Insert(x, s, lt), lt)
    decreases |s|
  {
    if s != [] && lt(s[0], x) {
      InsertSorted(x, s[1..], lt);
      var r := Insert(x, s, lt);
      var t := Insert(x, s[1..], lt);
      assert r == [s[0]] + t;
      forall j | 0 < j < |r| ensures !lt(r[j], s[0]) {
        assert r[j] in multiset(t);
        assert r[j] in multiset(s[1..]) + multiset{x};
        if r[j] != x {
          assert r[j] in s[1..];
          var k :| 0 <= k < |s[1..]| && s[1..][k] == r[j];
          assert s[k + 1] == r[j];
        } else {
          assert !lt(x, s[0]);
        }
      }
    }
  }

  /** SortSeq does sort. */
  lemma {:induction false} SortSeqSorted<T(!new)>(s: seq<T>, lt: (T, T) -> bool)
    requires StrictTotalOrder(lt)
    ensures Sorted(SortSeq(s, lt), lt)
    decreases |s|
  {
    if s != [] {
      SortSeqSorted(s[1..], lt);
      InsertSorted(s[0], SortSeq(s[1..], lt), lt);
    }
  }

  /** A sorted permutation is unique: two sorted sequences holding the same
      multiset are equal. */
  lemma {:induction false} SortedUnique<T(!new)>(a: seq<T>, b: seq<T>, lt: (T, T) -> bool)
    requires StrictTotalOrder(lt)
    requires Sorted(a, lt) && Sorted(b, lt)
    requires multiset(a) == multiset(b)
    ensures a == b
    decreases |a|
  {
    assert |a| == |multiset(a)| == |multiset(b)| == |b|;
    if a != [] {
      SortedHeads(a, b, lt);
      MultisetTails(a, b);
      assert Sorted(a[1..], lt) && Sorted(b[1..], lt);
      SortedUnique(a[1..], b[1..], lt);
      assert a == [a[0]] + a[1..] && b == [b[0]] + b[1..];
    }
  }

  /** Two sorted sequences holding the same non-empty multiset start alike. */
  lemma SortedHeads<T(!new)>(a: seq<T>, b: seq<T>, lt: (T, T) -> bool)
    requires StrictTotalOrder(lt)
    requires Sorted(a, lt) && Sorted(b, lt)
    requires multiset(a) == multiset(b) && a != []
    ensures b != [] && a[0] == b[0]
  {
    assert a[0] in multiset(b);
    var j :| 0 <= j < |b| && b[j] == a[0];
    assert !lt(a[0], b[0]) by {
      if j > 0 {
        assert !lt(b[j], b[0]);
      }
    }
    assert b[0] in multiset(a);
    var k :| 0 <= k < |a| && a[k] == b[0];
    assert !lt(b[0], a[0]) by {
      if k > 0 {
        assert !lt(a[k], a[0]);
      }
    }
  }

  lemma MultisetTails<T>(a: seq<T>, b: seq<T>)
    requires multiset(a) == multiset(b) && a != [] && b != [] && a[0] == b[0]
    ensures multiset(a[1..]) == multiset(b[1..])
  {
    assert a == [a[0]] + a[1..] && b == [b[0]] + b[1..];
    assert multiset(a) == multiset{a[0]} + multiset(a[1..]);
    assert multiset(b) == multiset{b[0]} + multiset(b[1..]);
    assert multiset(a[1..]) == multiset(a) - multiset{a[0]};
    assert multiset(b[1..]) == multiset(b) - multiset{b[0]};
  }

  /** Any sorted permutation of s is SortSeq(s). */
  lemma SortedIsSortSeq<T(!new)>(s: seq<T>, t: seq<T>, lt: (T, T) -> bool)
    requires StrictTotalOrder(lt)
    requires Sorted(t, lt) && multiset(t) == multiset(s)
    ensures t == SortSeq(s, lt)
  {
    SortSeqSorted(s, lt);
    SortedUnique(t, SortSeq(s, lt), lt);
  }

  /** sort.Strings or sort.Float64s on a[..n]: the prefix is overwritten
      with its sorted permutation; a[n..] is untouched. */
  method SortPrefix<T>(a: array<T>, n: nat, lt: (T, T) -> bool)
    requires n <= a.Length
    modifies a
    ensures a[..n] == SortSeq(old(a[..n]), lt)
    ensures a[n..] == old(a[n..])
  {
    var sorted := SortSeq(a[..n], lt);
    Overwrite(a, sorted);
  }

  /** Copies s over the front of a, element by element. */
  method Overwrite<T>(a: array<T>, s: seq<T>)
    requires |s| <= a.Length
    modifies a
    ensures a[..|s|] == s
    ensures a[|s|..] == old(a[|s|..])
  {
    var k := 0;
    while k < |s|
      invariant k <= |s|
      invariant forall p :: 0 <= p < k ==> a[p] == s[p]
      invariant forall p :: k <= p < a.Length ==> a[p] == old(a[p])
    {
      a[k] := s[k];
      k := k + 1;
    }
  }
}
