/**
 * The ascending numeric sort `xs.sort((a, b) => a - b)` that the split executor
 * and the extract handlers apply to page numbers.
 */
module NumericSort {

  predicate Sorted(s: seq<int>)
  {
    forall i, j :: 0 <= i < j < |s| ==> s[i] <= s[j]
  }

  predicate Distinct(s: seq<int>)
  {
    forall i, j :: 0 <= i < j < |s| ==> s[i] != s[j]
  }

  /** Inserts `x` into the sorted `s` before the first element not smaller than it. */
  function Insert(x: int, s: seq<int>): (r: seq<int>)
    requires Sorted(s)
    ensures |r| == |s| + 1
    ensures Sorted(r)
    ensures multiset(r) == multiset(s) + multiset{x}
    ensures r[0] == x || (s != [] && r[0] == s[0])
    decreases |s|
  {
    if s == [] then [x]
    else if x <= s[0] then [x] + s
    else
      var rest := s[1..];
      assert s == [s[0]] + rest;
      var r := Insert(x, rest);
      assert forall k :: 0 <= k < |r| ==> s[0] <= r[0] <= r[k];
      [s[0]] + r
  }

  /** The elements of `s` in ascending order. */
  function SortAscending(s: seq<int>): (r: seq<int>)
    ensures Sorted(r)
    ensures multiset(r) == multiset(s)
    ensures |r| == |s|
    decreases |s|
  {
    if s == [] then []
    else
      assert s == [s[0]] + s[1..];
      Insert(s[0], SortAscending(s[1..]))
  }

  /** Sorting keeps exactly the same elements. */
  lemma SortedSameElements(s: seq<int>)
    ensures forall x :: x in SortAscending(s) <==> x in s
  {
    var r := SortAscending(s);
    forall x ensures x in r <==> x in s {
      assert x in r <==> x in multiset(r);
      assert x in s <==> x in multiset(s);
    }
  }

  /** Sorting keeps every element within bounds that held before. */
  lemma SortKeepsBounds(s: seq<int>, lo: int, hi: int)
    requires forall k :: 0 <= k < |s| ==> lo <= s[k] < hi
    ensures forall k :: 0 <= k < |s| ==> lo <= SortAscending(s)[k] < hi
  {
    var r := SortAscending(s);
    SortedSameElements(s);
    forall k | 0 <= k < |r| ensures lo <= r[k] < hi {
      assert r[k] in s;
    }
  }

  lemma {:induction false} InsertKeepsDistinct(x: int, s: seq<int>)
    requires Sorted(s) && Distinct(s) && x !in s
    ensures Distinct(Insert(x, s))
    decreases |s|
  {
    if s != [] && x > s[0] {
      InsertKeepsDistinct(x, s[1..]);
      var rest := Insert(x, s[1..]);
      forall k | 0 <= k < |rest| ensures rest[k] != s[0] {
        assert rest[k] in multiset(rest);
        assert rest[k] == x || rest[k] in multiset(s[1..]);
        forall j | 0 <= j < |s[1..]| ensures s[1..][j] != s[0] {
          assert s[1..][j] == s[j + 1];
        }
      }
    }
  }

  /** Sorting a list without repeated values yields a strictly ascending list. */
  lemma {:induction false} SortKeepsDistinct(s: seq<int>)
    requires Distinct(s)
    ensures Distinct(SortAscending(s))
    ensures forall i :: 0 <= i < |s| - 1 ==> SortAscending(s)[i] < SortAscending(s)[i + 1]
    decreases |s|
  {
    if s != [] {
      SortKeepsDistinct(s[1..]);
      SortedSameElements(s[1..]);
      forall k | 0 <= k < |s[1..]| ensures s[1..][k] != s[0] {
        assert s[1..][k] == s[k + 1];
      }
      InsertKeepsDistinct(s[0], SortAscending(s[1..]));
    }
    var r := SortAscending(s);
    forall i | 0 <= i < |s| - 1 ensures r[i] < r[i + 1] {
      assert r[i] <= r[i + 1] && r[i] != r[i + 1];
    }
  }

  /** Two ascending sequences with the same elements start with the same value. */
  lemma SortedSameHead(a: seq<int>, b: seq<int>)
    requires Sorted(a) && Sorted(b) && multiset(a) == multiset(b) && a != [] && b != []
    ensures a[0] == b[0]
  {
    assert a[0] in multiset(b);
    var i :| 0 <= i < |b| && b[i] == a[0];
    assert b[0] in multiset(a);
    var j :| 0 <= j < |a| && a[j] == b[0];
  }

  lemma MultisetOfTail(a: seq<int>)
    requires a != []
    ensures multiset(a) == multiset{a[0]} + multiset(a[1..])
    ensures multiset(a[1..]) == multiset(a) - multiset{a[0]}
  {
    assert a == [a[0]] + a[1..];
  }

  /** Two ascending sequences with the same elements, counted with multiplicity, are equal. */
  lemma {:induction false} SortedEqual(a: seq<int>, b: seq<int>)
    requires Sorted(a) && Sorted(b) && multiset(a) == multiset(b)
    ensures a == b
    decreases |a|
  {
    assert |a| == |multiset(a)| == |multiset(b)| == |b|;
    if a != [] {
      var ta, tb := a[1..], b[1..];
      assert a[0] == b[0] by {
        SortedSameHead(a, b);
      }
      assert multiset(ta) == multiset(tb) by {
        MultisetOfTail(a);
        MultisetOfTail(b);
      }
      assert ta == tb by {
        TailSorted(a);
        TailSorted(b);
        SortedEqual(ta, tb);
      }
      calc {
        a;
        [a[0]] + ta;
        [b[0]] + tb;
        b;
      }
    }
  }

  lemma TailSorted(a: seq<int>)
    requires Sorted(a) && a != []
    ensures Sorted(a[1..])
  {
    var t := a[1..];
    forall i, j | 0 <= i < j < |t| ensures t[i] <= t[j] {
      assert t[i] == a[i + 1] && t[j] == a[j + 1];
    }
  }

  /** The sorted order depends only on which values are present, not on the order they arrive in. */
  lemma SortDeterminedByElements(a: seq<int>, b: seq<int>)
    requires multiset(a) == multiset(b)
    ensures SortAscending(a) == SortAscending(b)
  {
    SortedEqual(SortAscending(a), SortAscending(b));
  }
}
