/** Python's `sorted()` on a list of strings: code-point lexicographic order and an
    insertion sort. */
module Sorting {

  /** Python's `a < b` on `str`: the first differing code point decides, and a
      proper prefix comes first. */
  predicate LexLess(a: string, b: string)
    decreases |a|
  {
    |b| > 0 && (|a| == 0 || a[0] < b[0] || (a[0] == b[0] && LexLess(a[1..], b[1..])))
  }

  lemma {:induction false} LexLessIrreflexive(a: string)
    ensures !LexLess(a, a)
    decreases |a|
  {
    if |a| > 0 {
      LexLessIrreflexive(a[1..]);
    }
  }

  lemma {:induction false} LexLessTransitive(a: string, b: string, c: string)
    requires LexLess(a, b) && LexLess(b, c)
    ensures LexLess(a, c)
    decreases |a|
  {
    if |a| > 0 && a[0] == b[0] && b[0] == c[0] {
      LexLessTransitive(a[1..], b[1..], c[1..]);
    }
  }

  /** Any two different strings are ordered one way or the other. */
  lemma {:induction false} LexLessTotal(a: string, b: string)
    requires a != b
    ensures LexLess(a, b) || LexLess(b, a)
    decreases |a|
  {
    if |a| > 0 && |b| > 0 && a[0] == b[0] {
      assert a == [a[0]] + a[1..] && b == [b[0]] + b[1..];
      LexLessTotal(a[1..], b[1..]);
    }
  }

  lemma {:induction false} LexLessAsymmetric(a: string, b: string)
    requires LexLess(a, b)
    ensures !LexLess(b, a)
  {
    if LexLess(b, a) {
      LexLessTransitive(a, b, a);
      LexLessIrreflexive(a);
    }
  }

  /** Non-descending in Python's string order. */
  predicate Sorted(s: seq<string>) {
    forall i, j :: 0 <= i < j < |s| ==> !LexLess(s[j], s[i])
  }

  /** Places `x` before the first element greater than it. */
  function InsertSorted(x: string, s: seq<string>): seq<string> {
    if s == [] || !LexLess(s[0], x) then [x] + s
    else [s[0]] + InsertSorted(x, s[1..])
  }

  /** Insertion into a sorted sequence keeps it sorted and adds exactly `x`. */
  lemma {:induction false} InsertSortedSpec(x: string, s: seq<string>)
    requires Sorted(s)
    ensures Sorted(InsertSorted(x, s))
    ensures multiset(InsertSorted(x, s)) == multiset(s) + multiset{x}
  {
    if s == [] {
    } else if LexLess(s[0], x) {
      var t := InsertSorted(x, s[1..]);
      InsertSortedSpec(x, s[1..]);
      assert s == [s[0]] + s[1..];
      forall k | 0 <= k < |t|
        ensures !LexLess(t[k], s[0])
      {
        assert t[k] in multiset(t);
        if t[k] != x {
          assert t[k] in multiset(s[1..]);
          var j :| 0 <= j < |s[1..]| && s[1..][j] == t[k];
          assert s[j + 1] == t[k];
        } else {
          LexLessAsymmetric(s[0], x);
        }
      }
    } else {
      forall k | 0 < k < |s|
        ensures !LexLess(s[k], x)
      {
        if LexLess(s[k], x) && s[0] != s[k] {
          LexLessTotal(s[0], s[k]);
          LexLessTransitive(s[0], s[k], x);
        }
      }
    }
  }

  /** Python's `sorted(keys)`: insertion sort. */
  function Sort(s: seq<string>): seq<string> {
    if s == [] then []
    else InsertSorted(s[|s| - 1], Sort(s[..|s| - 1]))
  }

  /** The sort's result is in ascending order and holds the same strings, each as
      often as the input does. */
  lemma {:induction false} SortSpec(s: seq<string>)
    ensures Sorted(Sort(s))
    ensures multiset(Sort(s)) == multiset(s)
    ensures |Sort(s)| == |s| && forall x :: x in Sort(s) <==> x in s
  {
    if s != [] {
      var front := s[..|s| - 1];
      SortSpec(front);
      InsertSortedSpec(s[|s| - 1], Sort(front));
      assert s == front + [s[|s| - 1]];
      var r := Sort(s);
      assert |r| == |multiset(r)| == |multiset(s)| == |s|;
      assert forall x :: x in r <==> x in multiset(r);
    }
  }

  /** Two sorted arrangements of the same strings start with the same (least) one. */
  lemma SortedHeads(a: seq<string>, b: seq<string>)
    requires Sorted(a) && Sorted(b) && multiset(a) == multiset(b) && a != []
    ensures b != [] && a[0] == b[0]
  {
    assert a[0] in multiset(b);
    assert b[0] in multiset(a);
    var i :| 0 <= i < |a| && a[i] == b[0];
    var j :| 0 <= j < |b| && b[j] == a[0];
    if a[0] != b[0] {
      // Each head is at most the other, which the total order forbids.
      LexLessTotal(a[0], b[0]);
      assert false;
    }
  }

  /** A sorted arrangement of a multiset of strings is unique, so the sort's result
      depends only on which strings it is given, not on their order. */
  lemma {:induction false} SortedUnique(a: seq<string>, b: seq<string>)
    requires Sorted(a) && Sorted(b) && multiset(a) == multiset(b)
    ensures a == b
    decreases |a|
  {
    if a != [] {
      SortedHeads(a, b);
      assert a == [a[0]] + a[1..] && b == [b[0]] + b[1..];
      assert multiset(a[1..]) == multiset(a) - multiset{a[0]};
      assert multiset(b[1..]) == multiset(b) - multiset{b[0]};
      SortedUnique(a[1..], b[1..]);
    }
  }
}
