/** Sequence helpers that mirror the Python list operations the monitor relies on. */
module Seqs {
  import opened Wrappers

  /** No element occurs twice (the keys of a Python dict, for one). */
  predicate Distinct<T(==)>(s: seq<T>) {
    forall i, j :: 0 <= i < j < |s| ==> s[i] != s[j]
  }

  /** `i` is the position of the first occurrence of `x` in `s`. */
  predicate FirstAt<T(==)>(s: seq<T>, x: T, i: int) {
    0 <= i < |s| && s[i] == x && x !in s[..i]
  }

  /** Python's `list.index(x)`: the position of the first occurrence of `x`,
      or `None` where Python raises `ValueError`. */
  function IndexOf<T(==)>(s: seq<T>, x: T): (r: Option<nat>)
    ensures r.None? <==> x !in s
    ensures r.Some? ==> FirstAt(s, x, r.value)
  {
    if |s| == 0 then None
    else if s[0] == x then Some(0)
    else match IndexOf(s[1..], x)
      case None => None
      case Some(i) => Some(i + 1)
  }

  /** The first occurrence of an element is unique. */
  lemma FirstAtUnique<T>(s: seq<T>, x: T, i: int, j: int)
    requires FirstAt(s, x, i) && FirstAt(s, x, j)
    ensures i == j
  {
  }

  /** `a` can be obtained from `b` by deleting elements, keeping order. */
  predicate IsSubsequence<T(==)>(a: seq<T>, b: seq<T>)
    decreases |b|
  {
    a == [] ||
    (b != [] &&
     ((a[0] == b[0] && IsSubsequence(a[1..], b[1..])) || IsSubsequence(a, b[1..])))
  }

  /** In a sequence without repeats every element occurs once. */
  lemma {:induction false} DistinctMultiplicity<T>(s: seq<T>)
    requires Distinct(s)
    ensures forall x :: multiset(s)[x] == if x in s then 1 else 0
  {
    if s != [] {
      DistinctMultiplicity(s[1..]);
      assert s == [s[0]] + s[1..];
      assert multiset(s) == multiset{s[0]} + multiset(s[1..]);
    }
  }

  /** Two sequences without repeats and with the same elements are permutations of
      each other. */
  lemma SameElementsPermutation<T>(a: seq<T>, b: seq<T>)
    requires Distinct(a) && Distinct(b)
    requires forall x :: x in a <==> x in b
    ensures multiset(a) == multiset(b)
  {
    DistinctMultiplicity(a);
    DistinctMultiplicity(b);
    assert forall x :: multiset(a)[x] == multiset(b)[x];
  }

  /** An element found at two positions occurs at least twice. */
  lemma RepeatMultiplicity<T>(s: seq<T>, i: int, j: int)
    requires 0 <= i < j < |s| && s[i] == s[j]
    ensures multiset(s)[s[i]] >= 2
  {
    assert s == s[..j] + s[j..];
    assert s[i] in s[..j] && s[j] in s[j..];
  }

  /** A permutation of a sequence without repeats has no repeats either. */
  lemma PermutationDistinct<T>(a: seq<T>, b: seq<T>)
    requires Distinct(a) && multiset(a) == multiset(b)
    ensures Distinct(b)
  {
    DistinctMultiplicity(a);
    forall i, j | 0 <= i < j < |b|
      ensures b[i] != b[j]
    {
      if b[i] == b[j] {
        RepeatMultiplicity(b, i, j);
        assert false;
      }
    }
  }

  /** A sequence without repeats whose only element is `x` is `[x]`. */
  lemma OnlyElement<T>(s: seq<T>, x: T)
    requires Distinct(s) && x in s
    requires forall y :: y in s ==> y == x
    ensures s == [x]
  {
    assert s[0] in s && s[|s| - 1] in s;
  }

  /** A sequence is empty exactly when nothing is in it. */
  lemma EmptyIffNoElement<T>(s: seq<T>)
    ensures s == [] <==> forall y :: y !in s
  {
    if s != [] {
      assert s[0] in s;
    }
  }
}
