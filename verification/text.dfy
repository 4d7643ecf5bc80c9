/** Python's `str.strip()` with no argument, over strings of Unicode code points. */
module Text {

  /** Python's `str.isspace()` for one code point: the characters `strip()` removes. */
  predicate IsSpace(c: char) {
    var n := c as int;
    (0x09 <= n <= 0x0D) || (0x1C <= n <= 0x20) || n == 0x85 || n == 0xA0 || n == 0x1680 ||
    (0x2000 <= n <= 0x200A) || n == 0x2028 || n == 0x2029 || n == 0x202F || n == 0x205F ||
    n == 0x3000
  }

  predicate AllSpace(s: string) {
    forall k :: 0 <= k < |s| ==> IsSpace(s[k])
  }

  /** Neither end of `s` is whitespace. */
  predicate IsTrimmed(s: string) {
    s == [] || (!IsSpace(s[0]) && !IsSpace(s[|s| - 1]))
  }

  /** `r` is `s` with only whitespace removed before position `i` and after `r`. */
  predicate SpaceAround(s: string, r: string, i: int) {
    && 0 <= i && i + |r| <= |s|
    && (forall k :: 0 <= k < |r| ==> r[k] == s[i + k])
    && (forall k :: 0 <= k < i ==> IsSpace(s[k]))
    && (forall k :: i + |r| <= k < |s| ==> IsSpace(s[k]))
  }

  /** Python's `s.strip()`: `s` without its leading and trailing whitespace. */
  function Strip(s: string): (r: string)
    ensures IsTrimmed(r)
    ensures |r| <= |s|
  {
    if |s| > 0 && IsSpace(s[0]) then Strip(s[1..])
    else if |s| > 0 && IsSpace(s[|s| - 1]) then Strip(s[..|s| - 1])
    else s
  }

  /** What `Strip` removes is whitespace at the two ends and nothing else. */
  lemma {:induction false} StripRemovesSpaceAround(s: string)
    ensures exists i :: SpaceAround(s, Strip(s), i)
    decreases |s|
  {
    var r := Strip(s);
    if |s| > 0 && IsSpace(s[0]) {
      StripRemovesSpaceAround(s[1..]);
      assert forall k :: 0 <= k < |s| - 1 ==> s[1..][k] == s[k + 1];
      var i :| SpaceAround(s[1..], r, i);
      assert SpaceAround(s, r, i + 1);
    } else if |s| > 0 && IsSpace(s[|s| - 1]) {
      StripRemovesSpaceAround(s[..|s| - 1]);
      assert forall k :: 0 <= k < |s| - 1 ==> s[..|s| - 1][k] == s[k];
      var i :| SpaceAround(s[..|s| - 1], r, i);
      assert SpaceAround(s, r, i);
    } else {
      assert SpaceAround(s, r, 0);
    }
  }

  /** Strip has exactly one possible answer: any whitespace-only split of `s`
      around a trimmed middle yields `Strip(s)`. */
  lemma StripUnique(s: string, r: string, i: int)
    requires SpaceAround(s, r, i) && IsTrimmed(r)
    ensures Strip(s) == r
  {
    StripRemovesSpaceAround(s);
    var q :| SpaceAround(s, Strip(s), q);
    SpaceAroundUnique(s, r, i, Strip(s), q);
  }

  lemma SpaceAroundUnique(s: string, r: string, i: int, r': string, i': int)
    requires SpaceAround(s, r, i) && IsTrimmed(r)
    requires SpaceAround(s, r', i') && IsTrimmed(r')
    ensures r == r'
  {
  }

  /** A cell strips to the empty string exactly when it is all whitespace. */
  lemma StripEmptyIff(s: string)
    ensures Strip(s) == [] <==> AllSpace(s)
  {
    if AllSpace(s) {
      assert SpaceAround(s, [], |s|);
      StripUnique(s, [], |s|);
    }
  }

  /** Stripping twice is stripping once. */
  lemma StripIdempotent(s: string)
    ensures Strip(Strip(s)) == Strip(s)
  {
    var r := Strip(s);
    assert SpaceAround(r, r, 0) by { assert r[0..|r|] == r; }
    StripUnique(r, r, 0);
  }
}
