/**
 * Substring search as the parser uses it: Go's `strings.Index`, which
 * returns the index of the first occurrence of a pattern or -1.
 * Characters stand in for bytes (every marker the parser looks for is ASCII).
 */
module Search {

  /** `pat` occurs in `s` starting at index `i`. */
  predicate OccursAt(s: string, pat: string, i: int)
  {
    0 <= i && i + |pat| <= |s| && s[i..i + |pat|] == pat
  }

  /** `pat` occurs somewhere in `s`. */
  ghost predicate Found(s: string, pat: string)
  {
    exists i :: OccursAt(s, pat, i)
  }

  /** `i` is the first occurrence of `pat` in `s`. */
  ghost predicate FirstAt(s: string, pat: string, i: int)
  {
    OccursAt(s, pat, i) && forall k :: 0 <= k < i ==> !OccursAt(s, pat, k)
  }

  /** Some occurrence of `a` has no occurrence of `b` at or before it. */
  ghost predicate Precedes(s: string, a: string, b: string)
  {
    exists i :: OccursAt(s, a, i) && forall k :: 0 <= k <= i ==> !OccursAt(s, b, k)
  }

  /** Occurrences in the suffix `s[p..]` are the occurrences in `s` at or after `p`. */
  lemma OccursInSuffix(s: string, pat: string, p: nat, i: nat)
    requires p <= |s|
    ensures OccursAt(s[p..], pat, i) <==> OccursAt(s, pat, p + i)
  {
    if i + |pat| <= |s| - p {
      assert s[p..][i..i + |pat|] == s[p + i..p + i + |pat|];
    }
  }

  lemma OccursInTail(s: string, pat: string)
    requires |s| > 0
    ensures forall i :: 1 <= i ==> (OccursAt(s, pat, i) <==> OccursAt(s[1..], pat, i - 1))
  {
    forall i | 1 <= i
      ensures OccursAt(s, pat, i) <==> OccursAt(s[1..], pat, i - 1)
    {
      OccursInSuffix(s, pat, 1, i - 1);
    }
  }

  /**
   * Go's `strings.Index(s, pat)`: the first occurrence of `pat` in `s`,
   * or -1 when there is none (0 for an empty pattern).
   */
  function Index(s: string, pat: string): (r: int)
    ensures r == -1 || 0 <= r <= |s| - |pat|
    decreases |s|
  {
    if |s| < |pat| then -1
    else if s[..|pat|] == pat then 0
    else
      var k := Index(s[1..], pat);
      if k == -1 then -1 else k + 1
  }

  /** `Index` finds the first occurrence, and returns -1 exactly when there is none. */
  lemma {:induction false} IndexFirst(s: string, pat: string)
    ensures Index(s, pat) == -1 <==> !Found(s, pat)
    ensures Index(s, pat) != -1 ==> FirstAt(s, pat, Index(s, pat))
    decreases |s|
  {
    if |s| < |pat| {
    } else if s[..|pat|] == pat {
      assert OccursAt(s, pat, 0);
    } else {
      IndexFirst(s[1..], pat);
      OccursInTail(s, pat);
      assert !OccursAt(s, pat, 0);
      var k := Index(s[1..], pat);
      if k != -1 {
        assert OccursAt(s, pat, k + 1);
      }
    }
  }

  /** A result other than -1 is the first occurrence. */
  lemma IndexFound(s: string, pat: string)
    requires Index(s, pat) != -1
    ensures FirstAt(s, pat, Index(s, pat))
  {
    IndexFirst(s, pat);
  }

  /** With no occurrence at all, `Index` returns -1. */
  lemma IndexMissing(s: string, pat: string)
    requires !Found(s, pat)
    ensures Index(s, pat) == -1
  {
    IndexFirst(s, pat);
  }

  /** Whichever first occurrence a caller knows of is the one `Index` returns. */
  lemma IndexIsFirst(s: string, pat: string, i: int)
    requires FirstAt(s, pat, i)
    ensures Index(s, pat) == i
  {
    IndexFirst(s, pat);
    var r := Index(s, pat);
    assert r != -1;
    assert !(r < i) && !(i < r);
  }

  /**
   * Go's comparison "a found and (a < b or b not found)" between two
   * `strings.Index` results means exactly that `a` precedes `b`.
   */
  lemma PrecedesByIndex(s: string, a: string, b: string)
    ensures Precedes(s, a, b) <==>
              Index(s, a) != -1 && (Index(s, a) < Index(s, b) || Index(s, b) == -1)
  {
    IndexFirst(s, a);
    IndexFirst(s, b);
    var ia, ib := Index(s, a), Index(s, b);
    if ia != -1 && (ia < ib || ib == -1) {
      assert OccursAt(s, a, ia) && forall k :: 0 <= k <= ia ==> !OccursAt(s, b, k);
    }
    if Precedes(s, a, b) {
      var i :| OccursAt(s, a, i) && forall k :: 0 <= k <= i ==> !OccursAt(s, b, k);
      assert ia != -1 && ia <= i;
      if ib != -1 {
        assert OccursAt(s, b, ib);
      }
    }
  }
}
