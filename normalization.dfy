/**
 * The normalisation `parseHTML` applies to the whole document before
 * scanning it: lower-case everything, then delete every newline, carriage
 * return, tab and space.
 */
module Normalization {

  predicate IsUpper(c: char)
  {
    'A' <= c <= 'Z'
  }

  /** The four characters the parser deletes. */
  predicate IsBlank(c: char)
  {
    c == '\n' || c == '\r' || c == '\t' || c == ' '
  }

  /** A character as `strings.ToLower` maps it, restricted to ASCII letters. */
  function Lower(c: char): (d: char)
    ensures !IsUpper(d)
    ensures IsBlank(d) <==> IsBlank(c)
    ensures !IsUpper(c) ==> d == c
    ensures IsUpper(c) ==> 'a' <= d <= 'z' && d as int - 'a' as int == c as int - 'A' as int
  {
    if IsUpper(c) then (c as int + 32) as char else c
  }

  /** `strings.ToLower`: every character mapped through `Lower`, in place. */
  function ToLower(s: string): (r: string)
    ensures |r| == |s|
    ensures forall i :: 0 <= i < |s| ==> r[i] == Lower(s[i])
  {
    if s == [] then [] else [Lower(s[0])] + ToLower(s[1..])
  }

  /** `strings.ReplaceAll(s, [c], "")`: `s` with every `c` removed. */
  function Delete(s: string, c: char): (r: string)
    ensures |r| <= |s|
    ensures forall x :: x in r <==> x in s && x != c
    ensures c !in s ==> r == s
  {
    if s == [] then []
    else
      assert s == [s[0]] + s[1..];
      (if s[0] == c then [] else [s[0]]) + Delete(s[1..], c)
  }

  /** The normalised text of a document (main.go lines 53-57). */
  function Normalize(s: string): (r: string)
    ensures |r| <= |s|
    ensures forall i :: 0 <= i < |r| ==> !IsBlank(r[i]) && !IsUpper(r[i])
  {
    var lowered := ToLower(s);
    assert forall x :: x in lowered ==> !IsUpper(x);
    Delete(Delete(Delete(Delete(lowered, '\n'), '\r'), '\t'), ' ')
  }

  /** A character-by-character reading of the normalisation: blanks vanish, everything else is lowered. */
  function Squeeze(s: string): string
  {
    if s == [] then [] else (if IsBlank(s[0]) then [] else [Lower(s[0])]) + Squeeze(s[1..])
  }

  /** The text has nothing left for the normalisation to change. */
  predicate IsNormal(s: string)
  {
    forall i :: 0 <= i < |s| ==> !IsBlank(s[i]) && !IsUpper(s[i])
  }

  lemma {:induction false} ToLowerAppend(a: string, b: string)
    ensures ToLower(a + b) == ToLower(a) + ToLower(b)
    decreases |a|
  {
    if a == [] {
      assert a + b == b;
    } else {
      assert (a + b)[0] == a[0] && (a + b)[1..] == a[1..] + b;
      ToLowerAppend(a[1..], b);
    }
  }

  lemma {:induction false} DeleteAppend(a: string, b: string, c: char)
    ensures Delete(a + b, c) == Delete(a, c) + Delete(b, c)
    decreases |a|
  {
    if a != [] {
      assert (a + b)[0] == a[0] && (a + b)[1..] == a[1..] + b;
      DeleteAppend(a[1..], b, c);
    } else {
      assert a + b == b;
    }
  }

  /** Normalisation works on each part of a document independently. */
  lemma {:induction false} NormalizeAppend(a: string, b: string)
    ensures Normalize(a + b) == Normalize(a) + Normalize(b)
  {
    ToLowerAppend(a, b);
    var la, lb := ToLower(a), ToLower(b);
    DeleteAppend(la, lb, '\n');
    var na, nb := Delete(la, '\n'), Delete(lb, '\n');
    DeleteAppend(na, nb, '\r');
    var ra, rb := Delete(na, '\r'), Delete(nb, '\r');
    DeleteAppend(ra, rb, '\t');
    DeleteAppend(Delete(ra, '\t'), Delete(rb, '\t'), ' ');
  }

  /** The normalisation is exactly the character-by-character reading `Squeeze`. */
  lemma {:induction false} NormalizeIsSqueeze(s: string)
    ensures Normalize(s) == Squeeze(s)
    decreases |s|
  {
    if s == [] {
      assert Normalize(s) == [];
    } else {
      assert s == [s[0]] + s[1..];
      NormalizeAppend([s[0]], s[1..]);
      NormalizeIsSqueeze(s[1..]);
      var low := Lower(s[0]);
      assert ToLower([s[0]]) == [low];
      if IsBlank(s[0]) {
        assert Normalize([s[0]]) == [];
      } else {
        assert Normalize([s[0]]) == [low];
      }
    }
  }

  lemma {:induction false} SqueezeKeepsNormal(s: string)
    requires IsNormal(s)
    ensures Squeeze(s) == s
    decreases |s|
  {
    if s != [] {
      SqueezeKeepsNormal(s[1..]);
      assert s == [s[0]] + s[1..];
    }
  }

  /** Normalising twice gives the same text as normalising once. */
  lemma NormalizeIdempotent(s: string)
    ensures Normalize(Normalize(s)) == Normalize(s)
  {
    var n := Normalize(s);
    NormalizeIsSqueeze(n);
    SqueezeKeepsNormal(n);
  }

  /** Two documents that differ only in the case of ASCII letters normalise identically. */
  lemma NormalizeIgnoresCase(a: string, b: string)
    requires |a| == |b|
    requires forall i :: 0 <= i < |a| ==> Lower(a[i]) == Lower(b[i])
    ensures Normalize(a) == Normalize(b)
  {
    assert ToLower(a) == ToLower(b);
  }
}
