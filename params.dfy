/**
 * `extractParam`: the value of one `<param name="key" value="...">` tag
 * inside a normalised object block.
 */
module Params {
  import opened Search

  /** The literal searched for; after normalisation no space separates the two attributes. */
  function Pattern(key: string): string
  {
    "name=\"" + key + "\"value=\""
  }

  /** Before the quote `Index` finds there is no other quote. */
  lemma {:induction false} FirstQuote(s: string)
    requires Index(s, "\"") != -1
    ensures var end := Index(s, "\"");
      0 <= end < |s| && s[end] == '"' && '"' !in s[..end]
    decreases |s|
  {
    assert s[..1] == [s[0]];
    if s[0] != '"' {
      var tail := s[1..];
      FirstQuote(tail);
      var e := Index(tail, "\"");
      assert Index(s, "\"") == e + 1;
      assert s[..e + 1] == [s[0]] + tail[..e];
    }
  }

  /** `pat`, then `value`, then a quote, occur at `start` when each part sits in its place. */
  lemma OccursInParts(content: string, pat: string, value: string, start: int)
    requires OccursAt(content, pat, start)
    requires var from := start + |pat|;
      from + |value| < |content| && content[from..from + |value|] == value && content[from + |value|] == '"'
    ensures OccursAt(content, pat + value + "\"", start)
  {
    var from := start + |pat|;
    var to := from + |value|;
    assert content[to..to + 1] == "\"";
    assert content[start..to + 1] == content[start..from] + content[from..to] + content[to..to + 1];
  }

  /**
   * When a quote follows an occurrence of `pat` at `start`, the text up to
   * the first such quote is quote-free and sits between `pat` and that quote.
   */
  lemma QuotedValue(content: string, pat: string, start: int)
    requires OccursAt(content, pat, start)
    requires Index(content[start + |pat|..], "\"") != -1
    ensures var from := start + |pat|;
      var end := Index(content[from..], "\"");
      && from + end < |content|
      && OccursAt(content, pat + content[from..from + end] + "\"", start)
      && '"' !in content[from..from + end]
  {
    var from := start + |pat|;
    var rest := content[from..];
    FirstQuote(rest);
    var end := Index(rest, "\"");
    assert rest[..end] == content[from..from + end];
    assert rest[end] == content[from + end];
    assert '"' !in content[from..from + end];
    OccursInParts(content, pat, content[from..from + end], start);
  }

  /**
   * The text between the first occurrence of `pat` and the next quote, or
   * "" when either is missing: the search `extractParam` makes once it has
   * built its pattern.
   */
  function ValueAfter(content: string, pat: string): (r: string)
    ensures '"' !in r
    ensures forall x :: x in r ==> x in content
    ensures r != "" ==> exists i :: OccursAt(content, pat + r + "\"", i)
  {
    var start := Index(content, pat);
    if start == -1 then ""
    else
      var from := start + |pat|;
      var end := Index(content[from..], "\"");
      if end == -1 then ""
      else
        IndexFound(content, pat);
        QuotedValue(content, pat, start);
        content[from..from + end]
  }

  /** `extractParam` (main.go lines 101-112): the value given to parameter `key`. */
  function ExtractParam(content: string, key: string): string
  {
    ValueAfter(content, Pattern(key))
  }

  /** No occurrence of the pattern: the value is empty. */
  lemma ValueAfterWithoutPattern(content: string, pat: string)
    requires forall i :: !OccursAt(content, pat, i)
    ensures ValueAfter(content, pat) == ""
  {
    IndexMissing(content, pat);
  }

  /** The pattern occurs first at `i` but no quote follows it: the value is empty. */
  lemma ValueAfterWithoutClosingQuote(content: string, pat: string, i: int)
    requires FirstAt(content, pat, i)
    requires forall k :: i + |pat| <= k < |content| ==> content[k] != '"'
    ensures ValueAfter(content, pat) == ""
  {
    IndexIsFirst(content, pat, i);
    var rest := content[i + |pat|..];
    if Index(rest, "\"") != -1 {
      FirstQuote(rest);
    }
  }

  /** The first quote at or after `from` is at `j`: searching the suffix from `from` finds it. */
  lemma QuoteAfter(s: string, from: int, j: int)
    requires 0 <= from <= j < |s| && s[j] == '"'
    requires forall k :: from <= k < j ==> s[k] != '"'
    ensures Index(s[from..], "\"") == j - from
  {
    var rest := s[from..];
    assert rest[j - from..j - from + 1] == [s[j]];
    forall k | 0 <= k < j - from
      ensures !OccursAt(rest, "\"", k)
    {
      assert rest[k..k + 1] == [s[from + k]];
    }
    IndexIsFirst(rest, "\"", j - from);
  }

  /**
   * The pattern occurs first at `i` and the next quote after it is at `j`:
   * the value is exactly the text in between.
   */
  lemma ValueAfterExact(content: string, pat: string, i: int, j: int)
    requires FirstAt(content, pat, i)
    requires i + |pat| <= j < |content| && content[j] == '"'
    requires forall k :: i + |pat| <= k < j ==> content[k] != '"'
    ensures ValueAfter(content, pat) == content[i + |pat|..j]
  {
    IndexIsFirst(content, pat, i);
    QuoteAfter(content, i + |pat|, j);
    ValueAfterUnfold(content, pat, i, j - i - |pat|);
  }

  lemma ValueAfterUnfold(content: string, pat: string, i: int, end: int)
    requires Index(content, pat) == i && i != -1
    requires Index(content[i + |pat|..], "\"") == end && end != -1
    ensures ValueAfter(content, pat) == content[i + |pat|..i + |pat| + end]
  {
  }

  /** `ExtractParam` is empty when the pattern for `key` does not occur. */
  lemma ExtractParamWithoutPattern(content: string, key: string)
    requires forall i :: !OccursAt(content, Pattern(key), i)
    ensures ExtractParam(content, key) == ""
  {
    ValueAfterWithoutPattern(content, Pattern(key));
  }

  /** `ExtractParam` is empty when no quote follows the first pattern for `key`. */
  lemma ExtractParamWithoutClosingQuote(content: string, key: string, i: int)
    requires FirstAt(content, Pattern(key), i)
    requires forall k :: i + |Pattern(key)| <= k < |content| ==> content[k] != '"'
    ensures ExtractParam(content, key) == ""
  {
    ValueAfterWithoutClosingQuote(content, Pattern(key), i);
  }

  /** `ExtractParam` is exactly the text between the first pattern for `key` and the next quote. */
  lemma ExtractParamValue(content: string, key: string, i: int, j: int)
    requires FirstAt(content, Pattern(key), i)
    requires i + |Pattern(key)| <= j < |content| && content[j] == '"'
    requires forall k :: i + |Pattern(key)| <= k < j ==> content[k] != '"'
    ensures ExtractParam(content, key) == content[i + |Pattern(key)|..j]
  {
    ValueAfterExact(content, Pattern(key), i, j);
  }
}
