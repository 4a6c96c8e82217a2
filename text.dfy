/**
 * The string operations of Python and BeautifulSoup that the scraper relies on:
 * str.strip(), str.split()[0], str.lower(), str.endswith() and
 * Tag.get_text(strip=True).
 */
module Text {

  import opened Optional

  /** Python's str.isspace() for one character: the characters str.strip() and str.split() remove. */
  predicate IsSpace(c: char) {
    || c == ' '
    || '\t' <= c <= '\r'
    || '\U{1C}' <= c <= '\U{1F}'
    || c == '\U{85}' || c == '\U{A0}' || c == '\U{1680}'
    || '\U{2000}' <= c <= '\U{200A}'
    || c == '\U{2028}' || c == '\U{2029}' || c == '\U{202F}' || c == '\U{205F}' || c == '\U{3000}'
  }

  predicate IsNotSpace(c: char) { !IsSpace(c) }

  /** The regular-expression class \d, restricted to ASCII digits. */
  predicate IsDigit(c: char) { '0' <= c <= '9' }

  /** The regular-expression class \w, restricted to ASCII letters, digits and underscore. */
  predicate IsWordChar(c: char) { 'a' <= c <= 'z' || 'A' <= c <= 'Z' || IsDigit(c) || c == '_' }

  predicate AllSpace(s: string) { forall k :: 0 <= k < |s| ==> IsSpace(s[k]) }

  /** Neither the first nor the last character is white space. */
  predicate NoOuterSpace(s: string) { s == [] || (!IsSpace(s[0]) && !IsSpace(s[|s| - 1])) }

  /** Length of the longest prefix of s whose characters all satisfy p. */
  function LeadingRun(s: string, p: char -> bool): (n: nat)
    ensures n <= |s|
    ensures forall k :: 0 <= k < n ==> p(s[k])
    ensures n < |s| ==> !p(s[n])
  {
    if s == [] || !p(s[0]) then 0 else 1 + LeadingRun(s[1..], p)
  }

  /** Length of the longest suffix of s whose characters all satisfy p. */
  function TrailingRun(s: string, p: char -> bool): (n: nat)
    ensures n <= |s|
    ensures forall k :: |s| - n <= k < |s| ==> p(s[k])
    ensures n < |s| ==> !p(s[|s| - n - 1])
  {
    if s == [] || !p(s[|s| - 1]) then 0 else 1 + TrailingRun(s[..|s| - 1], p)
  }

  /** str.lstrip() */
  function StripStart(s: string): (r: string)
    ensures |r| <= |s| && r == s[|s| - |r|..]
    ensures AllSpace(s[..|s| - |r|])
    ensures r != [] ==> !IsSpace(r[0])
  {
    s[LeadingRun(s, IsSpace)..]
  }

  /** str.strip() */
  function Strip(s: string): (r: string)
    ensures NoOuterSpace(r)
  {
    var t := StripStart(s);
    t[..|t| - TrailingRun(t, IsSpace)]
  }

  /**
   * str.strip() removes white space only, and only at the ends: the stripped
   * string is a slice of s with nothing but white space on either side of it.
   */
  lemma StripRemovesOuterSpace(s: string)
    ensures var r := Strip(s);
      var lo := |s| - |StripStart(s)|;
      && lo + |r| <= |s|
      && r == s[lo..lo + |r|]
      && AllSpace(s[..lo])
      && AllSpace(s[lo + |r|..])
  {
    var t := StripStart(s);
    var r := Strip(s);
    var lo := |s| - |t|;
    assert s[lo..] == t;
    assert s[lo..lo + |r|] == t[..|r|];
    assert s[lo + |r|..] == t[|r|..];
  }

  /**
   * str.split()[0]: the first maximal run of non-space characters, or None
   * where Python's split() returns an empty list.
   */
  function FirstToken(s: string): (r: Option<string>)
    ensures r.None? <==> AllSpace(s)
    ensures r.Some? ==>
      var t := StripStart(s);
      && r.value != []
      && (forall k :: 0 <= k < |r.value| ==> !IsSpace(r.value[k]))
      && |r.value| <= |t|
      && r.value == t[..|r.value|]
      && (|r.value| == |t| || IsSpace(t[|r.value|]))
  {
    var t := StripStart(s);
    if t == [] then None else Some(t[..LeadingRun(t, IsNotSpace)])
  }

  /**
   * Tag.get_text(strip=True) for an element whose descendant text nodes are
   * `strings`: each node is stripped and the results are joined with no separator.
   */
  function GetText(strings: seq<string>): (r: string)
    ensures NoOuterSpace(r)
  {
    if strings == [] then ""
    else
      var init, last := GetText(strings[..|strings| - 1]), Strip(strings[|strings| - 1]);
      JoinNoOuterSpace(init, last);
      init + last
  }

  lemma JoinNoOuterSpace(a: string, b: string)
    requires NoOuterSpace(a) && NoOuterSpace(b)
    ensures NoOuterSpace(a + b)
  {
    if a != [] && b != [] {
      assert (a + b)[0] == a[0];
      assert (a + b)[|a + b| - 1] == b[|b| - 1];
    } else if a == [] {
      assert a + b == b;
    } else {
      assert a + b == a;
    }
  }

  function LowerChar(c: char): char {
    if 'A' <= c <= 'Z' then (c - 'A' + 'a') as char else c
  }

  function UpperChar(c: char): char {
    if 'a' <= c <= 'z' then (c - 'a' + 'A') as char else c
  }

  /** str.lower(), on ASCII letters. */
  function Lower(s: string): (r: string)
    ensures |r| == |s|
    ensures forall k :: 0 <= k < |s| ==> r[k] == LowerChar(s[k])
  {
    seq(|s|, k requires 0 <= k < |s| => LowerChar(s[k]))
  }

  /** str.upper(), on ASCII letters. */
  function Upper(s: string): (r: string)
    ensures |r| == |s|
    ensures forall k :: 0 <= k < |s| ==> r[k] == UpperChar(s[k])
  {
    seq(|s|, k requires 0 <= k < |s| => UpperChar(s[k]))
  }

  /** str.endswith() */
  predicate EndsWith(s: string, suffix: string) {
    |suffix| <= |s| && s[|s| - |suffix|..] == suffix
  }

  /** Lower-casing forgets the case: it gives the same string for s and for s upper-cased. */
  lemma LowerOfUpper(s: string)
    ensures Lower(Upper(s)) == Lower(s)
  {
    assert forall k :: 0 <= k < |s| ==> LowerChar(UpperChar(s[k])) == LowerChar(s[k]);
  }

  lemma LowerConcat(a: string, b: string)
    ensures Lower(a + b) == Lower(a) + Lower(b)
  {
  }

  /** Stripping twice strips nothing more. */
  lemma {:induction false} StripIdempotent(s: string)
    ensures Strip(Strip(s)) == Strip(s)
  {
    var r := Strip(s);
    if r != [] {
      assert LeadingRun(r, IsSpace) == 0;
      assert StripStart(r) == r;
      assert TrailingRun(r, IsSpace) == 0;
    }
  }
}
