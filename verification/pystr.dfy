/** The handful of Python `str` operations the note tools rely on, over
    `string` (a sequence of Unicode scalar values). */
module PyStr {

  datatype Option<T> = None | Some(value: T)

  /** `pat` occurs in `text` starting at offset `i`. */
  predicate OccursAt(text: string, pat: string, i: nat) {
    i + |pat| <= |text| && text[i..i + |pat|] == pat
  }

  /** `text.find(pat, from)`: the lowest offset at or after `from` where `pat`
      occurs, or `None` where Python returns -1. */
  function Find(text: string, pat: string, from: nat): (r: Option<nat>)
    ensures r.Some? ==> from <= r.value && OccursAt(text, pat, r.value)
    ensures r.Some? ==> forall j :: from <= j < r.value ==> !OccursAt(text, pat, j)
    ensures r.None? ==> forall j :: from <= j ==> !OccursAt(text, pat, j)
    decreases |text| - from
  {
    if from + |pat| > |text| then None
    else if OccursAt(text, pat, from) then Some(from)
    else Find(text, pat, from + 1)
  }

  /** `pat in text`. */
  predicate Contains(text: string, pat: string) {
    Find(text, pat, 0).Some?
  }

  lemma ContainsIff(text: string, pat: string)
    ensures Contains(text, pat) <==> exists i :: OccursAt(text, pat, i)
  {
    if !Contains(text, pat) {
      assert forall j :: 0 <= j ==> !OccursAt(text, pat, j);
    }
  }

  /** An occurrence of a one-character pattern is that character. */
  lemma OccursAtChar(text: string, c: char, i: nat)
    ensures OccursAt(text, [c], i) <==> i < |text| && text[i] == c
  {
    if i < |text| {
      assert text[i..i + 1] == [text[i]];
    }
  }

  /** An occurrence of `pat` at `i` puts each character of `pat` in place. */
  lemma OccursAtIndex(text: string, pat: string, i: nat, k: nat)
    requires OccursAt(text, pat, i) && k < |pat|
    ensures i + k < |text| && text[i + k] == pat[k]
  {
    assert text[i..i + |pat|][k] == pat[k];
  }

  /** An occurrence inside a slice is an occurrence in the whole text. */
  lemma OccursInSlice(text: string, pat: string, lo: nat, hi: nat, i: nat)
    requires lo <= hi <= |text|
    ensures OccursAt(text[lo..hi], pat, i) ==> OccursAt(text, pat, lo + i)
  {
    if OccursAt(text[lo..hi], pat, i) {
      forall k | 0 <= k < |pat|
        ensures text[lo + i..lo + i + |pat|][k] == pat[k]
      {
        assert text[lo..hi][i..i + |pat|][k] == pat[k];
      }
    }
  }

  /** Exactly the characters for which Python's `str.isspace()` holds, which
      `str.strip()` with no argument removes. */
  const Whitespace: set<char> := {
    ' ', '\t', '\n', '\U{B}', '\U{C}', '\r',
    '\U{1C}', '\U{1D}', '\U{1E}', '\U{1F}', '\U{85}', '\U{A0}', '\U{1680}',
    '\U{2000}', '\U{2001}', '\U{2002}', '\U{2003}', '\U{2004}', '\U{2005}',
    '\U{2006}', '\U{2007}', '\U{2008}', '\U{2009}', '\U{200A}',
    '\U{2028}', '\U{2029}', '\U{202F}', '\U{205F}', '\U{3000}'
  }

  /** Number of leading characters of `s` that are in `chars`. */
  function LeadingCount(s: string, chars: set<char>): (n: nat)
    ensures n <= |s|
  {
    if s == [] || s[0] !in chars then 0 else 1 + LeadingCount(s[1..], chars)
  }

  /** Number of trailing characters of `s` that are in `chars`. */
  function TrailingCount(s: string, chars: set<char>): (n: nat)
    ensures n <= |s|
  {
    if s == [] || s[|s| - 1] !in chars then 0 else 1 + TrailingCount(s[..|s| - 1], chars)
  }

  /** The leading run counted is maximal: all of it is in `chars`, and the
      character after it is not. */
  lemma {:induction false} LeadingCountMaximal(s: string, chars: set<char>)
    ensures var n := LeadingCount(s, chars);
            && (forall k :: 0 <= k < n ==> s[k] in chars)
            && (n < |s| ==> s[n] !in chars)
  {
    if s != [] && s[0] in chars {
      LeadingCountMaximal(s[1..], chars);
    }
  }

  /** The trailing run counted is maximal: all of it is in `chars`, and the
      character before it is not. */
  lemma {:induction false} TrailingCountMaximal(s: string, chars: set<char>)
    ensures var n := TrailingCount(s, chars);
            && (forall k :: |s| - n <= k < |s| ==> s[k] in chars)
            && (n < |s| ==> s[|s| - n - 1] !in chars)
  {
    if s != [] && s[|s| - 1] in chars {
      TrailingCountMaximal(s[..|s| - 1], chars);
    }
  }

  /** `s.lstrip(chars)`: `s` without its longest prefix of characters in `chars`. */
  function TrimLeft(s: string, chars: set<char>): (r: string)
    ensures |r| <= |s| && r == s[|s| - |r|..]
  {
    s[LeadingCount(s, chars)..]
  }

  /** What `s.lstrip(chars)` removed is all in `chars`, and what it kept does
      not start with a character of `chars`. */
  lemma TrimLeftMaximal(s: string, chars: set<char>)
    ensures var r := TrimLeft(s, chars);
            && (forall k :: 0 <= k < |s| - |r| ==> s[k] in chars)
            && (r != [] ==> r[0] !in chars)
  {
    LeadingCountMaximal(s, chars);
  }

  /** The slice `[lo, hi)` of `s` that `s.strip(chars)` keeps. */
  function TrimBounds(s: string, chars: set<char>): (b: (nat, nat))
    ensures b.0 <= b.1 <= |s|
  {
    var lo := LeadingCount(s, chars);
    (lo, |s| - TrailingCount(s[lo..], chars))
  }

  /** `s.strip(chars)`. */
  function Trim(s: string, chars: set<char>): (r: string)
    ensures |r| <= |s|
  {
    var b := TrimBounds(s, chars);
    s[b.0..b.1]
  }

  /** `s.strip(chars)` keeps one slice of `s`: everything cut off on either
      side is in `chars`, and the kept slice neither starts nor ends with a
      character of `chars`. */
  lemma TrimMaximal(s: string, chars: set<char>)
    ensures var b := TrimBounds(s, chars);
            && Trim(s, chars) == s[b.0..b.1]
            && (forall k :: 0 <= k < b.0 ==> s[k] in chars)
            && (forall k :: b.1 <= k < |s| ==> s[k] in chars)
            && (b.0 < b.1 ==> s[b.0] !in chars && s[b.1 - 1] !in chars)
  {
    var lo := LeadingCount(s, chars);
    var tail := s[lo..];
    var hi := |s| - TrailingCount(tail, chars);
    LeadingCountMaximal(s, chars);
    TrailingCountMaximal(tail, chars);
    forall k | hi <= k < |s|
      ensures s[k] in chars
    {
      assert s[k] == tail[k - lo];
    }
    if lo < hi {
      assert s[hi - 1] == tail[hi - 1 - lo];
    }
  }

  /** `s.strip(chars)` returns exactly `mid` when `mid` is padded on either
      side by characters of `chars` and neither starts nor ends with one. */
  lemma TrimOfPadded(lead: string, mid: string, trail: string, chars: set<char>)
    requires forall k :: 0 <= k < |lead| ==> lead[k] in chars
    requires forall k :: 0 <= k < |trail| ==> trail[k] in chars
    requires mid != [] ==> mid[0] !in chars && mid[|mid| - 1] !in chars
    ensures Trim(lead + mid + trail, chars) == mid
  {
    var s := lead + mid + trail;
    var b := TrimBounds(s, chars);
    TrimMaximal(s, chars);
    assert forall k :: 0 <= k < |lead| ==> s[k] == lead[k];
    assert forall k :: |lead| + |mid| <= k < |s| ==> s[k] == trail[k - |lead| - |mid|];
    if mid == [] {
      assert forall k :: 0 <= k < |s| ==> s[k] in chars;
      assert b.0 == b.1;
    } else {
      assert s[|lead|] == mid[0];
      assert s[|lead| + |mid| - 1] == mid[|mid| - 1];
      assert b.0 == |lead|;
      assert b.1 == |lead| + |mid|;
      assert s[b.0..b.1] == mid;
    }
  }

  /** `s.strip()` with no argument. */
  function Strip(s: string): string {
    Trim(s, Whitespace)
  }

  /** `s.strip()` keeps one slice of `s`: only whitespace is cut on either
      side, and what is kept neither starts nor ends with whitespace. */
  lemma StripShape(s: string)
    ensures var b := TrimBounds(s, Whitespace);
            var r := Strip(s);
            && r == s[b.0..b.1]
            && (forall k :: 0 <= k < b.0 ==> s[k] in Whitespace)
            && (forall k :: b.1 <= k < |s| ==> s[k] in Whitespace)
            && (r != [] ==> r[0] !in Whitespace && r[|r| - 1] !in Whitespace)
  {
    TrimMaximal(s, Whitespace);
  }

  /** `sep.join(parts)`. */
  function Join(parts: seq<string>, sep: string): string {
    if parts == [] then ""
    else if |parts| == 1 then parts[0]
    else parts[0] + sep + Join(parts[1..], sep)
  }

  /** `sep.join(parts)` is empty for no parts, and otherwise starts with the
      first part and ends with the last. */
  lemma {:induction false} JoinEnds(parts: seq<string>, sep: string)
    ensures parts == [] ==> Join(parts, sep) == []
    ensures parts != [] ==> var r := Join(parts, sep);
              && |parts[0]| <= |r| && r[..|parts[0]|] == parts[0]
              && |parts[|parts| - 1]| <= |r| && r[|r| - |parts[|parts| - 1]|..] == parts[|parts| - 1]
  {
    if |parts| > 1 {
      JoinEnds(parts[1..], sep);
      var rest := Join(parts[1..], sep);
      assert parts[1..][|parts[1..]| - 1] == parts[|parts| - 1];
      assert (parts[0] + sep + rest)[..|parts[0]|] == parts[0];
    }
  }

  /** Joining a part in front of non-empty parts puts the separator between. */
  lemma JoinCons(w: string, ws: seq<string>, sep: string)
    requires ws != []
    ensures Join([w] + ws, sep) == w + sep + Join(ws, sep)
  {
    assert ([w] + ws)[1..] == ws;
  }

  /** Stripping whitespace keeps every occurrence of a pattern whose first and
      last characters are not whitespace. */
  lemma StripKeepsOccurrence(s: string, pat: string, i: nat)
    requires pat != [] && pat[0] !in Whitespace && pat[|pat| - 1] !in Whitespace
    requires OccursAt(s, pat, i)
    ensures TrimBounds(s, Whitespace).0 <= i
    ensures OccursAt(Strip(s), pat, i - TrimBounds(s, Whitespace).0)
  {
    var b := TrimBounds(s, Whitespace);
    TrimMaximal(s, Whitespace);
    assert s[i] == pat[0];
    assert s[i + |pat| - 1] == pat[|pat| - 1];
    assert b.0 <= i;
    assert i + |pat| <= b.1;
    assert Strip(s)[i - b.0..i - b.0 + |pat|] == s[i..i + |pat|];
  }

  predicate IsAsciiUpper(c: char) { 'A' <= c <= 'Z' }

  function LowerChar(c: char): char {
    if IsAsciiUpper(c) then (c as int + 32) as char else c
  }

  /** `s.lower()` restricted to ASCII: `A`-`Z` become `a`-`z`, every other
      character is kept. */
  function Lower(s: string): (r: string)
    ensures |r| == |s|
    ensures forall k :: 0 <= k < |s| ==> !IsAsciiUpper(r[k])
    ensures forall k :: 0 <= k < |s| && !IsAsciiUpper(s[k]) ==> r[k] == s[k]
    ensures forall k :: 0 <= k < |s| && IsAsciiUpper(s[k]) ==> r[k] as int == s[k] as int + 32
  {
    seq(|s|, k requires 0 <= k < |s| => LowerChar(s[k]))
  }
}
