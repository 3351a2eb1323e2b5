/** The file-name side of the Trello exporter: the slug made from a card name
    and the name of the Markdown file written for each comment. */
module Slug {
  import opened PyStr

  /** The characters the slug keeps as they are: `[a-z0-9]`. */
  predicate IsSlugAlnum(c: char) {
    'a' <= c <= 'z' || '0' <= c <= '9'
  }

  /** The slug alphabet: `[a-z0-9]` and the dash. */
  predicate IsSlugChar(c: char) {
    IsSlugAlnum(c) || c == '-'
  }

  predicate AllSlugChars(s: string) {
    forall k :: 0 <= k < |s| ==> IsSlugChar(s[k])
  }

  predicate NoDoubleDash(s: string) {
    forall k :: 0 <= k < |s| - 1 ==> !(s[k] == '-' && s[k + 1] == '-')
  }

  /** The shape every slug has: non-empty, in the slug alphabet, no dash at
      either end and no two dashes in a row. */
  predicate IsSlug(s: string) {
    s != [] && AllSlugChars(s) && NoDoubleDash(s) && s[0] != '-' && s[|s| - 1] != '-'
  }

  /** The `[a-z0-9]` characters of `s`, in order. */
  function Alnums(s: string): (r: string)
    ensures |r| <= |s|
  {
    if s == [] then []
    else (if IsSlugAlnum(s[0]) then [s[0]] else []) + Alnums(s[1..])
  }

  /** `s` without its leading run of characters outside `[a-z0-9]`. */
  function DropNonAlnum(s: string): (r: string)
    ensures |r| <= |s|
    ensures r == [] || IsSlugAlnum(r[0])
  {
    if s == [] || IsSlugAlnum(s[0]) then s else DropNonAlnum(s[1..])
  }

  /** What `DropNonAlnum` keeps is a suffix of `s`, and everything it drops is
      outside `[a-z0-9]`. */
  lemma {:induction false} DropNonAlnumSuffix(s: string)
    ensures var r := DropNonAlnum(s);
            && r == s[|s| - |r|..]
            && (forall k :: 0 <= k < |s| - |r| ==> !IsSlugAlnum(s[k]))
    decreases |s|
  {
    if s != [] && !IsSlugAlnum(s[0]) {
      DropNonAlnumSuffix(s[1..]);
      var r := DropNonAlnum(s);
      assert s[1..][|s| - 1 - |r|..] == s[|s| - |r|..];
    }
  }

  /** `re.sub(r"[^a-z0-9]+", "-", s)`: every maximal run of characters
      outside `[a-z0-9]` becomes one dash. */
  function CollapseRuns(s: string): (r: string)
    ensures |r| <= |s|
    ensures r == [] <==> s == []
    decreases |s|
  {
    if s == [] then []
    else if IsSlugAlnum(s[0]) then [s[0]] + CollapseRuns(s[1..])
    else "-" + CollapseRuns(DropNonAlnum(s[1..]))
  }

  /** `slugify`: lower-case, collapse runs outside `[a-z0-9]` to one dash,
      strip dashes from both ends, and fall back to `"card"` when nothing is
      left. The result always has the slug shape, and its `[a-z0-9]`
      characters are exactly those of the lower-cased input unless that input
      has none, in which case the result is `"card"`. */
  function Slugify(value: string): (slug: string)
    ensures IsSlug(slug)
    ensures slug == "card" <== Alnums(Lower(value)) == []
    ensures Alnums(Lower(value)) != [] ==> Alnums(slug) == Alnums(Lower(value))
  {
    var collapsed := CollapseRuns(Lower(value));
    var stripped := Trim(collapsed, {'-'});
    CollapseShape(Lower(value));
    DashTrimShape(collapsed);
    if stripped == [] then FallbackIsSlug(); "card" else stripped
  }

  lemma FallbackIsSlug()
    ensures IsSlug("card")
  {
  }

  // ----- the slug as words joined by dashes -----

  predicate AllAlnum(w: string) {
    forall k :: 0 <= k < |w| ==> IsSlugAlnum(w[k])
  }

  /** The longest prefix of `s` made of `[a-z0-9]` characters. */
  function TakeAlnum(s: string): (w: string)
    ensures |w| <= |s| && w == s[..|w|] && AllAlnum(w)
    ensures |w| < |s| ==> !IsSlugAlnum(s[|w|])
    ensures s != [] && IsSlugAlnum(s[0]) ==> w != []
  {
    if s == [] || !IsSlugAlnum(s[0]) then [] else [s[0]] + TakeAlnum(s[1..])
  }

  /** The maximal runs of `[a-z0-9]` characters in `s`, in order. */
  function Words(s: string): (ws: seq<string>)
    ensures forall i :: 0 <= i < |ws| ==> ws[i] != [] && AllAlnum(ws[i])
    decreases |s|
  {
    var t := DropNonAlnum(s);
    if t == [] then []
    else
      var w := TakeAlnum(t);
      var rest := Words(t[|w|..]);
      assert forall i :: 0 < i <= |rest| ==> ([w] + rest)[i] == rest[i - 1];
      [w] + rest
  }

  /** `s` ends with a character outside `[a-z0-9]`. */
  predicate EndsNonAlnum(s: string) {
    s != [] && !IsSlugAlnum(s[|s| - 1])
  }

  /** A leading stretch of `[a-z0-9]` characters passes through the
      substitution unchanged. */
  lemma {:induction false} CollapseAlnumPrefix(w: string, u: string)
    requires AllAlnum(w)
    ensures CollapseRuns(w + u) == w + CollapseRuns(u)
  {
    if w != [] {
      assert (w + u)[1..] == w[1..] + u;
      CollapseAlnumPrefix(w[1..], u);
      assert w == [w[0]] + w[1..];
    } else {
      assert w + u == u;
    }
  }

  /** Skipping a leading stretch outside `[a-z0-9]` does not change the words. */
  lemma WordsAfterDrop(s: string)
    ensures Words(DropNonAlnum(s)) == Words(s)
  {
    var t := DropNonAlnum(s);
    assert DropNonAlnum(t) == t;
  }

  /** A string that starts with an `[a-z0-9]` character begins with its
      first word; the remaining words are those after it. */
  lemma WordsFromWordStart(t: string)
    requires t != [] && IsSlugAlnum(t[0])
    ensures var w := TakeAlnum(t);
            Words(t) == [w] + Words(t[|w|..])
  {
    assert DropNonAlnum(t) == t;
  }

  /** The rest after a word ends with the same character as the whole. */
  lemma SameLast(t: string, u: string)
    requires u != [] && |u| <= |t| && u == t[|t| - |u|..]
    ensures EndsNonAlnum(t) == EndsNonAlnum(u)
  {
    assert t[|t| - 1] == u[|u| - 1];
  }

  /** One step along a string that starts with a word followed by a gap:
      the substitution keeps the word `w` and turns the gap into one dash,
      and `w` is followed by the words of the rest `t2` after the gap. */
  lemma WordThenGap(t: string) returns (w: string, t2: string)
    requires t != [] && IsSlugAlnum(t[0]) && !AllAlnum(t)
    ensures CollapseRuns(t) == w + ("-" + CollapseRuns(t2))
    ensures Words(t) == [w] + Words(t2)
    ensures |t2| < |t| && (t2 == [] || IsSlugAlnum(t2[0]))
    ensures EndsNonAlnum(t) == (t2 == [] || EndsNonAlnum(t2))
  {
    w := TakeAlnum(t);
    var u := t[|w|..];
    t2 := DropNonAlnum(u[1..]);
    assert t == w + u;
    CollapseAlnumPrefix(w, u);
    WordsFromWordStart(t);
    assert DropNonAlnum(u) == t2;
    WordsAfterDrop(u);
    DropNonAlnumSuffix(u[1..]);
    if t2 == [] {
      assert !IsSlugAlnum(t[|t| - 1]);
    } else {
      assert t[|t| - 1] == t2[|t2| - 1];
    }
  }

  /** A string made only of `[a-z0-9]` characters is one word, which the
      substitution leaves unchanged. */
  lemma SingleWord(t: string)
    requires t != [] && AllAlnum(t)
    ensures CollapseRuns(t) == t && Words(t) == [t] && !EndsNonAlnum(t)
  {
    var w := TakeAlnum(t);
    assert w == t;
    WordsFromWordStart(t);
    assert t[|w|..] == [];
    CollapseAlnumPrefix(t, []);
    assert t + [] == t;
  }

  /** A string that starts with an `[a-z0-9]` character has a word. */
  lemma WordsOfWordStart(t: string)
    requires t == [] || IsSlugAlnum(t[0])
    ensures Words(t) == [] <==> t == []
  {
    if t != [] {
      WordsFromWordStart(t);
    }
  }

  /** The induction step of `CollapseFromWord`, over plain values: a word,
      one dash and the rest's joined words with their trailing dash make the
      whole's joined words with its trailing dash. */
  lemma GlueWord(c: string, ws: seq<string>, ends: bool,
                 w: string, c2: string, ws2: seq<string>, ends2: bool)
    requires c == w + ("-" + c2) && ws == [w] + ws2 && ends == (ws2 == [] || ends2)
    requires c2 == Join(ws2, "-") + (if ends2 then "-" else "")
    requires ws2 == [] ==> c2 == []
    ensures c == Join(ws, "-") + (if ends then "-" else "")
  {
    if ws2 == [] {
      assert Join(ws, "-") == w;
    } else {
      JoinCons(w, ws2, "-");
    }
  }

  /** From a string that starts with an `[a-z0-9]` character, the
      substitution yields its words joined by dashes, plus one dash when it
      ends outside `[a-z0-9]`. */
  lemma {:induction false} CollapseFromWord(t: string)
    requires t == [] || IsSlugAlnum(t[0])
    ensures CollapseRuns(t) == Join(Words(t), "-") + (if EndsNonAlnum(t) then "-" else "")
    decreases |t|
  {
    if t != [] {
      if AllAlnum(t) {
        SingleWord(t);
      } else {
        var w, t2 := WordThenGap(t);
        CollapseFromWord(t2);
        WordsOfWordStart(t2);
        GlueWord(CollapseRuns(t), Words(t), EndsNonAlnum(t), w, CollapseRuns(t2), Words(t2), EndsNonAlnum(t2));
      }
    }
  }

  /** A leading gap outside `[a-z0-9]` becomes one dash, followed by what
      the substitution makes of the rest `t` from its first word on. */
  lemma LeadingGap(s: string) returns (t: string)
    requires s != [] && !IsSlugAlnum(s[0])
    ensures CollapseRuns(s) == "-" + CollapseRuns(t)
    ensures Words(s) == Words(t)
    ensures t == [] || IsSlugAlnum(t[0])
    ensures t != [] ==> EndsNonAlnum(s) == EndsNonAlnum(t)
  {
    t := DropNonAlnum(s[1..]);
    assert DropNonAlnum(s) == t;
    WordsAfterDrop(s);
    DropNonAlnumSuffix(s[1..]);
    if t != [] {
      assert s[|s| - 1] == t[|t| - 1];
    }
  }

  /** The substitution yields the words of `s` joined by dashes, with one dash
      in front when `s` starts outside `[a-z0-9]`, and one behind when it
      ends outside `[a-z0-9]` after some word. */
  lemma CollapseAsWords(s: string)
    ensures CollapseRuns(s)
            == (if s != [] && !IsSlugAlnum(s[0]) then "-" else "")
               + Join(Words(s), "-")
               + (if EndsNonAlnum(s) && Words(s) != [] then "-" else "")
  {
    if s == [] {
      assert Words(s) == [];
    } else if IsSlugAlnum(s[0]) {
      CollapseFromWord(s);
      WordsOfWordStart(s);
    } else {
      var t := LeadingGap(s);
      CollapseFromWord(t);
      WordsOfWordStart(t);
    }
  }

  /** Dash-joined words neither start nor end with a dash, and are empty
      exactly when there are no words. */
  lemma JoinedWordsShape(ws: seq<string>)
    requires forall i :: 0 <= i < |ws| ==> ws[i] != [] && AllAlnum(ws[i])
    ensures var j := Join(ws, "-");
            && (j == [] <==> ws == [])
            && (j != [] ==> j[0] != '-' && j[|j| - 1] != '-')
  {
    var j := Join(ws, "-");
    JoinEnds(ws, "-");
    if ws != [] {
      var last := ws[|ws| - 1];
      assert j[0] == ws[0][0];
      assert j[|j| - 1] == j[|j| - |last|..][|last| - 1] == last[|last| - 1];
    }
  }

  /** `slugify` as the words of the lower-cased input joined by dashes, or
      `"card"` when it has none. */
  lemma SlugifyAsWords(value: string)
    ensures var ws := Words(Lower(value));
            Slugify(value) == if ws == [] then "card" else Join(ws, "-")
  {
    var low := Lower(value);
    var ws := Words(low);
    CollapseAsWords(low);
    JoinedWordsShape(ws);
    var lead := if low != [] && !IsSlugAlnum(low[0]) then "-" else "";
    var trail := if EndsNonAlnum(low) && ws != [] then "-" else "";
    TrimOfPadded(lead, Join(ws, "-"), trail, {'-'});
  }

  // ----- lemmas about the pieces -----

  lemma {:induction false} AlnumsAppend(a: string, b: string)
    ensures Alnums(a + b) == Alnums(a) + Alnums(b)
  {
    if a != [] {
      assert (a + b)[0] == a[0];
      assert (a + b)[1..] == a[1..] + b;
      AlnumsAppend(a[1..], b);
      assert Alnums(a + b) == (if IsSlugAlnum(a[0]) then [a[0]] else []) + Alnums(a[1..] + b);
    } else {
      assert a + b == b;
    }
  }

  /** A stretch with no `[a-z0-9]` character contributes nothing. */
  lemma {:induction false} AlnumsOfNone(s: string)
    requires forall k :: 0 <= k < |s| ==> !IsSlugAlnum(s[k])
    ensures Alnums(s) == []
  {
    if s != [] {
      AlnumsOfNone(s[1..]);
    }
  }

  lemma {:induction false} DropNonAlnumKeepsAlnums(s: string)
    ensures Alnums(DropNonAlnum(s)) == Alnums(s)
  {
    if s != [] && !IsSlugAlnum(s[0]) {
      DropNonAlnumKeepsAlnums(s[1..]);
    }
  }

  /** The substitution yields only slug characters, never two dashes in a
      row, and keeps the `[a-z0-9]` characters in order. */
  lemma {:induction false} CollapseShape(s: string)
    ensures var r := CollapseRuns(s);
            && AllSlugChars(r) && NoDoubleDash(r) && Alnums(r) == Alnums(s)
            && (r != [] && r[0] == '-' ==> |r| == 1 || IsSlugAlnum(r[1]))
    decreases |s|
  {
    if s == [] {
    } else if IsSlugAlnum(s[0]) {
      CollapseShape(s[1..]);
      AlnumsAppend([s[0]], CollapseRuns(s[1..]));
    } else {
      var rest := DropNonAlnum(s[1..]);
      CollapseShape(rest);
      DropNonAlnumKeepsAlnums(s[1..]);
      AlnumsAppend("-", CollapseRuns(rest));
      if rest != [] {
        assert CollapseRuns(rest)[0] == rest[0];
      }
    }
  }

  lemma {:induction false} AlnumsSkipFront(s: string, lo: nat)
    requires lo <= |s|
    requires forall k :: 0 <= k < lo ==> !IsSlugAlnum(s[k])
    ensures Alnums(s[lo..]) == Alnums(s)
  {
    if lo > 0 {
      AlnumsSkipFront(s[1..], lo - 1);
      assert s[1..][lo - 1..] == s[lo..];
    }
  }

  lemma AlnumsSkipBack(s: string, hi: nat)
    requires hi <= |s|
    requires forall k :: hi <= k < |s| ==> !IsSlugAlnum(s[k])
    ensures Alnums(s[..hi]) == Alnums(s)
  {
    var back := s[hi..];
    assert forall k :: 0 <= k < |back| ==> back[k] == s[hi + k];
    AlnumsOfNone(back);
    AlnumsAppend(s[..hi], back);
    assert s[..hi] + back == s;
  }

  /** Cutting off stretches with no `[a-z0-9]` character on either side
      keeps the `[a-z0-9]` characters. */
  lemma AlnumsOfSlice(s: string, lo: nat, hi: nat)
    requires lo <= hi <= |s|
    requires forall k :: 0 <= k < lo ==> !IsSlugAlnum(s[k])
    requires forall k :: hi <= k < |s| ==> !IsSlugAlnum(s[k])
    ensures Alnums(s[lo..hi]) == Alnums(s)
  {
    AlnumsSkipBack(s, hi);
    AlnumsSkipFront(s[..hi], lo);
    assert s[..hi][lo..] == s[lo..hi];
  }

  /** A slice of a string in the slug alphabet with no doubled dash is one too. */
  lemma SliceKeepsSlugChars(s: string, lo: nat, hi: nat)
    requires lo <= hi <= |s|
    requires AllSlugChars(s) && NoDoubleDash(s)
    ensures AllSlugChars(s[lo..hi]) && NoDoubleDash(s[lo..hi])
  {
    var r := s[lo..hi];
    assert forall k :: 0 <= k < |r| ==> r[k] == s[lo + k];
  }

  /** Stripping dashes from a string in the slug alphabet with no doubled
      dash keeps those properties, leaves no dash at either end, keeps the
      `[a-z0-9]` characters, and leaves nothing exactly when there were none. */
  lemma DashTrimShape(s: string)
    requires AllSlugChars(s) && NoDoubleDash(s)
    ensures var r := Trim(s, {'-'});
            && AllSlugChars(r) && NoDoubleDash(r)
            && Alnums(r) == Alnums(s)
            && (r != [] ==> r[0] != '-' && r[|r| - 1] != '-')
            && (r == [] <==> Alnums(s) == [])
  {
    var b := TrimBounds(s, {'-'});
    TrimMaximal(s, {'-'});
    var r := s[b.0..b.1];
    SliceKeepsSlugChars(s, b.0, b.1);
    AlnumsOfSlice(s, b.0, b.1);
    if r != [] {
      assert IsSlugAlnum(r[0]);
      assert Alnums(r) == [r[0]] + Alnums(r[1..]);
    }
  }

  // ----- the slug's fixed point -----

  lemma LowerOfSlug(s: string)
    requires AllSlugChars(s)
    ensures Lower(s) == s
  {
  }

  /** The substitution leaves a string in the slug alphabet with no doubled
      dash as it is. */
  lemma {:induction false} CollapseOfSlug(s: string)
    requires AllSlugChars(s) && NoDoubleDash(s)
    ensures CollapseRuns(s) == s
    decreases |s|
  {
    if s != [] {
      CollapseOfSlug(s[1..]);
      if !IsSlugAlnum(s[0]) {
        assert DropNonAlnum(s[1..]) == s[1..];
      }
    }
  }

  /** A slug is its own slug. */
  lemma SlugifyOfSlug(s: string)
    requires IsSlug(s)
    ensures Slugify(s) == s
  {
    LowerOfSlug(s);
    CollapseOfSlug(s);
    assert LeadingCount(s, {'-'}) == 0;
    assert s[0..] == s;
    assert TrailingCount(s, {'-'}) == 0;
    assert Trim(s, {'-'}) == s;
  }

  /** `slugify` is idempotent. */
  lemma SlugifyIdempotent(value: string)
    ensures Slugify(Slugify(value)) == Slugify(value)
  {
    SlugifyOfSlug(Slugify(value));
  }

  // ----- the note file name -----

  /** `date[:10]`. */
  function DatePart(date: string): (d: string)
    ensures |d| <= 10 && |d| <= |date| && d == date[..|d|]
    ensures |date| <= 10 ==> d == date
  {
    if |date| <= 10 then date else date[..10]
  }

  /** The file name written for one comment: the date part, the card's slug
      and the comment id, joined by `_`, with the `.md` extension. */
  function NoteFilename(date: string, cardName: string, commentId: string): (name: string)
    ensures |name| >= |DatePart(date)| + |commentId| + 6
    ensures name[..|DatePart(date)|] == DatePart(date)
    ensures name[|name| - 3..] == ".md"
  {
    JoinedShape(DatePart(date), Slugify(cardName), commentId);
    DatePart(date) + "_" + Slugify(cardName) + "_" + commentId + ".md"
  }

  lemma JoinedShape(d: string, slug: string, id: string)
    requires slug != []
    ensures var name := d + "_" + slug + "_" + id + ".md";
            && |name| >= |d| + |id| + 6
            && name[..|d|] == d
            && name[|name| - 3..] == ".md"
  {
    var stem := d + "_" + slug + "_" + id;
    assert (stem + ".md")[..|d|] == stem[..|d|];
  }

  /** Reads the date part, the slug and the comment id back from a file name
      ending in `.md`: the text before the first `_`, the text between the
      first two, and the rest up to the extension. Whatever it returns
      rebuilds the name. */
  function SplitFilename(name: string): (r: Option<(string, string, string)>)
    ensures r.Some? ==> name == r.value.0 + "_" + r.value.1 + "_" + r.value.2 + ".md"
  {
    if |name| < 3 || name[|name| - 3..] != ".md" then None
    else
      var stem := name[..|name| - 3];
      match Find(stem, "_", 0)
      case None => None
      case Some(i) =>
        match Find(stem, "_", i + 1)
        case None => None
        case Some(j) =>
          assert stem[i] == stem[i..i + 1][0] && stem[j] == stem[j..j + 1][0];
          assert stem == stem[..i] + "_" + stem[i + 1..j] + "_" + stem[j + 1..];
          Some((stem[..i], stem[i + 1..j], stem[j + 1..]))
  }

  /** The first `_` at or after `from` in `s`, when the stretch before it
      holds none. */
  lemma FindUnderscore(s: string, from: nat, i: nat)
    requires from <= i < |s| && s[i] == '_'
    requires forall k :: from <= k < i ==> s[k] != '_'
    ensures Find(s, "_", from) == Some(i)
  {
    OccursAtChar(s, '_', i);
    forall k | from <= k < i
      ensures !OccursAt(s, "_", k)
    {
      OccursAtChar(s, '_', k);
    }
  }

  /** Two underscore-free fields and a third field, joined by `_` and given
      the `.md` extension, split back into the three fields. */
  lemma SplitJoined(d: string, slug: string, id: string)
    requires forall k :: 0 <= k < |d| ==> d[k] != '_'
    requires forall k :: 0 <= k < |slug| ==> slug[k] != '_'
    ensures SplitFilename(d + "_" + slug + "_" + id + ".md") == Some((d, slug, id))
  {
    var stem := d + "_" + slug + "_" + id;
    var name := stem + ".md";
    assert name[|name| - 3..] == ".md";
    assert name[..|name| - 3] == stem;
    var i := |d|;
    var j := |d| + 1 + |slug|;
    forall k | 0 <= k < i
      ensures stem[k] != '_'
    {
      assert stem[k] == d[k];
    }
    FindUnderscore(stem, 0, i);
    forall k | i + 1 <= k < j
      ensures stem[k] != '_'
    {
      assert stem[k] == slug[k - i - 1];
    }
    FindUnderscore(stem, i + 1, j);
    assert stem[..i] == d;
    assert stem[i + 1..j] == slug;
    assert stem[j + 1..] == id;
  }

  /** The file name determines the date part, the slug and the comment id
      whenever the date part holds no `_`: the slug never does, so the first
      two underscores are the separators. */
  lemma FilenameRoundTrip(date: string, cardName: string, commentId: string)
    requires forall k :: 0 <= k < |DatePart(date)| ==> DatePart(date)[k] != '_'
    ensures SplitFilename(NoteFilename(date, cardName, commentId))
            == Some((DatePart(date), Slugify(cardName), commentId))
  {
    var slug := Slugify(cardName);
    assert forall k :: 0 <= k < |slug| ==> IsSlugChar(slug[k]);
    SplitJoined(DatePart(date), slug, commentId);
  }
}
