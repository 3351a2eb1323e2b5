/** The section scanner and accessor of the note enhancer. A note is an
    immutable text. A section starts at each occurrence of the prefix
    "## SECTION " that does not begin inside an earlier section's heading
    line. Its heading runs to the end of that line, and the section runs to
    the next occurrence found after the heading line, or to the end of the
    text. */
module NoteSections {
  import opened PyStr

  const SectionIntro: string := "## SECTION 1: INTRODUCTION/OVERVIEW"
  const SectionConcepts: string := "## SECTION 2: KEY CONCEPTS/DEFINITIONS"
  const SectionEvidence: string := "## SECTION 3: EVIDENCE/SUPPORTING DETAILS"
  const HeadingPrefix: string := "## SECTION "

  /** A heading found at offset `start`; the section spans `[start, end)`. */
  datatype Section = Section(heading: string, start: nat, end: nat) {
    /** The offset just past the heading text. */
    function BodyStart(): nat { start + |heading| }
  }

  /** The failures the note tools raise. `SectionNotFound` is the
      `NoteStructureError` of a missing heading; `MissingHeadings` is the
      `RuntimeError` for a replacement that lacks target headings. */
  datatype NoteError =
    | SectionNotFound(heading: string)
    | MissingHeadings(headings: seq<string>)

  datatype Result<T> = Ok(value: T) | Err(error: NoteError)

  /** The text of the error the source raises. A missing section's message
      quotes its heading at a fixed offset, so the heading can be read back. */
  function Message(e: NoteError): (m: string)
    ensures e.SectionNotFound? ==> |m| == |e.heading| + 34 && m[22..22 + |e.heading|] == e.heading
    ensures e.MissingHeadings? ==> |m| >= 40 && m[..40] == "LLM response missing required headings: "
  {
    match e
    case SectionNotFound(h) => "Section with heading '" + h + "' not found."
    case MissingHeadings(hs) => "LLM response missing required headings: " + Join(hs, ", ")
  }

  lemma PrefixHasNoNewline()
    ensures |HeadingPrefix| == 11
    ensures forall k :: 0 <= k < |HeadingPrefix| ==> HeadingPrefix[k] != '\n'
  {
  }

  /** The first `|HeadingPrefix|` characters at a heading hold no newline. */
  lemma HeadingStartHasNoNewline(text: string, start: nat)
    requires OccursAt(text, HeadingPrefix, start)
    ensures forall k :: start <= k < start + |HeadingPrefix| ==> text[k] != '\n'
  {
    PrefixHasNoNewline();
    forall k | start <= k < start + |HeadingPrefix|
      ensures text[k] != '\n'
    {
      OccursAtIndex(text, HeadingPrefix, start, k - start);
    }
  }

  /** `text.find("\n", start)`, with the end of the text standing for -1. */
  function LineEnd(text: string, start: nat): (e: nat)
    requires start <= |text|
    ensures start <= e <= |text|
  {
    var nl := Find(text, "\n", start);
    if nl.None? then |text| else nl.value
  }

  /** The line end is the first newline at or after `start`, or the end of
      the text when there is none. */
  lemma LineEndIsFirstNewline(text: string, start: nat)
    requires start <= |text|
    ensures var e := LineEnd(text, start);
            && (e < |text| ==> text[e] == '\n')
            && (forall k :: start <= k < e ==> text[k] != '\n')
  {
    var e := LineEnd(text, start);
    OccursAtChar(text, '\n', e);
    forall k | start <= k < e
      ensures text[k] != '\n'
    {
      OccursAtChar(text, '\n', k);
    }
  }

  /** `text.find(HeadingPrefix, from)`, with the end of the text standing
      for -1. */
  function NextStart(text: string, from: nat): (n: nat)
    requires from <= |text|
    ensures from <= n <= |text|
  {
    var f := Find(text, HeadingPrefix, from);
    if f.None? then |text| else f.value
  }

  /** The next start is the first heading at or after `from`. */
  lemma NextStartIsFirstHeading(text: string, from: nat)
    requires from <= |text|
    ensures var n := NextStart(text, from);
            && (n < |text| ==> OccursAt(text, HeadingPrefix, n))
            && (forall p :: from <= p < n ==> !OccursAt(text, HeadingPrefix, p))
            && (n == |text| ==> forall p :: from <= p ==> !OccursAt(text, HeadingPrefix, p))
  {
  }

  /** The section whose heading starts at `start`: the heading runs to the end
      of its line, and the section ends at the next heading found from the end
      of that line. */
  function SectionAt(text: string, start: nat): (s: Section)
    requires OccursAt(text, HeadingPrefix, start)
    ensures s.start == start
    ensures start + |HeadingPrefix| <= s.BodyStart() <= s.end <= |text|
  {
    HeadingStartHasNoNewline(text, start);
    LineEndIsFirstNewline(text, start);
    var lineEnd := LineEnd(text, start);
    Section(text[start..lineEnd], start, NextStart(text, lineEnd))
  }

  /** The heading is the text from the heading start to the end of its line:
      it begins with the prefix and holds no newline. No heading starts
      between the end of the heading line and the end of the section, and the
      section ends at a heading or at the end of the text. */
  lemma SectionAtShape(text: string, start: nat)
    requires OccursAt(text, HeadingPrefix, start)
    ensures var s := SectionAt(text, start);
            && s.heading == text[start..s.BodyStart()]
            && s.heading[..|HeadingPrefix|] == HeadingPrefix
            && (forall k :: 0 <= k < |s.heading| ==> s.heading[k] != '\n')
            && (s.BodyStart() < |text| ==> text[s.BodyStart()] == '\n')
            && (s.end < |text| ==> OccursAt(text, HeadingPrefix, s.end))
            && (forall p :: s.BodyStart() <= p < s.end ==> !OccursAt(text, HeadingPrefix, p))
  {
    var s := SectionAt(text, start);
    LineEndIsFirstNewline(text, start);
    NextStartIsFirstHeading(text, s.BodyStart());
    assert s.heading[..|HeadingPrefix|] == text[start..start + |HeadingPrefix|];
  }

  /** The sections that `iter_sections` yields once its search offset is
      `from`. */
  function SectionsFrom(text: string, from: nat): (secs: seq<Section>)
    requires from <= |text|
    ensures secs == [] <==> Find(text, HeadingPrefix, from).None?
    decreases |text| - from
  {
    match Find(text, HeadingPrefix, from)
    case None => []
    case Some(start) =>
      var s := SectionAt(text, start);
      [s] + SectionsFrom(text, s.end)
  }

  /** Every section `iter_sections(text)` yields, in order. */
  function Sections(text: string): (secs: seq<Section>)
    ensures secs == [] <==> !Contains(text, HeadingPrefix)
  {
    SectionsFrom(text, 0)
  }

  /** `s` is the section of the heading found at its own start. */
  predicate WellFormed(text: string, s: Section) {
    OccursAt(text, HeadingPrefix, s.start) && s == SectionAt(text, s.start)
  }

  /** The sections lie inside the text and tile it from the first heading on:
      each ends where the next begins, and the last ends with the text. */
  predicate Tiling(text: string, secs: seq<Section>) {
    && (forall i :: 0 <= i < |secs| ==> secs[i].start < secs[i].BodyStart() <= secs[i].end <= |text|)
    && (forall i :: 0 < i < |secs| ==> secs[i - 1].end == secs[i].start)
    && (|secs| > 0 ==> secs[|secs| - 1].end == |text|)
  }

  predicate AllWellFormed(text: string, secs: seq<Section>) {
    forall i {:trigger WellFormed(text, secs[i])} :: 0 <= i < |secs| ==> WellFormed(text, secs[i])
  }

  /** A section that ends where a tiling begins (or, before an empty one,
      at the end of the text) extends the tiling at the front. */
  lemma ConsTiling(text: string, s: Section, rest: seq<Section>)
    requires Tiling(text, rest)
    requires s.start < s.BodyStart() <= s.end <= |text|
    requires rest != [] ==> rest[0].start == s.end
    requires rest == [] ==> s.end == |text|
    ensures Tiling(text, [s] + rest)
  {
    var secs := [s] + rest;
    forall i | 0 < i < |secs|
      ensures secs[i] == rest[i - 1]
    {
    }
  }

  lemma {:induction false} SectionsFromTile(text: string, from: nat)
    requires from <= |text|
    ensures var secs := SectionsFrom(text, from);
            && Tiling(text, secs)
            && (forall i :: 0 <= i < |secs| ==> from <= secs[i].start)
            && (secs == [] <==> Find(text, HeadingPrefix, from).None?)
            && (secs != [] ==> secs[0].start == Find(text, HeadingPrefix, from).value)
    decreases |text| - from
  {
    match Find(text, HeadingPrefix, from)
    case None =>
    case Some(start) =>
      var s := SectionAt(text, start);
      SectionsFromTile(text, s.end);
      var rest := SectionsFrom(text, s.end);
      if rest == [] {
        SectionAtShape(text, start);
      }
      ConsTiling(text, s, rest);
      assert [s] + rest == SectionsFrom(text, from);
  }

  lemma {:induction false} SectionsFromWellFormed(text: string, from: nat)
    requires from <= |text|
    ensures AllWellFormed(text, SectionsFrom(text, from))
    decreases |text| - from
  {
    match Find(text, HeadingPrefix, from)
    case None =>
    case Some(start) =>
      var s := SectionAt(text, start);
      SectionsFromWellFormed(text, s.end);
      var rest := SectionsFrom(text, s.end);
      var secs := [s] + rest;
      assert secs == SectionsFrom(text, from);
      forall i | 0 <= i < |secs|
        ensures WellFormed(text, secs[i])
      {
        if i > 0 {
          assert secs[i] == rest[i - 1];
          assert WellFormed(text, rest[i - 1]);
        }
      }
  }

  /** Sections tile the text and each is the section of its own heading; the
      first starts at the first heading, and a text with no heading has no
      sections. */
  lemma SectionsTile(text: string)
    ensures Tiling(text, Sections(text))
    ensures AllWellFormed(text, Sections(text))
    ensures Sections(text) == [] <==> !Contains(text, HeadingPrefix)
    ensures Sections(text) != [] ==> Sections(text)[0].start == Find(text, HeadingPrefix, 0).value
  {
    SectionsFromTile(text, 0);
    SectionsFromWellFormed(text, 0);
  }

  /** In a tiling, a later section starts no earlier than an earlier one ends;
      so starts strictly increase. */
  lemma {:induction false} TilingOrdered(text: string, secs: seq<Section>, i: nat, j: nat)
    requires Tiling(text, secs)
    requires i < j < |secs|
    ensures secs[i].end <= secs[j].start
    ensures secs[i].start < secs[j].start
    decreases j - i
  {
    if i + 1 < j {
      TilingOrdered(text, secs, i + 1, j);
    }
  }

  /** A heading occurrence that begins inside another heading's line (after
      its start, before its newline) never starts a section. */
  lemma HeadingInteriorNeverStarts(text: string, i: nat, j: nat)
    requires i < |Sections(text)| && j < |Sections(text)|
    ensures var secs := Sections(text);
            !(secs[i].start < secs[j].start < secs[i].BodyStart())
  {
    var secs := Sections(text);
    SectionsTile(text);
    if i < j {
      TilingOrdered(text, secs, i, j);
    } else if j < i {
      TilingOrdered(text, secs, j, i);
    }
  }

  lemma {:induction false} OccurrenceInSomeHeadingFrom(text: string, from: nat, p: nat)
    requires from <= p && from <= |text|
    requires OccursAt(text, HeadingPrefix, p)
    ensures exists i :: 0 <= i < |SectionsFrom(text, from)|
                        && SectionsFrom(text, from)[i].start <= p < SectionsFrom(text, from)[i].BodyStart()
    decreases |text| - from
  {
    var secs := SectionsFrom(text, from);
    match Find(text, HeadingPrefix, from)
    case None =>
    case Some(start) =>
      var s := SectionAt(text, start);
      assert secs[0] == s;
      if p >= s.BodyStart() {
        SectionAtShape(text, start);
        assert s.end <= p;
        OccurrenceInSomeHeadingFrom(text, s.end, p);
        var rest := SectionsFrom(text, s.end);
        var i :| 0 <= i < |rest| && rest[i].start <= p < rest[i].BodyStart();
        assert secs[i + 1] == rest[i];
      }
  }

  /** Every occurrence of the heading prefix lies in the heading line of some
      section, and it starts a section exactly when it does not begin strictly
      inside another section's heading line. */
  lemma OccurrenceStartsSectionIff(text: string, p: nat)
    requires OccursAt(text, HeadingPrefix, p)
    ensures exists i :: 0 <= i < |Sections(text)| && Sections(text)[i].start <= p < Sections(text)[i].BodyStart()
    ensures (exists j :: 0 <= j < |Sections(text)| && Sections(text)[j].start == p)
            <==> !(exists i :: 0 <= i < |Sections(text)| && Sections(text)[i].start < p < Sections(text)[i].BodyStart())
  {
    var secs := Sections(text);
    OccurrenceInSomeHeadingFrom(text, 0, p);
    if j :| 0 <= j < |secs| && secs[j].start == p {
      forall i | 0 <= i < |secs|
        ensures !(secs[i].start < p < secs[i].BodyStart())
      {
        HeadingInteriorNeverStarts(text, i, j);
      }
    }
  }

  /** Each section's heading begins with the prefix, holds no newline, and is
      the text from its start to the end of its line; between the end of the
      heading line and the end of the section no heading starts. */
  lemma HeadingShape(text: string, i: nat)
    requires i < |Sections(text)|
    ensures var s := Sections(text)[i];
            && s.start + |HeadingPrefix| <= s.BodyStart() <= s.end <= |text|
            && OccursAt(text, HeadingPrefix, s.start)
            && s.heading == text[s.start..s.BodyStart()]
            && s.heading[..|HeadingPrefix|] == HeadingPrefix
            && (forall k :: 0 <= k < |s.heading| ==> s.heading[k] != '\n')
            && (s.BodyStart() == |text| || text[s.BodyStart()] == '\n')
            && (forall p :: s.BodyStart() <= p < s.end ==> !OccursAt(text, HeadingPrefix, p))
  {
    SectionsTile(text);
    var s := Sections(text)[i];
    assert WellFormed(text, s);
    SectionAtShape(text, s.start);
  }

  // ----- the accessor -----

  /** Whether the stripped heading of `s` is exactly `heading`. */
  predicate HasHeading(s: Section, heading: string) {
    Strip(s.heading) == heading
  }

  /** Some section of `text` has the stripped heading `heading`. */
  predicate HasSection(text: string, heading: string) {
    exists i {:trigger HasHeading(Sections(text)[i], heading)} ::
      0 <= i < |Sections(text)| && HasHeading(Sections(text)[i], heading)
  }

  /** Index of the first section whose stripped heading equals `heading`. */
  function FirstMatch(secs: seq<Section>, heading: string): (r: Option<nat>)
    ensures r.Some? ==> r.value < |secs| && HasHeading(secs[r.value], heading)
    ensures r.Some? ==> forall k {:trigger HasHeading(secs[k], heading)} :: 0 <= k < r.value ==> !HasHeading(secs[k], heading)
    ensures r.None? ==> forall k {:trigger HasHeading(secs[k], heading)} :: 0 <= k < |secs| ==> !HasHeading(secs[k], heading)
  {
    if secs == [] then None
    else if HasHeading(secs[0], heading) then Some(0)
    else match FirstMatch(secs[1..], heading)
      case None => None
      case Some(i) => Some(i + 1)
  }

  /** `get_required_section`: the first section of `text` whose stripped
      heading equals `heading`, or the structure error naming `heading`. */
  function RequiredSection(text: string, heading: string): (r: Result<Section>)
    ensures r.Ok? <==> HasSection(text, heading)
    ensures r.Err? ==> r.error == SectionNotFound(heading)
    ensures r.Ok? ==> HasHeading(r.value, heading)
    ensures r.Ok? ==> r.value.start < r.value.BodyStart() <= r.value.end <= |text|
  {
    var secs := Sections(text);
    SectionsTile(text);
    match FirstMatch(secs, heading)
    case None => Err(SectionNotFound(heading))
    case Some(i) => Ok(secs[i])
  }

  /** In a tiling, the first match by index is also the first by position:
      every section starting before it has a different heading. */
  lemma FirstMatchIsFirstInText(text: string, secs: seq<Section>, heading: string)
    requires Tiling(text, secs) && FirstMatch(secs, heading).Some?
    ensures var i := FirstMatch(secs, heading).value;
            forall j :: 0 <= j < |secs| && secs[j].start < secs[i].start ==> !HasHeading(secs[j], heading)
  {
    var i := FirstMatch(secs, heading).value;
    forall j | 0 <= j < |secs| && secs[j].start < secs[i].start
      ensures !HasHeading(secs[j], heading)
    {
      if i < j {
        TilingOrdered(text, secs, i, j);
      }
    }
  }

  /** The section found is one of the scanned sections, the section of its
      own heading, and the first in document order with that heading: every
      section that starts before it has a different heading. */
  lemma RequiredSectionIsFirst(text: string, heading: string)
    requires RequiredSection(text, heading).Ok?
    ensures var r := RequiredSection(text, heading).value;
            && r in Sections(text)
            && WellFormed(text, r)
            && forall j :: 0 <= j < |Sections(text)| && Sections(text)[j].start < r.start
                 ==> !HasHeading(Sections(text)[j], heading)
  {
    var secs := Sections(text);
    SectionsTile(text);
    FirstMatchIsFirstInText(text, secs, heading);
  }

  /** A match with no match before it is the first match. */
  lemma FirstMatchAt(secs: seq<Section>, heading: string, i: nat)
    requires i < |secs| && HasHeading(secs[i], heading)
    requires forall k :: 0 <= k < i ==> !HasHeading(secs[k], heading)
    ensures FirstMatch(secs, heading) == Some(i)
  {
  }

  /** `get_required_section` as the loop the source runs over the scanner. */
  method GetRequiredSection(text: string, heading: string) returns (r: Result<Section>)
    ensures r == RequiredSection(text, heading)
  {
    var secs := IterSections(text);
    for i := 0 to |secs|
      invariant forall k :: 0 <= k < i ==> !HasHeading(secs[k], heading)
    {
      if HasHeading(secs[i], heading) {
        FirstMatchAt(secs, heading, i);
        return Ok(secs[i]);
      }
    }
    return Err(SectionNotFound(heading));
  }

  /** `iter_sections` as the loop the source runs: search for a heading from
      the current offset, cut the heading at its newline, search for the next
      heading from the end of the line, and continue from there. */
  method IterSections(text: string) returns (secs: seq<Section>)
    ensures secs == Sections(text)
  {
    secs := [];
    var start: nat := 0;
    while true
      invariant start <= |text|
      invariant secs + SectionsFrom(text, start) == Sections(text)
      decreases |text| - start
    {
      var found := Find(text, HeadingPrefix, start);
      if found.None? {
        return;
      }
      var headingStart := found.value;
      var nl := Find(text, "\n", headingStart);
      var lineEnd := if nl.None? then |text| else nl.value;
      var heading := text[headingStart..lineEnd];
      var next := Find(text, HeadingPrefix, lineEnd);
      var nextStart := if next.None? then |text| else next.value;
      var s := Section(heading, headingStart, nextStart);
      assert s == SectionAt(text, headingStart);
      secs := secs + [s];
      start := nextStart;
    }
  }

  // ----- the introduction -----

  /** `extract_intro`: the stripped body of the introduction section. */
  function ExtractIntro(text: string): (r: Result<string>)
    ensures r.Err? <==> !HasSection(text, SectionIntro)
    ensures r.Err? ==> r.error == SectionNotFound(SectionIntro)
  {
    match RequiredSection(text, SectionIntro)
    case Err(e) => Err(e)
    case Ok(s) => Ok(Strip(text[s.BodyStart()..s.end]))
  }

  /** Stripping a stretch of text in which no heading starts leaves a slice
      of that stretch that holds no heading. */
  lemma StrippedStretchHasNoHeading(text: string, lo: nat, hi: nat)
    requires lo <= hi <= |text|
    requires forall p :: lo <= p < hi ==> !OccursAt(text, HeadingPrefix, p)
    ensures var b := TrimBounds(text[lo..hi], Whitespace);
            Strip(text[lo..hi]) == text[lo + b.0..lo + b.1]
    ensures !Contains(Strip(text[lo..hi]), HeadingPrefix)
  {
    var body := text[lo..hi];
    var b := TrimBounds(body, Whitespace);
    TrimMaximal(body, Whitespace);
    var intro := Strip(body);
    assert |body| == hi - lo;
    assert forall k :: 0 <= k < b.1 - b.0 ==> body[b.0..b.1][k] == text[lo + b.0..lo + b.1][k];
    assert body[b.0..b.1] == text[lo + b.0..lo + b.1];
    if Contains(intro, HeadingPrefix) {
      var p := Find(intro, HeadingPrefix, 0).value;
      assert intro == body[b.0..b.1];
      assert OccursAt(body[b.0..b.1], HeadingPrefix, p);
      OccursInSlice(body, HeadingPrefix, b.0, b.1, p);
      OccursInSlice(text, HeadingPrefix, lo, hi, b.0 + p);
      assert false;
    }
  }

  /** The stripped body of a section is the text between its heading line
      and its end with the surrounding whitespace cut off: a slice of the
      body that never contains a heading and neither starts nor ends with
      whitespace. */
  lemma StrippedBody(text: string, s: Section)
    requires WellFormed(text, s)
    ensures var body := Strip(text[s.BodyStart()..s.end]);
            var b := TrimBounds(text[s.BodyStart()..s.end], Whitespace);
            && body == text[s.BodyStart() + b.0..s.BodyStart() + b.1]
            && (forall k :: s.BodyStart() <= k < s.BodyStart() + b.0 ==> text[k] in Whitespace)
            && (forall k :: s.BodyStart() + b.1 <= k < s.end ==> text[k] in Whitespace)
            && (body != [] ==> body[0] !in Whitespace && body[|body| - 1] !in Whitespace)
            && !Contains(body, HeadingPrefix)
  {
    var lo := s.BodyStart();
    var body := text[lo..s.end];
    SectionAtShape(text, s.start);
    StrippedStretchHasNoHeading(text, lo, s.end);
    TrimMaximal(body, Whitespace);
    forall k | lo <= k < s.end
      ensures text[k] == body[k - lo]
    {
    }
  }

  /** The stripped body of the section found for `heading` is a slice of
      that body which never contains a heading and neither starts nor ends
      with whitespace. */
  lemma RequiredBodyShape(text: string, heading: string)
    requires RequiredSection(text, heading).Ok?
    ensures var s := RequiredSection(text, heading).value;
            var body := Strip(text[s.BodyStart()..s.end]);
            var b := TrimBounds(text[s.BodyStart()..s.end], Whitespace);
            && body == text[s.BodyStart() + b.0..s.BodyStart() + b.1]
            && (forall k :: s.BodyStart() <= k < s.BodyStart() + b.0 ==> text[k] in Whitespace)
            && (forall k :: s.BodyStart() + b.1 <= k < s.end ==> text[k] in Whitespace)
            && (body != [] ==> body[0] !in Whitespace && body[|body| - 1] !in Whitespace)
            && !Contains(body, HeadingPrefix)
  {
    var s := RequiredSection(text, heading).value;
    RequiredSectionIsFirst(text, heading);
    StrippedBody(text, s);
  }

  /** The introduction is the body of the first section headed
      `SectionIntro`, after its heading line and before the next heading, with
      the surrounding whitespace cut off: a slice of that body which never
      contains a heading and neither starts nor ends with whitespace. */
  lemma IntroWithinBody(text: string)
    requires ExtractIntro(text).Ok?
    ensures var s := RequiredSection(text, SectionIntro).value;
            var intro := ExtractIntro(text).value;
            var b := TrimBounds(text[s.BodyStart()..s.end], Whitespace);
            && HasHeading(s, SectionIntro)
            && intro == text[s.BodyStart() + b.0..s.BodyStart() + b.1]
            && (forall k :: s.BodyStart() <= k < s.BodyStart() + b.0 ==> text[k] in Whitespace)
            && (forall k :: s.BodyStart() + b.1 <= k < s.end ==> text[k] in Whitespace)
            && (intro != [] ==> intro[0] !in Whitespace && intro[|intro| - 1] !in Whitespace)
            && !Contains(intro, HeadingPrefix)
  {
    RequiredBodyShape(text, SectionIntro);
  }
}
