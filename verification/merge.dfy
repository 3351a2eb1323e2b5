/** The merge step of the note enhancer: a replacement block, which must carry
    both target headings, is spliced over the note from the start of the
    key-concepts section to the end of the evidence section. */
module NoteMerge {
  import opened PyStr
  import opened NoteSections

  /** The target headings the replacement text does not contain, in the order
      they are checked: key concepts first, then evidence. */
  function MissingRequired(replacement: string): (missing: seq<string>)
    ensures SectionConcepts in missing <==> !Contains(replacement, SectionConcepts)
    ensures SectionEvidence in missing <==> !Contains(replacement, SectionEvidence)
    ensures forall h :: h in missing ==> h == SectionConcepts || h == SectionEvidence
    ensures |missing| <= 2 && (|missing| == 2 ==> missing == [SectionConcepts, SectionEvidence])
  {
    assert SectionConcepts[11] != SectionEvidence[11];
    (if Contains(replacement, SectionConcepts) then [] else [SectionConcepts])
    + (if Contains(replacement, SectionEvidence) then [] else [SectionEvidence])
  }

  /** Accepts a replacement only when it contains both target headings, and
      otherwise names every one it lacks. */
  function EnsureRequiredHeadings(replacement: string): (r: Result<()>)
    ensures r.Ok? <==> Contains(replacement, SectionConcepts) && Contains(replacement, SectionEvidence)
    ensures r.Err? ==> r.error == MissingHeadings(MissingRequired(replacement))
                       && MissingRequired(replacement) != []
  {
    var missing := MissingRequired(replacement);
    if missing == [] then Ok(()) else
      assert SectionConcepts in missing || SectionEvidence in missing;
      Err(MissingHeadings(missing))
  }

  /** The error text names the missing target headings, comma-separated, in
      the order they are checked. */
  lemma MissingHeadingsMessage(replacement: string)
    requires EnsureRequiredHeadings(replacement).Err?
    ensures var lacksConcepts := !Contains(replacement, SectionConcepts);
            var lacksEvidence := !Contains(replacement, SectionEvidence);
            Message(EnsureRequiredHeadings(replacement).error)
            == "LLM response missing required headings: "
               + (if lacksConcepts && lacksEvidence then SectionConcepts + ", " + SectionEvidence
                  else if lacksConcepts then SectionConcepts
                  else SectionEvidence)
  {
    var missing := MissingRequired(replacement);
    if |missing| == 2 {
      assert missing == [SectionConcepts, SectionEvidence];
      assert missing[1..] == [SectionEvidence];
      assert Join(missing, ", ") == SectionConcepts + ", " + Join([SectionEvidence], ", ");
    } else {
      assert missing[0] in missing;
    }
  }

  /** Replaces sections 2 and 3 of `original` with the stripped replacement.
      The checks run in a fixed order: the replacement's headings first, then
      the concepts section of the note, then its evidence section. */
  function MergeSections(original: string, replacement: string): (r: Result<string>)
    ensures !(Contains(replacement, SectionConcepts) && Contains(replacement, SectionEvidence))
            ==> r == Err(MissingHeadings(MissingRequired(replacement)))
    ensures Contains(replacement, SectionConcepts) && Contains(replacement, SectionEvidence)
            && !HasSection(original, SectionConcepts)
            ==> r == Err(SectionNotFound(SectionConcepts))
    ensures Contains(replacement, SectionConcepts) && Contains(replacement, SectionEvidence)
            && HasSection(original, SectionConcepts) && !HasSection(original, SectionEvidence)
            ==> r == Err(SectionNotFound(SectionEvidence))
    ensures r.Ok? <==> Contains(replacement, SectionConcepts) && Contains(replacement, SectionEvidence)
                       && HasSection(original, SectionConcepts) && HasSection(original, SectionEvidence)
  {
    match EnsureRequiredHeadings(replacement)
    case Err(e) => Err(e)
    case Ok(_) =>
      match RequiredSection(original, SectionConcepts)
      case Err(e) => Err(e)
      case Ok(s2) =>
        match RequiredSection(original, SectionEvidence)
        case Err(e) => Err(e)
        case Ok(s3) =>
          Ok(original[..s2.start] + Strip(replacement) + "\n\n" + TrimLeft(original[s3.end..], {'\n'}))
  }

  /** Splicing `middle` over `original` from `lo` to `hi` keeps the text
      before `lo` and, minus its leading newlines, the text after `hi`. */
  lemma SpliceShape(original: string, lo: nat, hi: nat, middle: string)
    requires lo <= |original| && hi <= |original|
    ensures var tail := TrimLeft(original[hi..], {'\n'});
            var merged := original[..lo] + middle + "\n\n" + tail;
            && |merged| == lo + |middle| + 2 + |tail|
            && merged[..lo] == original[..lo]
            && merged[|merged| - |tail|..] == tail
            && (forall k :: hi <= k < |original| - |tail| ==> original[k] == '\n')
            && (tail != [] ==> tail[0] != '\n')
  {
    var rest := original[hi..];
    var tail := TrimLeft(rest, {'\n'});
    var merged := original[..lo] + middle + "\n\n" + tail;
    TrimLeftMaximal(rest, {'\n'});
    forall k | hi <= k < |original| - |tail|
      ensures original[k] == '\n'
    {
      assert original[k] == rest[k - hi];
    }
    assert merged[..lo] == original[..lo];
  }

  /** A successful merge keeps the note up to the first concepts section and,
      minus its leading newlines, the note after the first evidence section;
      between them stands the stripped replacement followed by a blank line. */
  lemma MergeSplice(original: string, replacement: string)
    requires MergeSections(original, replacement).Ok?
    ensures var s2 := RequiredSection(original, SectionConcepts).value;
            var s3 := RequiredSection(original, SectionEvidence).value;
            var tail := TrimLeft(original[s3.end..], {'\n'});
            var merged := MergeSections(original, replacement).value;
            && merged == original[..s2.start] + Strip(replacement) + "\n\n" + tail
            && |merged| == s2.start + |Strip(replacement)| + 2 + |tail|
            && merged[..s2.start] == original[..s2.start]
            && merged[|merged| - |tail|..] == tail
            && (forall k :: s3.end <= k < |original| - |tail| ==> original[k] == '\n')
            && (tail != [] ==> tail[0] != '\n')
  {
    var s2 := RequiredSection(original, SectionConcepts).value;
    var s3 := RequiredSection(original, SectionEvidence).value;
    SpliceShape(original, s2.start, s3.end, Strip(replacement));
  }

  /** Only the middle of a merge depends on the replacement: two successful
      merges into the same note share the prefix and the tail. */
  lemma MergeDependsOnlyOnReplacement(original: string, r1: string, r2: string)
    requires MergeSections(original, r1).Ok? && MergeSections(original, r2).Ok?
    ensures var s2 := RequiredSection(original, SectionConcepts).value;
            var s3 := RequiredSection(original, SectionEvidence).value;
            var tail := TrimLeft(original[s3.end..], {'\n'});
            var m1 := MergeSections(original, r1).value;
            var m2 := MergeSections(original, r2).value;
            && m1[..s2.start] == m2[..s2.start] == original[..s2.start]
            && m1[|m1| - |tail|..] == m2[|m2| - |tail|..] == tail
            && (Strip(r1) == Strip(r2) ==> m1 == m2)
  {
    MergeSplice(original, r1);
    MergeSplice(original, r2);
  }

  /** Both target headings are non-blank at either end, so stripping keeps them. */
  lemma TargetHeadingsHaveSolidEnds()
    ensures SectionConcepts[0] !in Whitespace && SectionConcepts[|SectionConcepts| - 1] !in Whitespace
    ensures SectionEvidence[0] !in Whitespace && SectionEvidence[|SectionEvidence| - 1] !in Whitespace
  {
  }

  /** An occurrence in the middle piece of a concatenation is an occurrence in the whole. */
  lemma OccursInMiddle(a: string, m: string, b: string, pat: string, i: nat)
    requires OccursAt(m, pat, i)
    ensures OccursAt(a + m + b, pat, |a| + i)
  {
    var w := a + m + b;
    forall k | 0 <= k < |pat|
      ensures w[|a| + i + k] == pat[k]
    {
      OccursAtIndex(m, pat, i, k);
    }
    assert w[|a| + i..|a| + i + |pat|] == pat;
  }

  /** Splicing the stripped text between two other pieces keeps every
      occurrence in it of a pattern with non-blank ends. */
  lemma SpliceKeepsPattern(prefix: string, text: string, suffix: string, pat: string)
    requires pat != [] && pat[0] !in Whitespace && pat[|pat| - 1] !in Whitespace
    requires Contains(text, pat)
    ensures Contains(prefix + Strip(text) + suffix, pat)
  {
    var i := Find(text, pat, 0).value;
    StripKeepsOccurrence(text, pat, i);
    var j := i - TrimBounds(text, Whitespace).0;
    OccursInMiddle(prefix, Strip(text), suffix, pat, j);
    ContainsIff(prefix + Strip(text) + suffix, pat);
  }

  /** The merged note contains both target headings, since the replacement
      had to contain them and stripping keeps them. */
  lemma MergeKeepsTargetHeadings(original: string, replacement: string)
    requires MergeSections(original, replacement).Ok?
    ensures Contains(MergeSections(original, replacement).value, SectionConcepts)
    ensures Contains(MergeSections(original, replacement).value, SectionEvidence)
  {
    var s2 := RequiredSection(original, SectionConcepts).value;
    var s3 := RequiredSection(original, SectionEvidence).value;
    var prefix := original[..s2.start];
    var suffix := "\n\n" + TrimLeft(original[s3.end..], {'\n'});
    assert MergeSections(original, replacement).value == prefix + Strip(replacement) + suffix;
    TargetHeadingsHaveSolidEnds();
    SpliceKeepsPattern(prefix, replacement, suffix, SectionConcepts);
    SpliceKeepsPattern(prefix, replacement, suffix, SectionEvidence);
  }
}
