# Note sections, merge and Trello slugs in Dafny

This project models two small Python note tools and proves properties of the
model.

The first is the note enhancer `enhance_note.py`. It handles a Markdown note
whose template sections begin with headings that start with `"## SECTION "`.
It has three parts:

- **Scanner** (`iter_sections`). It cuts the note into sections. A section
  starts at each occurrence of the heading prefix that does not begin
  inside an earlier section's heading line. Its heading runs to the end of
  that line. The section runs to the next occurrence found after the
  heading line, or to the end of the text.
- **Accessor** (`get_required_section`, `extract_intro`). It picks the first
  section whose stripped heading equals a target heading, and returns the
  stripped body of the introduction section.
- **Merge** (`ensure_required_headings`, `merge_sections`). It checks that a
  replacement block carries the key-concepts and evidence headings. It then
  splices the stripped block over the note, from the start of the
  key-concepts section to the end of the evidence section.

The second is the Trello exporter `trello_to_markdown.py`. The model covers
its `slugify` helper and the name of the Markdown file it writes for each
comment.

Everything here works on immutable text, a `string` in Dafny. There are four
modules:

- **`PyStr`**: the Python string operations the tools call. `str.find` becomes
  `Find`, which returns an `Option` in place of `-1`. `in` becomes `Contains`.
  `strip`, `strip(chars)` and `lstrip(chars)` become `Strip`, `Trim` and
  `TrimLeft`. `strip()` removes exactly the characters for which Python's
  `str.isspace()` holds. `lower` becomes `Lower`.
- **`NoteSections`**: the scanner and the accessor.
  - The scanner is a recursive function over the search offset,
    `SectionsFrom`/`Sections`.
  - The source's loop is the method `IterSections`, proved to yield exactly
    `Sections(text)`.
  - The accessor is the specification function `RequiredSection`. The
    source's loop over the scanner is the method `GetRequiredSection`, proved
    equal to it.
  - Failures are values of `NoteError`. `SectionNotFound` is the source's
    `NoteStructureError`. `MissingHeadings` is the `RuntimeError` raised for
    a replacement that lacks target headings. `Message` gives each failure's
    exact error text.
- **`NoteMerge`**: the heading check and the splice. Both are modelled as
  written. If the evidence section comes before the key-concepts section,
  the note text between them appears twice in the result, just as the source
  produces it.
- **`Slug`**: the exporter's `slugify` and file name.
  - The regular-expression substitution `[^a-z0-9]+ → -` is the recursive
    function `CollapseRuns`.
  - `Words` is an independent description of the slug: the maximal runs of
    `[a-z0-9]` characters. `SlugifyAsWords` proves that the slug is these
    words joined by dashes, or `"card"` when there are none.
  - `SplitFilename` reads the date part, the slug and the comment id back
    out of a file name. It is an inverse defined for the round-trip lemma;
    the source has no such function.

## Model

| member | source | states |
|---|---|---|
| PyStr.Find | enhance_note.py:48 | `text.find(pat, from)`: the result is an occurrence at or after `from` with no earlier one; `None` (Python's -1) exactly when there is no occurrence from `from` on |
| PyStr.ContainsIff | enhance_note.py:149 | `pat in text` holds exactly when `pat` occurs at some offset |
| PyStr.TrimLeft | enhance_note.py:170 | `lstrip(chars)` keeps a suffix of its input |
| PyStr.TrimLeftMaximal | enhance_note.py:170 | `lstrip(chars)` removes only characters of `chars`, and what it keeps does not start with one |
| PyStr.TrimMaximal | enhance_note.py:169 | `strip(chars)` keeps one slice; everything cut off on either side is in `chars`, and the slice neither starts nor ends with a character of `chars` |
| PyStr.Trim | trello_to_markdown.py:33 | `strip(chars)` is no longer than its input; its exact shape is stated by `TrimMaximal` |
| PyStr.StripShape | enhance_note.py:169 | `strip()` keeps one slice; everything cut off on either side is whitespace, and the slice neither starts nor ends with whitespace |
| PyStr.TrimOfPadded | trello_to_markdown.py:33 | `strip(chars)` on a text padded on both sides with characters of `chars`, around a middle that neither starts nor ends with one, gives back exactly the middle |
| PyStr.JoinEnds | enhance_note.py:153 | `sep.join(parts)` is empty for no parts, and otherwise starts with the first part and ends with the last |
| PyStr.JoinCons | enhance_note.py:153 | joining a part in front of non-empty parts puts the separator between it and their join |
| PyStr.StripKeepsOccurrence | enhance_note.py:169 | stripping whitespace keeps every occurrence of a pattern whose end characters are not whitespace, shifted by the amount cut at the front |
| PyStr.Lower | trello_to_markdown.py:32 | lower-casing keeps the length, maps `A`-`Z` to `a`-`z`, leaves every other character alone and leaves no upper-case ASCII letter |
| NoteSections.Message | enhance_note.py:67 | the `NoteStructureError` text quotes the missing heading at a fixed offset and is 34 characters longer than it; the `RuntimeError` text of lines 152-154 starts with the fixed lead-in |
| NoteSections.SectionsFrom | enhance_note.py:46-60 | from a search offset, the generator yields nothing exactly when no heading prefix occurs from that offset on |
| NoteSections.Sections | enhance_note.py:43-60 | `iter_sections(text)` yields nothing exactly when the text does not contain the heading prefix |
| NoteSections.LineEndIsFirstNewline | enhance_note.py:51-53 | the heading line ends at the first newline at or after the heading start, or at the end of the text |
| NoteSections.NextStartIsFirstHeading | enhance_note.py:56-58 | the section end is the first heading at or after the end of the heading line, or the end of the text when there is none |
| NoteSections.SectionAt | enhance_note.py:51-59 | the section yielded for a heading starting at `start` starts there, and `start + len(prefix) <= body_start <= end <= len(text)` |
| NoteSections.SectionAtShape | enhance_note.py:51-58 | the heading is `text[start:line_end]`; it begins with the prefix and holds no newline; `body_start` is at a newline or at the end of the text; the end is a heading or the end of the text; no heading starts between `body_start` and `end` |
| NoteSections.SectionsFromTile | enhance_note.py:46-60 | from any search offset, the sections yielded tile the rest of the text: each ends where the next starts, the last ends at `len(text)`, and `start < body_start <= end`; none are yielded exactly when no heading follows the offset, and otherwise the first starts at the first heading |
| NoteSections.SectionsFromWellFormed | enhance_note.py:48-59 | every section yielded is the section of the heading at its own start |
| NoteSections.SectionsTile | enhance_note.py:43-60 | `iter_sections(text)` tiles the text from the first heading on; every section is well formed; it yields nothing exactly when the text does not contain the prefix |
| NoteSections.TilingOrdered | enhance_note.py:56-60 | a later section starts no earlier than an earlier one ends, so starts strictly increase |
| NoteSections.HeadingInteriorNeverStarts | enhance_note.py:51-56 | no section starts strictly inside another section's heading line |
| NoteSections.OccurrenceStartsSectionIff | enhance_note.py:48-60 | every occurrence of the prefix lies in some section's heading line; it starts a section exactly when it does not begin strictly inside another heading line |
| NoteSections.HeadingShape | enhance_note.py:34-36 | each yielded section's heading is `text[start:body_start]`; it begins with the prefix and holds no newline; the body starts at a newline or at the end of the text; no heading starts inside the body |
| NoteSections.IterSections | enhance_note.py:43-60 | the source's loop yields exactly `Sections(text)`; a loop invariant ties the sections produced so far plus those `SectionsFrom` yields from the current offset to the whole |
| NoteSections.FirstMatch | enhance_note.py:64-66 | the index found holds a section with the stripped heading, and no earlier index does; `None` exactly when no section matches |
| NoteSections.RequiredSection | enhance_note.py:63-67 | succeeds exactly when some section's stripped heading equals `heading`, and then returns such a section; otherwise fails with `SectionNotFound(heading)` |
| NoteSections.FirstMatchIsFirstInText | enhance_note.py:64-66 | in a tiling, the first match by index is also first by position |
| NoteSections.RequiredSectionIsFirst | enhance_note.py:63-67 | the section returned is one of the yielded sections and well formed, and no section starting before it has the heading |
| NoteSections.GetRequiredSection | enhance_note.py:63-67 | the source's loop over the scanner returns exactly `RequiredSection(text, heading)`, including the error |
| NoteSections.ExtractIntro | enhance_note.py:70-72 | fails, with `SectionNotFound` naming the introduction heading, exactly when no section has that heading |
| NoteSections.StrippedStretchHasNoHeading | enhance_note.py:72 | stripping a stretch of text in which no heading starts gives a slice of the text that does not contain the prefix |
| NoteSections.StrippedBody | enhance_note.py:72 | the stripped body of a well-formed section is a slice of it; only whitespace is cut on either side; it neither starts nor ends with whitespace; it holds no heading |
| NoteSections.RequiredBodyShape | enhance_note.py:71-72 | the same facts for the body of the section `get_required_section` finds |
| NoteSections.IntroWithinBody | enhance_note.py:70-72 | the introduction is the whitespace-trimmed slice of the first introduction section's body, between its heading line and the next heading; it contains no heading |
| NoteMerge.MissingRequired | enhance_note.py:146-150 | a target heading is listed exactly when the replacement does not contain it anywhere; nothing else is listed; key concepts come before evidence |
| NoteMerge.EnsureRequiredHeadings | enhance_note.py:145-154 | accepts exactly when both target headings are contained; otherwise fails naming the non-empty list of missing ones |
| NoteMerge.MissingHeadingsMessage | enhance_note.py:151-154 | the error text is the fixed lead-in followed by the missing headings, joined by `", "`, in checking order |
| NoteMerge.MergeSections | enhance_note.py:157-160 | the failures come in a fixed order: missing headings in the replacement first, then a missing concepts section, then a missing evidence section; it succeeds exactly when none applies |
| NoteMerge.SpliceShape | enhance_note.py:163-170 | splicing keeps the text before the concepts section as a prefix, and the text after the evidence section, minus only its leading newlines, as a suffix |
| NoteMerge.MergeSplice | enhance_note.py:162-170 | a successful merge is `original[:s2.start] + replacement.strip() + "\n\n" + original[s3.end:].lstrip("\n")`, with the prefix and the tail preserved as above |
| NoteMerge.MergeDependsOnlyOnReplacement | enhance_note.py:162-170 | two successful merges into the same note share the prefix and the tail; replacements with equal stripped text give equal results |
| NoteMerge.SpliceKeepsPattern | enhance_note.py:169-170 | a pattern with non-blank ends contained in the replacement is contained in the spliced result |
| NoteMerge.MergeKeepsTargetHeadings | enhance_note.py:157-170 | a successful merge contains both target headings |
| Slug.Slugify | trello_to_markdown.py:24-34 | the slug is non-empty, uses only `a-z`, `0-9` and `-`, has no dash at either end and no two dashes in a row; it is `"card"` when the lower-cased input has no `[a-z0-9]` character, and otherwise its `[a-z0-9]` characters are exactly the input's, in order |
| Slug.CollapseRuns | trello_to_markdown.py:33 | the substitution never lengthens the text, and yields nothing exactly when the text is empty |
| Slug.CollapseShape | trello_to_markdown.py:33 | the substitution yields only slug characters and never two dashes in a row, and keeps the `[a-z0-9]` characters in order |
| Slug.Words | trello_to_markdown.py:27-28 | the words of a text are non-empty and made only of `[a-z0-9]` characters |
| Slug.CollapseFromWord | trello_to_markdown.py:33 | from a text that starts with an `[a-z0-9]` character, the substitution yields its words joined by `-`, plus one `-` when the text ends outside `[a-z0-9]` |
| Slug.CollapseAsWords | trello_to_markdown.py:33 | the substitution yields the words joined by `-`, with one `-` in front when the text starts outside `[a-z0-9]` and one behind when it ends outside `[a-z0-9]` after some word |
| Slug.JoinedWordsShape | trello_to_markdown.py:33 | words joined by `-` are empty exactly when there are no words, and otherwise neither start nor end with `-` |
| Slug.SlugifyAsWords | trello_to_markdown.py:24-34 | `slugify(v)` is the maximal `[a-z0-9]` runs of `v.lower()` joined by `-`, or `"card"` when there are none |
| Slug.DashTrimShape | trello_to_markdown.py:33 | `strip("-")` on the substitution's output leaves no dash at either end; it keeps the `[a-z0-9]` characters; it leaves nothing exactly when there were none |
| Slug.CollapseOfSlug | trello_to_markdown.py:33 | the substitution leaves a string in the slug alphabet with no doubled dash unchanged |
| Slug.SlugifyOfSlug | trello_to_markdown.py:24-34 | every string of slug shape is its own slug |
| Slug.SlugifyIdempotent | trello_to_markdown.py:24-34 | `slugify(slugify(v)) == slugify(v)` |
| Slug.DatePart | trello_to_markdown.py:69 | `date[:10]` has at most 10 characters, is a prefix of `date`, and is all of `date` when it is 10 characters or shorter |
| Slug.NoteFilename | trello_to_markdown.py:69 | the file name starts with the date part, ends in `.md`, and is at least six characters longer than the date part and the comment id together |
| Slug.SplitFilename | trello_to_markdown.py:69 | whatever it reads back from a name rebuilds that name as `f"{date}_{slug}_{id}.md"` |
| Slug.FilenameRoundTrip | trello_to_markdown.py:69 | when the date part holds no `_`, the date part, the slug and the comment id are read back from the file name: the text before the first `_`, the text between the first two, and the rest before `.md` |

## Left out

- `build_prompt` (enhance_note.py:75-111) is prompt-text assembly for the language model; no property of the note structure depends on it.
- `call_chat_completion` (enhance_note.py:114-142) is an HTTP request and JSON reply parsing. The model takes the replacement text it would return as a parameter of `MergeSections`.
- `enhance_note`, `parse_args` and `main` (enhance_note.py:173-262) are file I/O and the command line. The `temperature` parameter is a floating-point value passed through to the request.
- `convert` and `main` in trello_to_markdown.py (lines 37-99), except the file name at line 69, are left out. They do JSON loading, directory creation, file writes and Jinja2 rendering; the template is loaded at lines 19-21.
- MergeKeepsTargetHeadings: proves that a merged note contains each target heading at least once, not exactly once. The check at enhance_note.py:149 only asks that each heading be contained, so a replacement may carry `"## SECTION 2: KEY CONCEPTS/DEFINITIONS"` twice. And when a target heading's text occurs inside the SECTION 1 heading line, it starts no section. It lies before the concepts section, so it stays in the kept prefix as an extra occurrence. The "exactly once" claim does not hold in general, so neither it nor the idempotence of a second merge, which rests on it, is stated.
- Lower: only ASCII `A`-`Z` are lower-cased. Python's `str.lower` also maps non-ASCII characters, and a few of them become ASCII letters (the Kelvin sign becomes `k`, for example). On such input the model's slug can differ from the source's.
- `iter_sections` is a generator. It is modelled as the fully computed sequence it would yield. Since the text is immutable, only how far `get_required_section` runs it differs, and that is not observable.
- The exception classes are modelled as two `NoteError` constructors. That `NoteStructureError` is a subclass of `RuntimeError` is not modelled.
