# Resource extractor model

A Dafny model of `scripts/extract_resources.py`. The script reads the single
table of a Word document that lists a school faculty's resources and turns it
into categories (`A. Whole School`) holding sections (`A1. Timetables`). Each
category and section has a description and the hyperlinks found in its cells.

The model covers the parts of the script that compute things:

- **`_clean_label`** (module `Labels`). The cleaner is written as methods with
  their loops:
  - the `while changed` loop that strips trailing "where to find it" phrases;
  - the single pass over the leading determiners;
  - the `while trimmed` loop that strips leading connectives.

  Each method is proved equal to a specification function. That function is
  shown to do what the cleaner is for: it stops only when nothing is left to
  strip, it returns a contiguous piece of its input, and a blank input gives
  nothing.
- **the label of a hyperlink** (`Labels.ResolveLabel`, `Labels.LinkLabel`).
  The authored text is used unless it is a placeholder. Otherwise the label
  is the cleaned last sentence before the link, then the cleaned last 160
  characters before it, then `"Resource link"`. Every such label is proved to
  be text that stood before the link, or the fallback.
- **`_parse_runs`** (module `Runs`). Both of its loops are modelled. A
  hyperlink part is proved to know its place in the paragraph: `before` is
  exactly the text of the parts before it and `after` exactly the text after
  it. The parts together spell out the paragraph's visible text.
- **`_parse_cell`** (module `Cells`). Its paragraph loop and its link loop are
  modelled, with the two facts callers rely on:
  - the cell text is the non-blank paragraphs joined by newlines;
  - every link has a non-empty label and a target taken from the document's
    relationships.
- **the two header patterns** (module `Patterns`, in `patterns.dfy`), as
  matchers proved to accept exactly the texts the patterns describe and to
  capture the one letter, digits and title the greedy matcher takes.
- **the row loop of `extract`** (module `Rows`, properties in
  `RowProperties`):
  - the classification of a row;
  - the four branches of the loop body;
  - the whole function with its three error cases.

  `current_category` is modelled as an index into the list of categories.
  The loop keeps it equal to the last index. Over the whole table the list
  stays well-formed: every category code is one capital letter, and every
  section code is that letter followed by digits. No later row undoes what
  an earlier one built.

Modules `Wrappers` (Option, Result), `Seqs` (small sequence facts) and
`Text` (Python's `strip`, `lstrip`, `rstrip`, `lower`, `startswith`,
`endswith` and `str.join`) support the rest. They live in `text.dfy`.

The model follows the code in these respects:

- A category opened by a section row whose letter has no current category is
  titled `Misc`.
- A category header row always opens a new category, even when its letter
  was seen before. The same code can therefore appear twice, and uniqueness
  of category codes is not a property of this code.
- Only the first table of the body is read.
- A section code is exactly a letter and ASCII digits. A code with a letter
  suffix (`B12a.`) or without a leading letter (`12.`) is not a section
  header. Such a row is a continuation of the last section.
- A first cell reading only `A.` matches neither pattern, and the row is
  treated as a continuation.

## Model

| member | source | states |
|---|---|---|
| Text.WhitespaceListed | scripts/extract_resources.py:125 | the characters `strip()` with no argument removes are exactly the 29 characters for which `str.isspace()` holds |
| Text.TrimCharsListed | scripts/extract_resources.py:135 | the argument `" -:–—,.;()[]{}"` of the cleaner's `strip`/`rstrip` is exactly these 14 characters |
| Text.RStrip | scripts/extract_resources.py:135 | `rstrip(cs)` returns a prefix of its input that is empty or ends outside `cs` |
| Text.Strip | scripts/extract_resources.py:153 | `strip(cs)` returns a string that is empty or starts and ends outside `cs` |
| Text.LStripSuffix | scripts/extract_resources.py:139 | `lstrip(cs)` returns a suffix of its input |
| Text.LStripRemoves | scripts/extract_resources.py:139 | `lstrip(cs)` removes only characters of `cs` |
| Text.RStripRemoves | scripts/extract_resources.py:135 | `rstrip(cs)` removes only characters of `cs` |
| Text.StripEmpty | scripts/extract_resources.py:125-127 | `strip` leaves nothing if and only if every character is stripped |
| Text.StripInfix | scripts/extract_resources.py:139 | what `strip` keeps is a contiguous piece of its input, at the offset `lstrip` stops at |
| Text.StripIdempotent | scripts/extract_resources.py:198-208 | stripping twice is stripping once, so `raw_label.strip()` on a stripped label changes nothing |
| Text.StripNoop | scripts/extract_resources.py:212 | a string whose ends are outside `cs` is left unchanged by `strip(cs)` |
| Text.LowerSlice | scripts/extract_resources.py:132-135 | lower-casing a slice is slicing the lower-cased text, so the phrase `lowered.endswith` matched is the lower-cased form of exactly the characters `text[:-len(phrase)]` cuts off |
| Text.NonEmpty | scripts/extract_resources.py:302-309 | `filter(None, ...)` keeps only non-empty strings and never lengthens the list |
| Text.NonEmptyFrom | scripts/extract_resources.py:191-192 | every string `filter(None, ...)` keeps comes from its input |
| Text.ConcatAppend | scripts/extract_resources.py:174 | `"".join` of two lists put together is the two joins put together |
| Text.ConcatNonEmpty | scripts/extract_resources.py:164 | the `if t.text` filter does not change `"".join`, and the join is empty exactly when nothing non-empty is left |
| Text.JoinEnds | scripts/extract_resources.py:212 | `sep.join` of non-empty parts starts with the first part's first character and ends with the last part's last character |
| Labels.DropLast | scripts/extract_resources.py:135 | `text[:-n]` is a prefix of `text`, and shorter than `text` when `text` is non-empty |
| Labels.FirstSuffix | scripts/extract_resources.py:133-137 | the phrase found is the first in table order that the text ends with; none is found only when no phrase matches |
| Labels.FirstPrefix | scripts/extract_resources.py:147-151 | the connective found is the first in table order that the text starts with; none is found only when none matches |
| Labels.TrailingTrimmed | scripts/extract_resources.py:129-137 | the trailing-phrase loop leaves a prefix of its input |
| Labels.TrailingTrimmedDone | scripts/extract_resources.py:129-137 | the trailing-phrase loop stops only when the text is empty or ends with none of the 71 phrases (compared in lower case) |
| Labels.LeadStrippedSuffix | scripts/extract_resources.py:144-151 | the connective loop leaves a suffix of its input |
| Labels.LeadStrippedDone | scripts/extract_resources.py:144-151 | the connective loop stops only when the text is empty or starts with none of the connectives (compared in lower case) |
| Labels.Finished | scripts/extract_resources.py:153 | the final `strip(...) or None` gives a non-empty label whose ends are not punctuation, or nothing |
| Labels.Cleaned | scripts/extract_resources.py:121-153 | a missing candidate cleans to nothing; a cleaned label is non-empty and starts and ends with no punctuation of the trim set |
| Labels.CleanedBlank | scripts/extract_resources.py:122-127 | an empty or whitespace-only candidate cleans to nothing |
| Labels.CleanedInfix | scripts/extract_resources.py:121-153 | a cleaned label is a contiguous piece of the whitespace-stripped candidate |
| Labels.TrimmedInfix | scripts/extract_resources.py:129-139 | the trailing-phrase loop plus the punctuation strip keep a contiguous piece of the text |
| Labels.StopInfix | scripts/extract_resources.py:140-142 | the determiner pass keeps a contiguous piece of the text |
| Labels.LeadInfix | scripts/extract_resources.py:144-151 | the connective loop keeps a contiguous piece of the text |
| Labels.FinishedInfix | scripts/extract_resources.py:153 | the final strip keeps a contiguous piece of the text |
| Labels.FindTrailingPhrase | scripts/extract_resources.py:133-137 | the inner `for phrase` loop finds the first trailing phrase in table order |
| Labels.TrimTrailingPhrases | scripts/extract_resources.py:129-137 | the `while changed` loop computes `TrailingTrimmed` |
| Labels.StripStopPrefixes | scripts/extract_resources.py:140-142 | the `for prefix` pass removes each determiner at most once, in table order, case-sensitively |
| Labels.FindLeadPhrase | scripts/extract_resources.py:147-151 | the inner `for phrase` loop finds the first leading connective in table order |
| Labels.StripLeadPhrases | scripts/extract_resources.py:144-151 | the `while trimmed` loop computes `LeadStripped` |
| Labels.CleanLabel | scripts/extract_resources.py:121-153 | `_clean_label` computes `Cleaned` |
| Labels.LastSegment | scripts/extract_resources.py:202 | `re.split(r"[\.;!?\n]", s)[-1]` contains no break character and is preceded by one unless it is all of `s` |
| Labels.LastSegmentSuffix | scripts/extract_resources.py:202 | the last segment is a suffix of the text |
| Labels.ContextTail | scripts/extract_resources.py:205 | `before[-160:]` is the last `min(160, len(before))` characters of `before` |
| Labels.ResolveLabel | scripts/extract_resources.py:198-208 | a resolved link always gets a non-empty label, and a non-placeholder link text is used as the label, stripped |
| Labels.CleanedWithin | scripts/extract_resources.py:203-205 | cleaning a piece of the preceding text gives a piece of the preceding text |
| Labels.ResolvedFromContext | scripts/extract_resources.py:199-206 | a placeholder link is labelled with text that stood before it, or with `"Resource link"` |
| Labels.LinkLabel | scripts/extract_resources.py:198-208 | the label code of `_parse_cell` computes `ResolveLabel` |
| Runs.ParseRuns | scripts/extract_resources.py:156-181 | `_parse_runs` computes `RunsOf`: the first loop's parts with their `after` texts filled in |
| Runs.FillAfter | scripts/extract_resources.py:174-179 | the second loop gives every link part the text of `full` that follows it and changes nothing else |
| Runs.PlainNodeParts | scripts/extract_resources.py:160-172 | the parts made for one child spell out exactly that child's visible text, whether it is a hyperlink or not |
| Runs.PlainAppend | scripts/extract_resources.py:174 | the text of two part lists put together is their two texts put together |
| Runs.PlainSameTexts | scripts/extract_resources.py:174 | part lists that show the same texts spell out the same paragraph |
| Runs.FirstPassPlain | scripts/extract_resources.py:160-174 | the text the first loop's parts spell out (its `plain`, and the `full` of the second loop) is the concatenation of the children's visible texts |
| Runs.FirstPassParts | scripts/extract_resources.py:160-172 | every part of the first loop is a non-empty text, or a link whose `before` is exactly the text of the parts before it and whose `url`, when present, is one of the targets in `rels` |
| Runs.RunsText | scripts/extract_resources.py:156-181 | the parts `_parse_runs` returns spell out the visible text of the paragraph's children |
| Runs.RunsParts | scripts/extract_resources.py:156-181 | every link part `_parse_runs` returns has `before` equal to the text before it, `after` equal to the text after it, and a `url` from `rels` |
| Runs.FilledPart | scripts/extract_resources.py:174-179 | filling in `after` turns a link that knows its `before` into one that knows its whole context |
| Runs.FilledTexts | scripts/extract_resources.py:174-179 | filling in `after` changes no part's text, so the text on either side of a part stays the same |
| Runs.LinkContext | scripts/extract_resources.py:178-179 | `full[len(before) + len(label):]` is exactly the text of the parts after the link |
| Cells.ParagraphText | scripts/extract_resources.py:190 | a paragraph's text is empty or has no whitespace at either end |
| Cells.ParagraphTexts | scripts/extract_resources.py:188-190 | one text per paragraph, each empty or with no whitespace at either end |
| Cells.ParseParagraph | scripts/extract_resources.py:189-210 | one pass of the paragraph loop yields the paragraph's stripped text and its links |
| Cells.ParagraphLinks | scripts/extract_resources.py:194-210 | the link loop keeps exactly the link parts with a non-empty target, in order, each labelled by `ResolveLabel` |
| Cells.ParseCell | scripts/extract_resources.py:184-212 | `_parse_cell` computes `CellOf`: the joined text of the non-blank paragraphs and the links of every paragraph, in order |
| Cells.PartLinksValid | scripts/extract_resources.py:194-196 | links kept from parts whose targets come from `rels` have a label, a target, and a target from `rels` |
| Cells.CellLinksValid | scripts/extract_resources.py:184-212 | every link of a cell has a non-empty label and a non-empty target that is one of the document's relationship targets |
| Cells.CellTextJoined | scripts/extract_resources.py:212 | the final `strip()` of a cell removes nothing, and the cell text is empty exactly when every paragraph is blank |
| Cells.JoinStripped | scripts/extract_resources.py:212 | joining stripped texts by newlines leaves nothing for `strip()` to remove |
| Rows.ParseRow | scripts/extract_resources.py:245 | the list comprehension over the cells computes `RowOf` |
| Rows.ClassifyRow | scripts/extract_resources.py:246-253 | a row is skipped, a category header, a section header or a continuation, decided by its first cell's text as in lines 246-266; a category header's letter is a capital, and a section header's captures are a capital and one or more digits |
| Rows.AddCategoryRow | scripts/extract_resources.py:253-264 | a category row appends one category with the letter, the stripped title, and the second cell's text and links |
| Rows.SectionOf | scripts/extract_resources.py:277-296 | a section takes its status from the second cell, its description from the third (else the second), and the links of the third then the second |
| Rows.AddSectionRow | scripts/extract_resources.py:266-297 | a section row computes `SectionAdded` and leaves `current_category` at the last category |
| Rows.ContinueSection | scripts/extract_resources.py:300-313 | a continuation appends the other cells' non-blank texts to the description, joined by spaces and stripped, and their links to the links |
| Rows.ExtendLinks | scripts/extract_resources.py:312-313 | the `extend` loop appends the links of every other cell, in order |
| Rows.ContinueRow | scripts/extract_resources.py:300-313 | a continuation row computes `Continuation`: only the last section of the current category changes, and only when there is one |
| Rows.ContinuationStep | scripts/extract_resources.py:300-313 | a continuation row never changes the number of categories |
| Rows.ApplyKind | scripts/extract_resources.py:252-313 | each branch of the loop body computes `StepKind` for its kind and leaves `current_category` at the last category |
| Rows.WalkRow | scripts/extract_resources.py:244-313 | one pass of the loop body computes `StepRow` and keeps `current_category` at the last category |
| Rows.Extract | scripts/extract_resources.py:225-315 | `extract` fails on a missing body, table or row, and otherwise returns the categories built from the rows after the header of the first table |
| Patterns.DigitRunFacts | scripts/extract_resources.py:241 | `(\d+)` takes digits only, and all of them up to the first non-digit |
| Patterns.DigitRunExact | scripts/extract_resources.py:241 | the digit run is exactly the one that stops at the first non-digit |
| Patterns.SpaceRunFacts | scripts/extract_resources.py:240-241 | `\s*` takes whitespace only, and all of it up to the first other character |
| Patterns.LineRunFacts | scripts/extract_resources.py:240-241 | `.+` takes everything up to the first newline |
| Patterns.SpacedTailFromFacts | scripts/extract_resources.py:240-241 | with `\s*` backtracking from `k`, `\s*(.+)` fails exactly when the first `k + 1` characters are newlines, and otherwise captures the whole line at the last offset up to `k` that is not a newline |
| Patterns.SpacedTailFacts | scripts/extract_resources.py:240-241 | `\s*(.+)` matches unless the text is only newlines, and captures the whole line starting where the greedy `\s*` stops: the last offset inside the leading whitespace that is not a newline |
| Patterns.CategoryMatchFacts | scripts/extract_resources.py:240-253 | `^([A-Z])\.\s*(.+)` matches exactly a capital, a dot and something not only newlines; it captures the letter and the line after the greedy `\s*`, and such a text never matches the section pattern |
| Patterns.SectionMatchFacts | scripts/extract_resources.py:241 | `^([A-Z])(\d+)\.\s*(.+)` matches exactly a capital, one or more digits, a dot and something not only newlines, and captures the letter, all the digits and the line after the greedy `\s*` |
| Patterns.SectionMatchIf | scripts/extract_resources.py:241 | every text of that shape matches the section pattern |
| Patterns.SectionMatchOnly | scripts/extract_resources.py:241 | a text that matches the section pattern has that shape, and its captures are the letter, all the digits and the line after the greedy `\s*` |
| Patterns.SectionHeadWellFormed | scripts/extract_resources.py:241 | a section header's captures are a capital letter and one or more digits |
| Patterns.LineAfterSpacesUnique | scripts/extract_resources.py:240-241 | `\s*(.+)` has one capture: the greedy `\s*` leaves `(.+)` a single place to start, and `(.+)` runs to the end of that line |
| Patterns.SectionCapturesUnique | scripts/extract_resources.py:241 | a text has at most one set of section captures, so the letter, digits and title of a section header are determined |
| Patterns.SpacesCrossNewline | scripts/extract_resources.py:240-241 | `\s*` crosses newlines before the title: after `" \n foo"` the title captured is `"foo"` |
| Rows.ClassifyWellFormed | scripts/extract_resources.py:250-266 | a category header's letter is a capital, and a section header's code is a capital and digits |
| RowProperties.AddSectionLands | scripts/extract_resources.py:267-297 | a section goes to the end of the last category if that category has its letter, else of a new empty `Misc` category; nothing else changes |
| RowProperties.SectionRowLands | scripts/extract_resources.py:266-297 | the same for the section a section row builds |
| RowProperties.ReplaceLastSectionEffect | scripts/extract_resources.py:300-301 | replacing the last section touches only the last category, and in it only the last section |
| RowProperties.ContinuationEffect | scripts/extract_resources.py:300-313 | a continuation row replaces the last section of the last category by its continuation; nothing else changes |
| RowProperties.CellTextStripped | scripts/extract_resources.py:212 | the text `_parse_cell` returns has no leading or trailing whitespace |
| RowProperties.ParsedRowsStripped | scripts/extract_resources.py:245 | every cell text of every parsed row is stripped |
| RowProperties.PairJoined | scripts/extract_resources.py:302-311 | joining two stripped texts with a space, dropping empty ones, and stripping gives the first, the second, or the first, a space and the second |
| RowProperties.PairKeepsFirst | scripts/extract_resources.py:302-311 | a stripped first text stays at the front of the joined and stripped pair, whatever the second is |
| RowProperties.ContinuedAppends | scripts/extract_resources.py:300-311 | with stripped cell texts, a continuation's description is the old one, a space and the new cells' non-blank texts joined by spaces; or just one of the two when the other is empty |
| RowProperties.ContinuedExtends | scripts/extract_resources.py:300-313 | a continuation keeps the section's code, title and status, keeps the old description at the front of the new one, and only adds links |
| RowProperties.AppendWellFormed | scripts/extract_resources.py:263 | appending a well-formed category keeps the list well-formed |
| RowProperties.AddSectionWellFormed | scripts/extract_resources.py:267-297 | adding a section whose code is its letter and digits keeps the categories well-formed, wherever it lands |
| RowProperties.SectionAddedWellFormed | scripts/extract_resources.py:266-297 | a section row with a well-formed header keeps the categories well-formed |
| RowProperties.ReplaceLastSectionWellFormed | scripts/extract_resources.py:300-313 | replacing the last section by one with the same code keeps the categories well-formed |
| RowProperties.ContinuationWellFormed | scripts/extract_resources.py:300-313 | a continuation row keeps the categories well-formed |
| RowProperties.StepKindWellFormed | scripts/extract_resources.py:252-313 | each branch of the loop body keeps the categories well-formed |
| RowProperties.StepRowWellFormed | scripts/extract_resources.py:243-313 | one row of stripped cell texts keeps the categories well-formed, descriptions stripped included |
| RowProperties.AddSectionExtends | scripts/extract_resources.py:267-297 | a section row only appends, to the last category or as a new one |
| RowProperties.ReplaceLastSectionExtends | scripts/extract_resources.py:300-313 | replacing the last section by an extension of it removes, reorders and renames nothing |
| RowProperties.ContinuationExtends | scripts/extract_resources.py:300-313 | a continuation row removes, reorders and renames nothing, and only extends the last section's description and links |
| RowProperties.StepKindExtends | scripts/extract_resources.py:252-313 | no branch of the loop body removes, reorders or renames a category or a section, shortens a description or drops a link |
| RowProperties.StepRowExtends | scripts/extract_resources.py:243-313 | one row only appends categories and sections, extends descriptions and adds links |
| RowProperties.WalkedRowsWellFormed | scripts/extract_resources.py:243-315 | after any number of rows, every category code is a capital letter and every section code is that letter followed by digits, and every section description is stripped |
| RowProperties.WalkedRowsExtend | scripts/extract_resources.py:243-315 | what the first `k` rows built is kept, unrenamed and in order, by all later rows; descriptions only grow at their end |
| RowProperties.ExtractFacts | scripts/extract_resources.py:225-315 | `extract` fails exactly on a missing body, table or row, and otherwise returns well-formed categories, every section description stripped |
| RowProperties.ExtractFirstTable | scripts/extract_resources.py:229 | tables after the first one do not change the result |

## Left out

- Reading the file (lines 216-224) is not modelled: the existence check, the zip archive, XML parsing and building `rel_map`. The model starts from the relationship map and from the document as data:
  - a body is a list of tables, each a list of rows, each a list of cells;
  - a cell is a list of paragraphs, in the order `findall('.//w:p')` finds them;
  - a paragraph is a list of children, each with the `w:t` texts beneath it.
- `main` (lines 318-327) is not modelled. It writes JSON and prints.
- The `FileNotFoundError` for a missing file is left out with the file I/O. The three `RuntimeError`s are the `ExtractError` values.
- `DOCX_NAME`, `OUTPUT_PATH` and `NS` are left out. They name files and XML namespaces only.
- Lower-casing (`Text.Lower`): only ASCII capitals are lower-cased. Python's `str.lower` also maps non-ASCII letters. Some of them become ASCII, such as the Kelvin sign to `k`, and some change length. A placeholder or phrase that only matches after such a mapping is not modelled.
- Rows.IsDigit: `\d` is taken as the ASCII digits. Python's `\d` on `str` patterns also accepts other Unicode decimal digits.
- Descriptions are proved to grow only at their end (`RowProperties.SectionExtends`). Their exact text across several continuation rows is stated only one row at a time (`RowProperties.ContinuedAppends`).
- Uniqueness of category or section codes is not stated. The code does not guarantee it: a repeated header letter opens a second category, and a repeated section code appends a second section.
