# DocNumberExtractor in Dafny

A Dafny model of `DocNumberExtractor`, the serializer of the doc-converter service. It
walks the paragraphs of a parsed Word document in order and writes one text stream:

- **List items** get a hierarchical dotted number (`2.1.4`). The number comes from ten
  per-level counters (`counters`, `lastLevel`). The counters are reset when a list item stands
  more than six positions after the previous one (`lastParagraphNumber`, `MAX_PARAGRAPH_GAP`).
- **Table cells** are written as `||cell` fields, with `\nTable:\n` before the first
  cell of a table. Every completed row is padded with `||-` to ten fields and closed by
  `||+++\n`. A cell whose processing raises gets `||ERROR||+++\n`.
- **Normal paragraphs** are written as their trimmed text and an empty line. When the
  text looks like a chapter title (`第X章`, `第X部分`), a line of fifty `+` comes first.

The files follow the structure of the class:

| file | module | what |
|---|---|---|
| `java_string.dfy` | `JavaString` | `String.trim`, the regex `\s` class, `lastIndexOf`, char counting, `Integer.toString` and its inverse |
| `cell_text.dfy` | `CellText` | `processCellContent` and its line-break and space rewriting |
| `document.dfy` | `Document` | the paragraph record the document library supplies |
| `numbering.dfy` | `Numbering` | the counter state, `updateCounters`, `resetCounters`, `generateNumber` as functions, and the dotted number's decoding |
| `headings.dfy` | `Headings` | `shouldAddSeparator`, with the title regex decided by a scan and proved equal to the language the pattern denotes |
| `tables.dfy` | `Tables` | `processTableCell` and `countCellsInCurrentRow` as the text a cell appends, and what a whole row writes |
| `extraction.dfy` | `Extraction` | the loop of `extract` as two folds over the paragraphs: the counter state (or the first failure) and the builder text |
| `extractor.dfy` | `Extractor` | the class `DocNumberExtractor`, with `counters: array<int>` and the two `int` fields, and methods proved against the functions above |

The methods of `Extractor` are the imperative part: the in-place counter loops, the
field updates and the builder appends. Each one ensures that its result or new state
equals a specification function of the other modules. The properties are lemmas about
those functions.

The source handles three things that have no direct Dafny counterpart; the model makes
each one explicit:

- A list level outside 1..10 makes `counters[...]` throw, and the exception leaves
  `extract`. The model returns `Err(LevelOutOfRange(index, ilvl))` and also states the
  counter state that the exception leaves behind (`FailureState`). Such a level does not
  need to be excluded by a precondition.
- Inside `processTableCell`'s `try`, only the document library's `para.text()` can raise:
  the two boundary checks catch their own exceptions, and the text normalisation, the row
  count and the appends raise nothing. That call comes before any append, so a failing
  cell writes the sentinel alone. Each paragraph carries a `cellFault` input saying
  whether the call raises.
- `isFirstCellInTable` compares the paragraph's start offset with its table's, and
  `isTableRowEnd` reads a flag of the paragraph. Both answers are input booleans, set to
  `false` where the source's catch returns `false`.

Source paths below are relative to the repository root.

## Model

| member | source | states |
|---|---|---|
| JavaString.TrimStartSpec | src/main/java/com/rjgf/docconverter/service/DocNumberExtractor.java:40 | the leading part of `trim` removes the longest prefix of chars at most U+0020, and what is left starts above U+0020 |
| JavaString.TrimEndSpec | src/main/java/com/rjgf/docconverter/service/DocNumberExtractor.java:40 | the trailing part of `trim` removes the longest suffix of chars at most U+0020 |
| JavaString.TrimEmptyIff | src/main/java/com/rjgf/docconverter/service/DocNumberExtractor.java:97-98 | `trim()` is empty exactly when every char of the input is at most U+0020 (the blank test of `processCellContent`) |
| JavaString.TrimIdempotent | src/main/java/com/rjgf/docconverter/service/DocNumberExtractor.java:184 | trimming twice is trimming once, so the second `trim` in `shouldAddSeparator` changes nothing |
| JavaString.LastIndexOfSpec | src/main/java/com/rjgf/docconverter/service/DocNumberExtractor.java:129 | `lastIndexOf('\n')` is -1 or a position holding a line feed, and no later position holds one |
| JavaString.ParseIntToString | src/main/java/com/rjgf/docconverter/service/DocNumberExtractor.java:155 | the decimal rendering `append(int)` writes reads back as the same integer |
| CellText.CellContentBlank | src/main/java/com/rjgf/docconverter/service/DocNumberExtractor.java:91-100 | a null cell and a cell of chars at most U+0020 become `-` |
| CellText.CellContentNormalized | src/main/java/com/rjgf/docconverter/service/DocNumberExtractor.java:91-109 | every cell content is non-empty, holds no `\n` and no `\r`, has only single plain spaces, and starts and ends above U+0020 |
| CellText.CellContentIdempotent | src/main/java/com/rjgf/docconverter/service/DocNumberExtractor.java:91-109 | normalising a normalised cell text gives it back (`processCellContent` is idempotent) |
| CellText.CellContentLineBreak | src/main/java/com/rjgf/docconverter/service/DocNumberExtractor.java:103-106 | a `\r\n` between two one-line pieces turns into `<br>` in the content |
| CellText.ReplaceLineBreaksNoNewline | src/main/java/com/rjgf/docconverter/service/DocNumberExtractor.java:103 | after `replaceAll("\\r?\\n", "<br>")` no line feed is left |
| CellText.ReplaceLineBreaksIdentity | src/main/java/com/rjgf/docconverter/service/DocNumberExtractor.java:103 | text without a line feed passes unchanged |
| CellText.ReplaceLineBreaksAppend | src/main/java/com/rjgf/docconverter/service/DocNumberExtractor.java:103 | replacing in a concatenation is replacing in each piece, unless the cut splits a `\r\n` |
| CellText.ReplaceLineBreaksAtLf | src/main/java/com/rjgf/docconverter/service/DocNumberExtractor.java:103 | a lone `\n` not after `\r` becomes `<br>` |
| CellText.CollapseSpacesCollapsed | src/main/java/com/rjgf/docconverter/service/DocNumberExtractor.java:106 | after `replaceAll("\\s+", " ")` every `\s` char is a plain space and no two of them are adjacent |
| CellText.CollapseSpacesFixpoint | src/main/java/com/rjgf/docconverter/service/DocNumberExtractor.java:106 | a string already in that form is left unchanged |
| CellText.CollapseSpacesRun | src/main/java/com/rjgf/docconverter/service/DocNumberExtractor.java:106 | a maximal run of `\s` chars becomes exactly one space, and the text on each side of it is rewritten on its own |
| Document.KindOf | src/main/java/com/rjgf/docconverter/service/DocNumberExtractor.java:43-54 | the dispatch: a table cell exactly when `inTable`, a list item when `inList` and not `inTable`, a normal paragraph otherwise |
| Numbering.Reset | src/main/java/com/rjgf/docconverter/service/DocNumberExtractor.java:219-223 | `resetCounters`: every counter zero and `lastLevel` 0, `lastParagraphNumber` kept |
| Numbering.Advance | src/main/java/com/rjgf/docconverter/service/DocNumberExtractor.java:142-149 | `updateCounters(level)` for a level with a slot: that slot rises by one, shallower slots are kept, deeper slots become 0 exactly when `level <= lastLevel` and are kept otherwise |
| Numbering.FailedAdvance | src/main/java/com/rjgf/docconverter/service/DocNumberExtractor.java:142-149 | `updateCounters(level)` for a level without a slot: only level 0 (with `lastLevel >= 0`) clears the slots before the access fails; any other level leaves them alone |
| Numbering.AdvanceInValidState | src/main/java/com/rjgf/docconverter/service/DocNumberExtractor.java:143-148 | in a reachable state the `level <= lastLevel` test makes no difference, because the deeper slots are already zero |
| Numbering.NumberValid | src/main/java/com/rjgf/docconverter/service/DocNumberExtractor.java:47-51 | the gap reset followed by numbering keeps the invariant: ten non-negative counters, `lastLevel` in 0..10, every slot from `lastLevel` on zero |
| Numbering.DotPathSegments | src/main/java/com/rjgf/docconverter/service/DocNumberExtractor.java:151-158 | cutting `generateNumber`'s result at each `.` gives one segment per counter, segment j being counter j in decimal |
| Numbering.DotPathDecodes | src/main/java/com/rjgf/docconverter/service/DocNumberExtractor.java:151-158 | the dotted number decodes back to the counters it was built from |
| Numbering.DotPathDots | src/main/java/com/rjgf/docconverter/service/DocNumberExtractor.java:151-158 | a number of `level` segments holds exactly `level - 1` dots |
| Numbering.SplitDotsSnoc | src/main/java/com/rjgf/docconverter/service/DocNumberExtractor.java:154-155 | cutting after one more `.` and a dot-free segment adds that segment |
| Headings.TitlePatternIff | src/main/java/com/rjgf/docconverter/service/DocNumberExtractor.java:177-178 | the scan that decides the title pattern accepts exactly the strings of the pattern's language: a run of `\s`, `第`, one to three numerals, `章` or `部分`, and a tail without line terminators |
| Headings.TailMatchesIff | src/main/java/com/rjgf/docconverter/service/DocNumberExtractor.java:177 | the optional `节` adds no strings, since `.` matches it anyway |
| Headings.TitleSurvivesTrim | src/main/java/com/rjgf/docconverter/service/DocNumberExtractor.java:184-192 | a text that matches the pattern has a non-empty trim, so `charAt(length() - 1)` exists |
| Headings.EndsWithAnyIff | src/main/java/com/rjgf/docconverter/service/DocNumberExtractor.java:185-189 | the loop over the end marks returns false exactly when one of the marks ends the text |
| Headings.EndsWithMarkIff | src/main/java/com/rjgf/docconverter/service/DocNumberExtractor.java:183-189 | the eleven end marks amount to: the last char is one of the ten sentence-ending chars, or the text ends with `...` |
| Headings.SeparatorIff | src/main/java/com/rjgf/docconverter/service/DocNumberExtractor.java:171-202 | `shouldAddSeparator` holds exactly when the text has at most 20 chars, is in the title language, its trim ends neither in a sentence mark, `...` nor a digit, and the style is not 0 or the indent exceeds 1000000 or the paragraph is centred |
| Tables.CurrentRowIsLastLine | src/main/java/com/rjgf/docconverter/service/DocNumberExtractor.java:129-130 | the current row is the final stretch of the builder, holds no line feed, and starts at the builder's start or right after its last line feed |
| Tables.CurrentRowExtend | src/main/java/com/rjgf/docconverter/service/DocNumberExtractor.java:128-132 | appending text without a line feed extends the current row by that text |
| Tables.CurrentRowAfterLineFeed | src/main/java/com/rjgf/docconverter/service/DocNumberExtractor.java:128-132 | after a line feed the current row is what follows it |
| Tables.TableCellMarker | src/main/java/com/rjgf/docconverter/service/DocNumberExtractor.java:66-68 | the segment of a cell whose text can be read starts with `\nTable:\n` exactly when the cell is the first of its table |
| Tables.TableCellFault | src/main/java/com/rjgf/docconverter/service/DocNumberExtractor.java:62-88 | a cell whose text cannot be read writes exactly `||ERROR||+++\n`, with no table marker, so the builder then ends with a line feed |
| Tables.IntactCellSegment | src/main/java/com/rjgf/docconverter/service/DocNumberExtractor.java:66-77 | a cell that does not end its row writes its marker, `||` and its normalised text, and nothing else |
| Tables.TableRowEnd | src/main/java/com/rjgf/docconverter/service/DocNumberExtractor.java:77-85 | a row end writes its cell, `max(0, 10 - currentCells)` copies of `||-` with currentCells counted on the builder holding the cell, and `||+++\n`, so the builder then ends with a line feed |
| Tables.RowPrefix | src/main/java/com/rjgf/docconverter/service/DocNumberExtractor.java:66-74 | the cells of a row before its end write the table marker of the first cell and then one field per cell, in order |
| Tables.RowCount | src/main/java/com/rjgf/docconverter/service/DocNumberExtractor.java:128-132 | the fields of k cells without `|` or line feed, written at the start of a line, count as k cells |
| Tables.RowWritten | src/main/java/com/rjgf/docconverter/service/DocNumberExtractor.java:61-89 | an intact row of plain cells written at a line boundary is the marker, its fields, padding up to ten fields and the row end |
| Tables.PaddedRowFields | src/main/java/com/rjgf/docconverter/service/DocNumberExtractor.java:79-84 | a padded row of k plain cells holds max(k, 10) fields on one line |
| Extraction.NextStateSpec | src/main/java/com/rjgf/docconverter/service/DocNumberExtractor.java:43-54 | a paragraph fails exactly when it is a list item without a slot, naming its index and `ilvl`; otherwise the state stays valid, only list items move it, and a list item records its index and level |
| Extraction.States | src/main/java/com/rjgf/docconverter/service/DocNumberExtractor.java:38-56 | the counter state after any prefix of the paragraphs is valid |
| Extraction.OutputPrefix | src/main/java/com/rjgf/docconverter/service/DocNumberExtractor.java:38-56 | the builder only grows: the text after j paragraphs is a prefix of the text after k >= j |
| Extraction.StatesPrefix | src/main/java/com/rjgf/docconverter/service/DocNumberExtractor.java:38-56 | once a paragraph fails, every longer run fails with the same error |
| Extraction.OutputStopsAtError | src/main/java/com/rjgf/docconverter/service/DocNumberExtractor.java:38-56 | after the failure nothing more is appended |
| Extraction.StatesErrorIsFirstBadLevel | src/main/java/com/rjgf/docconverter/service/DocNumberExtractor.java:135-148 | extract fails exactly when some list item has a level outside 1..10, and the error names the first such item and its `ilvl` |
| Extraction.StatesLastItem | src/main/java/com/rjgf/docconverter/service/DocNumberExtractor.java:47-51 | `lastParagraphNumber` is the index of the last list item (tables and normal paragraphs never set it), and `lastLevel` is that item's level |
| Extraction.StatesOverTable | src/main/java/com/rjgf/docconverter/service/DocNumberExtractor.java:43-44 | a run of table cells leaves the counter state alone |
| Extraction.CountersCount | src/main/java/com/rjgf/docconverter/service/DocNumberExtractor.java:142-149 | counter j holds the number of level j + 1 items since slot j was last cleared, either by a gap reset or by an item at level j or shallower |
| Extraction.CountersBounded | src/main/java/com/rjgf/docconverter/service/DocNumberExtractor.java:13 | a counter never exceeds its start value plus the number of paragraphs, so the `int` counters cannot overflow |
| Extraction.ListItemNumber | src/main/java/com/rjgf/docconverter/service/DocNumberExtractor.java:134-140 | a list item writes `" " + number + " " + trimmed text + "\n\n"`; the number has one segment per level up to its own, segment j reads back as the expected count of slot j, and the last segment is at least 1 |
| Extraction.OutputOverTable | src/main/java/com/rjgf/docconverter/service/DocNumberExtractor.java:43-44 | over a run of table cells the loop writes what `processTableCell` writes on each cell in turn |
| Extraction.RowEmission | src/main/java/com/rjgf/docconverter/service/DocNumberExtractor.java:61-89 | in the whole document, a row of intact cells without `|` in their contents, starting at a line boundary, appends the marker, the fields, the padding up to ten fields and the row end, and leaves the counters alone |
| Extraction.TableStep | src/main/java/com/rjgf/docconverter/service/DocNumberExtractor.java:43-44 | a table paragraph appends its cell segment and keeps the state |
| Extraction.NormalStep | src/main/java/com/rjgf/docconverter/service/DocNumberExtractor.java:52-53 | a paragraph outside tables and lists appends its normal segment and keeps the state |
| Extraction.ListStep | src/main/java/com/rjgf/docconverter/service/DocNumberExtractor.java:45-51 | a list item with a slot goes through the gap reset and numbering, and appends its numbered line |
| Extraction.ListFailure | src/main/java/com/rjgf/docconverter/service/DocNumberExtractor.java:45-50 | a list item without a slot makes extract fail with its index and `ilvl`, and leaves the failure state in the extractor |
| Extraction.FailureState | src/main/java/com/rjgf/docconverter/service/DocNumberExtractor.java:47-50 | the state left by the exception is still valid, and `lastParagraphNumber` is not updated |
| Extraction.ErrorIndexReached | src/main/java/com/rjgf/docconverter/service/DocNumberExtractor.java:38-50 | the error of a failed run names a paragraph that the loop reached without failing earlier |
| Extraction.FinalState | src/main/java/com/rjgf/docconverter/service/DocNumberExtractor.java:34-59 | the counter state extract leaves, whether it returns or throws, is valid |
| Extraction.FileResult | src/main/java/com/rjgf/docconverter/service/DocNumberExtractor.java:24-32 | an `IOException` while parsing, or while closing after a successful extract, gives the empty string; a failure of extract itself escapes; otherwise the extracted text |
| Extractor.DocNumberExtractor.constructor | src/main/java/com/rjgf/docconverter/service/DocNumberExtractor.java:18-22 | ten zero counters, `lastLevel` 0, `lastParagraphNumber` -1 |
| Extractor.DocNumberExtractor.UpdateCounters | src/main/java/com/rjgf/docconverter/service/DocNumberExtractor.java:142-149 | the clearing loop and the increment compute `Advance` when the level has a slot; otherwise the access fails with the counters as `FailedAdvance` |
| Extractor.DocNumberExtractor.ResetCounters | src/main/java/com/rjgf/docconverter/service/DocNumberExtractor.java:219-223 | the fill loop leaves the state `Reset` of the old one |
| Extractor.DocNumberExtractor.GenerateNumber | src/main/java/com/rjgf/docconverter/service/DocNumberExtractor.java:151-158 | the builder loop produces the dotted number of the first `level` counters |
| Extractor.DocNumberExtractor.ProcessListItem | src/main/java/com/rjgf/docconverter/service/DocNumberExtractor.java:134-140 | the counters advance, `lastLevel` becomes the level and the numbered line is appended; a level without a slot leaves the builder and `lastLevel` alone |
| Extractor.DocNumberExtractor.ShouldResetCounters | src/main/java/com/rjgf/docconverter/service/DocNumberExtractor.java:209-217 | never a reset while `lastParagraphNumber` is -1, otherwise a reset exactly when more than 6 positions separate the two |
| Extractor.DocNumberExtractor.ListBranch | src/main/java/com/rjgf/docconverter/service/DocNumberExtractor.java:45-51 | the list branch fails exactly for a level without a slot; otherwise the new state is `Number` of the old one and the numbered line is appended |
| Extractor.DocNumberExtractor.Extract | src/main/java/com/rjgf/docconverter/service/DocNumberExtractor.java:34-59 | the loop returns `ExtractFrom` of the state it started in and leaves `FinalState` in the fields |
| Extractor.ProcessTableCell | src/main/java/com/rjgf/docconverter/service/DocNumberExtractor.java:61-89 | the appends of `processTableCell`, including the catch, give the cell segment |
| Extractor.CloseRow | src/main/java/com/rjgf/docconverter/service/DocNumberExtractor.java:79-84 | the padding loop appends `Padding(currentCells)` and the row end |
| Extractor.ProcessNormalParagraph | src/main/java/com/rjgf/docconverter/service/DocNumberExtractor.java:160-169 | the optional separator line, the trimmed text and an empty line |
| Extractor.ExtractFromFile | src/main/java/com/rjgf/docconverter/service/DocNumberExtractor.java:24-32 | a fresh extractor run on the parsed document gives `FileResult` |

## Left out

- Decoding the binary `.doc` with `HWPFDocument` and `Range`: the paragraphs arrive as a sequence of records. Whether parsing or closing the stream raises an `IOException` is an input (`FileOutcome`).
- `isFirstCellInTable` checks the table level and compares the paragraph's start offset with its table's start offset; `isTableRowEnd` is a flag of the paragraph. Both come from the document library. Their answers, already `false` where the source's catch returns `false`, are fields of the paragraph record.
- `extract` calls `para.text()` for every paragraph before it dispatches, outside any `try`; that first call is modelled as never raising (a raise there would leave `extract` and `extractFromFile`, which catches only `IOException`). `TextFails` means that the repeated call inside `processTableCell`'s `try` raises after the first call succeeded. Whether it does depends on the document library, so it is an input (`cellFault`); the catch itself is modelled.
- `e.printStackTrace()` in `extractFromFile` is output only and is not modelled.
- Java strings are UTF-16. Dafny chars are Unicode scalar values, so lengths differ for chars outside the Basic Multilingual Plane (the `length() > 20` test, the `charAt` of the last char).
- `Character.isDigit` is Unicode-wide. It is approximated by the ASCII digits and the full-width digits U+FF10 to U+FF19 (`Headings.IsDigit`).
- The title pattern is decided by a hand-written scan proved equal to the language of the pattern (`Headings.TitlePatternIff`), not by a regex engine.
- The `StringBuilder` shared by `extract` and the `process*` methods is never aliased. It is threaded through the methods as a string value: each method takes the builder text and returns it extended.
- The `level` parameter of `formatMarkdown` is unused in the source and does not appear in the model.
- `int` overflow of the counters is not modelled. `Extraction.CountersBounded` shows that no counter can exceed its start value plus the number of paragraphs.
- `DocConverterController` and `DocConverterService` (HTTP handling, the `.doc` suffix check, file writing) are not part of this model.
