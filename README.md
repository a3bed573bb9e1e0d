# ocr-tool text routines, modelled in Dafny

ocr-tool is a desktop tool that does several jobs:

- It reads scanned pages and PDFs with OCR.
- It cleans up and translates the recognised text.
- It reads the text aloud.
- It edits the result in a small Tk document editor.

It ships three front ends (`gui.py`, `editor.py`, `new.py`). Beneath their widget wiring are a few deterministic text routines and one small state machine. This project models them and proves what they do:

- **Page ranges** (`PageRanges`). There are three parsers of a field such as `"1-3, 5, 7-9"`:
  - The 0-based, sorted, unchecked parser of the new.py dialog.
  - The 1-based, bounds-checked page set of editor.py.
  - The same set in gui.py, where the field's placeholder also means every page.
- **Sentence chunks** (`SentenceChunks`). `split_into_chunks` packs the `.`-separated sentences greedily under a size budget.
- **Slicing** (`Slicing`). These are fixed-width slices of a text:
  - the 5000/3000 slice width `read_text` uses for speech;
  - the `". "` sentence split of `text_to_speech_google`.
- **Translation** (`Translation`). `translate_and_rewrite_text` keeps any slice the translation service answers with nothing or fails on.
- **Header and footer filter** (`HeaderFooter`). `is_header_or_footer` and the line filter of `ocr_tamil_cleaned`.
- **Text clean-up** (`OcrCleanup`).
  - In `post_process_text`: the paragraph and line merge, and the table of common OCR confusions.
  - `post_process_translation`.
- **Line blocks** (`LineBlocks`). `toggle_list` and `change_indent`, as transforms of the selected lines.
- **Durations** (`TimeFormat`). `format_time`.
- **Document state** (`DocumentState`). The editor's buffer, `current_file` and `is_modified`, driven by new, open, save, save-as and key presses.

`PyText` models the Python string operations these routines use. Its models of `strip`, `split`, `splitlines`, `join`, `replace`, `count`, `int()` and `str()` are what the other modules are stated in terms of. `Outcomes` holds `Option` and `Result`.

Several parts of the source are duplicated. Each is modelled once, and the rows below cite one site:

- The checked page-range loop (editor.py:755-773, gui.py:326-341).
- `translate_and_rewrite_text` (gui.py:22-46, editor.py:650-675).
- `is_header_or_footer` and the filter (gui.py:60-75, editor.py:634-648).
- `format_time` (gui.py:205-215; new.py:761-772 is the same after `int()`).
- The document methods (editor.py:213-307, new.py:491-585).

Three observations the proofs make precise:

- The page-number test of `is_header_or_footer` never changes the outcome for a page below 10000. The length test already drops such a line (`HeaderFooter.PageNumberTestSubsumed`).
- The final `return text` of `translate_and_rewrite_text` is never reached by a non-blank text (`Translation.SomePieceForNonBlank`).
- In `post_process_translation`, the `\s*\n\s*` substitution can never match after the whitespace collapse. So the model leaves it out without loss.

## Model

| member | source | states |
|---|---|---|
| PyText.Strip | editor.py:265 | `str.strip()`: the whitespace of both ends removed; what that leaves is stated by `StripShape`, `StripEmptyIffBlank` and `NonSpaceStrip` |
| PyText.StripShape | editor.py:265 | `strip()` removes exactly a leading and a trailing run of whitespace: the result is a slice of the text with only whitespace around it, and neither end of a non-empty result is whitespace |
| PyText.StripEmptyIffBlank | editor.py:266 | a stripped text is empty exactly when every character of the text is whitespace |
| PyText.Split | new.py:945 | `str.split(sep)`: always at least one piece; joining the pieces with `sep` gives the text back (`JoinSplit`) |
| PyText.JoinSplit | new.py:945 | joining the pieces of `s.split(sep)` with `sep` gives `s` back |
| PyText.SplitLines | editor.py:634 | `str.splitlines()`, cutting at every Python line boundary; no piece holds one (`SplitLinesBreakFree`) |
| PyText.SplitLinesBreakFree | editor.py:634 | no line produced by `splitlines()` holds a line break |
| PyText.NonSpaceJoin | new.py:969 | joining pieces with a whitespace separator keeps their non-whitespace characters, in order, and adds none |
| PyText.Replace | new.py:989 | `str.replace(old, new)`, left to right without overlap; its effect on character counts is stated by `OcrCleanup.ReplaceCharCount` and `OcrCleanup.ReplaceKeepsCount` |
| PyText.Count | new.py:1432 | `str.count(sub)`, counting non-overlapping occurrences left to right; `LineBlocks.CountRepeat` states it on an indentation |
| PyText.IntTrim | new.py:732 | the whitespace `int()` skips is removed from both ends, leaving neither end such whitespace |
| PyText.ParseInt | new.py:732 | `int()` on a text: `None` where it raises; it reads back every `str(n)` (`ParseIntOfIntToStr`) |
| PyText.IntKeepsSeparators | new.py:732 | `strip()` removes U+001C but `int()` does not skip it, so `int("\x1c3")` raises; `int()` does skip U+0085 |
| PyText.ParseIntOfIntToStr | new.py:732 | `int(str(n)) == n` for every integer |
| PyText.NatToStrValue | gui.py:211 | the decimal text of a natural number is all digits and reads back as that number |
| PageRanges.ParseBounds | new.py:727 | `start, end = map(int, part.split('-'))` succeeds exactly when the part has two pieces that `int()` accepts, and gives their values |
| PageRanges.SortedUnique | new.py:733 | `sorted(set(xs))` is strictly increasing and holds exactly the elements of `xs` |
| PageRanges.IncreasingUnique | new.py:733 | a strictly increasing list is determined by its elements, so `SortedUnique` is pinned down by its contract |
| PageRanges.ZeroBasedPart | new.py:726-732 | the indices one part of the new.py field adds; its meaning is stated by `ZeroBasedRangePart` and `ZeroBasedPartNonEmpty` |
| PageRanges.ZeroBasedPages | new.py:718-733 | the whole new.py parse; its meaning is stated by `ZeroBasedPagesAccepted` and `ZeroBasedPagesRejected` |
| PageRanges.ZeroBasedStep | new.py:726-732 | one part adds `range(start-1, end)` or `int(part)-1`, or raises the error `ZeroBasedPart` names |
| PageRanges.CollectZeroBased | new.py:725-732 | the loop ends with the indices of all parts appended in order, or with the first part's error |
| PageRanges.CollectIndicesMeaning | new.py:725-732 | the loop succeeds exactly when every part does; the indices are then exactly those of the parts, and a failure carries the error of the first failing part |
| PageRanges.ParseZeroBasedPages | new.py:718-736 | `validate_and_process` gives `None` for an empty or `all` field, else the sorted, duplicate-free indices of the parts, or the first error |
| PageRanges.ZeroBasedRangePart | new.py:726-730 | a range part `a-b` is refused exactly when `a > b` and otherwise stands for the indices `a-1 .. b-1` |
| PageRanges.ZeroBasedPartNonEmpty | new.py:726-732 | every accepted part adds at least one index |
| PageRanges.ZeroBasedPagesAccepted | new.py:718-733 | `None` exactly for an empty field or `all` in any case; otherwise an accepted field gives a non-empty strictly increasing list equal to the union of the parts' indices |
| PageRanges.ZeroBasedPagesRejected | new.py:726-736 | a field is refused exactly when one of its parts is, with the first failing part's error |
| PageRanges.ZeroBasedPageZero | new.py:732 | no lower bound is checked: the field `"0"` gives index `-1` |
| PageRanges.CheckedPart | editor.py:760-770 | the pages one stripped part of the field names, or its error; stated by `CheckedRangePart`, `CheckedSinglePart` and `CheckedPartInBounds` |
| PageRanges.CheckedPages | editor.py:759-770 | the checked parse of the editor.py field; stated by `CheckedPartsMeaning` |
| PageRanges.CheckedStep | editor.py:760-770 | one stripped part adds the pages `start..end` when `1 <= start <= end <= total`, the single page when it lies in `1..total`, and raises otherwise |
| PageRanges.CollectChecked | editor.py:759-770 | the checked loop ends with the union of all parts' pages, or with the first part's error |
| PageRanges.CheckedPageSet | editor.py:758-770 | the checked parse of a field is the checked loop over its comma-separated parts |
| PageRanges.CollectPagesMeaning | editor.py:759-770 | the checked loop succeeds exactly when every part does; the set is then exactly the union of the parts' pages, and a failure carries the first failing part's error |
| PageRanges.CheckedPartInBounds | editor.py:763-770 | an accepted part names at least one page and only pages in `1..total` |
| PageRanges.CheckedRangePart | editor.py:761-765 | a range part `a-b` is accepted exactly when `1 <= a <= b <= total` and then stands for the pages `a..b` |
| PageRanges.CheckedSinglePart | editor.py:767-770 | a single page is accepted exactly when it lies in `1..total`, and otherwise raises an invalid-page error for that number |
| PageRanges.CheckedPartsMeaning | editor.py:758-773 | the field is accepted exactly when every part is; the set is then non-empty, within `1..total` and the union of the parts; a refusal carries the first failing part's error |
| PageRanges.CollectPagesBounded | editor.py:758-770 | a union of non-empty parts within `1..total` is non-empty and within `1..total` |
| PageRanges.AllPages | editor.py:823 | `range(1, total_pages + 1)` holds exactly the pages `1..total` |
| PageRanges.EditorPageSelection | editor.py:755-773 | an empty field selects nothing yet (`None`); anything else is accepted as the checked set or refused with its error |
| PageRanges.PagesToProcess | editor.py:822-823 | the pages editor.py goes on to read; stated by `EditorPagesProcessed` |
| PageRanges.EditorPagesProcessed | editor.py:822-823 | an empty field makes editor.py process every page; an accepted field makes it process exactly the accepted set, which lies in `1..total` |
| PageRanges.GuiPageSelection | gui.py:318-341 | an empty field or the untouched placeholder selects every page; anything else goes through the checked parse |
| PageRanges.PlaceholderIsNotARange | gui.py:322 | the placeholder text itself would be refused by the checked parse, so it must be special-cased |
| PageRanges.FirstPartRefused | gui.py:326-341 | a refused first part makes the whole field refused |
| SentenceChunks.Sentences | new.py:1123-1126 | there is one sentence per `.`-piece of the text, at least one |
| SentenceChunks.SentencesOf | new.py:1126 | sentence `k` is piece `k` stripped, with a period appended |
| SentenceChunks.WellPackedSnoc | new.py:1128-1131 | closing a fitting group whose successor overflowed it keeps the packing well formed |
| SentenceChunks.NextKeepsInv | new.py:1128-1134 | one turn of the packing loop keeps its invariant: sizes, order of the sentences, well-packed closed chunks |
| SentenceChunks.PackInvariant | new.py:1125-1134 | after any prefix of sentences the loop state satisfies the packing invariant |
| SentenceChunks.GroupsMeaning | new.py:1125-1137 | the groups hold every sentence once, in order; none is empty; a group of two or more fits the budget; each group closed only because the next sentence would overflow it; there is a group exactly when there is a sentence |
| SentenceChunks.ChunkPieces | new.py:1125-1137 | the chunking loop returns the well-packed groups of the stripped, period-terminated pieces, each joined by single spaces |
| SentenceChunks.SplitIntoChunks | new.py:1117-1139 | `split_into_chunks` is the chunking loop over `text.split('.')` |
| SentenceChunks.SplitIntoChunksMeaning | new.py:1123-1137 | there is always at least one chunk; the chunks' sentences are the text's sentences in order; the packing respects the budget as above |
| Slicing.Slices | editor.py:497 | the slices concatenate back to the text; none is empty or wider than the width; all but the last are full |
| Slicing.SlicesUnique | editor.py:497 | any cut of the text with those three properties is the one the comprehension makes |
| Slicing.NonBlankSlice | gui.py:26-31 | a text that is not blank has a slice that is not blank |
| Slicing.ReadChunkSize | editor.py:496 | the speech slice width is 5000 or 3000 |
| Slicing.SpeechLanguage | editor.py:485-493 | `lang_map.get(detected_lang, 'en')`; stated by `ReadTextChunksShape` |
| Slicing.ReadTextChunks | editor.py:495-497 | the speech slices of `read_text`; stated by `ReadTextChunksShape` |
| Slicing.ReadTextChunksShape | editor.py:485-497 | English and every unmapped language are read in slices of 5000, the five other mapped languages in slices of 3000; the slices rebuild the text and all but the last are full |
| Slicing.SpeechSentences | gui.py:95-114 | one speech chunk per piece of `text.split('. ')`, in order; each ends with `.`, and it is its piece with a `.` added exactly when the piece lacks one |
| Slicing.PeriodTerminated | gui.py:112-114 | every chunk ends with `.` and is its piece, with a `.` added only when missing |
| Slicing.SpeechSentencesKeepText | gui.py:95-114 | the pieces joined by `". "` are the text, and each chunk is its piece followed by at most one period |
| Translation.Pieces | gui.py:29-41 | one piece per slice, each the service's answer or the fallback |
| Translation.PieceOf | gui.py:35-41 | the piece one slice contributes; stated by `PieceFallback` |
| Translation.PieceFallback | gui.py:35-41 | a piece is the service's answer when that is a non-empty text, and the untouched slice when the answer is empty, `None` or an exception |
| Translation.NonBlankMembers | gui.py:29-31 | the loop skips exactly the blank slices |
| Translation.NonBlankAll | gui.py:29-31 | when no slice is blank, none is skipped |
| Translation.SomePieceForNonBlank | gui.py:43-46 | a non-blank text always yields at least one piece |
| Translation.TranslateSlices | gui.py:29-41 | the loop collects one piece per non-blank slice, in order |
| Translation.TranslateAndRewrite | gui.py:22-46 | blank input comes back unchanged; otherwise the result is the pieces of the non-blank 2000-character slices joined by single spaces |
| Translation.PiecesUntranslated | gui.py:35-41 | when the service never returns text, every piece is its slice |
| Translation.UntranslatedPage | gui.py:26-44 | with a failing service a page comes back as its slices joined by spaces, so a space is inserted every 2000 characters; a page of at most 2000 characters comes back unchanged |
| HeaderFooter.MatchesPageNumber | editor.py:644 | the page-number pattern as a test on the line; stated by `MatchesPageNumberIff` |
| HeaderFooter.IsHeaderOrFooter | editor.py:642-648 | `is_header_or_footer`; stated by `IsHeaderOrFooterIff` |
| HeaderFooter.MatchesPageNumberIff | editor.py:644 | the page-number regular expression matches exactly when the trimmed line is `str(page_number)` |
| HeaderFooter.IsHeaderOrFooterIff | editor.py:642-648 | a line is a header or footer exactly when, trimmed, it is the page number or shorter than five characters |
| HeaderFooter.PageNumberTestSubsumed | editor.py:644-647 | for pages `0..9999` only the length test matters |
| HeaderFooter.KeepIff | editor.py:637 | the filter test keeps exactly the lines that are not headers or footers, all of trimmed length at least five |
| HeaderFooter.FilterMembers | editor.py:636-638 | a filtered line is exactly an input line that passes the test |
| HeaderFooter.KeptMembers | editor.py:634-638 | the kept lines are exactly the input lines that are neither blank nor a header or footer |
| HeaderFooter.KeptAppend | editor.py:636-638 | the filter distributes over concatenation, so the original order is kept |
| HeaderFooter.KeptIdempotent | editor.py:636-638 | filtering the kept lines again removes nothing |
| HeaderFooter.KeepLines | editor.py:635-638 | the loop collects exactly the kept lines, in order |
| HeaderFooter.CleanPageText | editor.py:634-640 | the cleaned page is the kept lines of `splitlines()`, joined by single spaces |
| OcrCleanup.MergedText | new.py:945-973 | the paragraph and line merge of `post_process_text`; stated by `MergedTextMeaning` |
| OcrCleanup.MergeLines | new.py:950-969 | whatever the closing-mark test decides, the merged paragraph is its stripped non-empty lines joined by single spaces |
| OcrCleanup.MergeParagraph | new.py:949-969 | one paragraph becomes its stripped non-empty lines joined by single spaces |
| OcrCleanup.CleanAll | new.py:946-971 | the paragraph loop keeps, in order, the merged paragraphs that are not empty |
| OcrCleanup.MergeText | new.py:945-973 | the merge is the cleaned non-empty paragraphs joined by blank lines |
| OcrCleanup.StrippedLinesContent | new.py:953-956 | stripping lines and dropping empty ones keeps every non-whitespace character, in order |
| OcrCleanup.ParagraphContent | new.py:949-969 | merging a paragraph changes only its whitespace |
| OcrCleanup.CleanParagraphsContent | new.py:947-971 | cleaning the paragraphs changes only their whitespace |
| OcrCleanup.CleanParagraphsNonEmpty | new.py:970-971 | no cleaned paragraph is empty |
| OcrCleanup.MergedTextMeaning | new.py:945-973 | the merge keeps every non-whitespace character of the text, in order, adds none, and leaves no empty paragraph |
| OcrCleanup.CommonFixed | new.py:976-989 | the table of common fixes applied in order; stated by `CommonFixesMeaning`, `CommonFixesKeep` and the count lemmas |
| OcrCleanup.ReplaceAll | new.py:988-989 | the substitution loop applies the table's replacements one after the other, in table order |
| OcrCleanup.ReplaceCommonFixes | new.py:976-989 | the substitution loop applies the nine common fixes in dictionary order |
| OcrCleanup.ApplyFixesAppend | new.py:988-989 | applying two tables one after the other is applying their concatenation |
| OcrCleanup.ReplaceCharShape | new.py:989 | replacing one character by another maps the text character by character |
| OcrCleanup.ReplaceCharCount | new.py:989 | a one-character replacement removes the target and adds its count to the replacement's |
| OcrCleanup.ReplaceKeepsCount | new.py:989 | a replacement leaves alone the count of a character in neither the target nor the replacement |
| OcrCleanup.ReplaceRnLeavesNone | new.py:981 | replacing `"rn"` by `"m"` leaves no `"rn"` |
| OcrCleanup.CommonFixesLetterCounts | new.py:976-989 | no `0`, vertical bar or `1` is left; since `l` to `I` runs first, every `l` of the result was a `1`; the `I`s and `O`s are counted exactly |
| OcrCleanup.CommonFixesBracketCounts | new.py:982-989 | no square bracket or brace is left; every parenthesis was a parenthesis, bracket or brace of its side |
| OcrCleanup.CommonFixesKeep | new.py:976-989 | every character the table does not mention occurs as often as before |
| OcrCleanup.CommonFixesLeaveNoRn | new.py:981-989 | no `"rn"` is left after the whole table |
| OcrCleanup.CommonFixesMeaning | new.py:976-989 | the result holds no `0`, vertical bar, `1`, square bracket or brace, and no `"rn"` |
| OcrCleanup.PostProcessText | new.py:940-989 | an empty text comes back as it is; any other is merged and then has the table applied |
| OcrCleanup.CollapseSpace | new.py:1111 | `re.sub(r'\s+', ' ', …)`; stated by `CollapseSpaceShape` |
| OcrCleanup.CollapseSpaceShape | new.py:1111 | after `re.sub(r'\s+', ' ', …)` the only whitespace is single spaces; nothing else changed; the text is empty or starts with whitespace exactly when the input is or does |
| OcrCleanup.StripSingleSpaced | new.py:1113 | stripping a single-spaced text leaves it single spaced, without newlines or spaces at either end |
| OcrCleanup.PostProcessTranslation | new.py:1106-1115 | `post_process_translation`; stated by `PostProcessTranslationMeaning` |
| OcrCleanup.PostProcessTranslationMeaning | new.py:1106-1115 | the result has no newline, only single spaces between words, no space at either end, and every non-whitespace character of the pieces in order |
| LineBlocks.IsList | new.py:1391-1401 | whether the first line already carries the list's marker; stated by `BulletMarkerIsList` and `NumberMarkerIsList` |
| LineBlocks.Marker | new.py:1410 | the marker of line `i`: `"• "` or `"i. "`; that the next toggle removes it is `UnmarkOnce` |
| LineBlocks.ToggleLines | new.py:1404-1411 | the loop gives line `i` its stripped form, prefixed by its marker unless the block is a list |
| LineBlocks.ToggleList | new.py:1390-1415 | the block's lines are toggled the way the first line decides and joined again |
| LineBlocks.ToggleListLines | new.py:1390-1411 | the output has one line per input line; in a list each line only loses its leading marker characters, otherwise line `k` gets `"• "` or `"k. "` in front of that stripped form |
| LineBlocks.BulletMarkerIsList | new.py:1393 | a line starting with the bullet marker passes the bullet test |
| LineBlocks.NumberMarkerIsList | new.py:1395-1399 | a line starting with `"1. "` passes the number test |
| LineBlocks.ToggleListMakesList | new.py:1390-1411 | toggling a block that is not a bullet or number list makes it one |
| LineBlocks.UnmarkOnce | new.py:1406 | the marker added to a line is removed by the next toggle, which then finds nothing more to remove |
| LineBlocks.LStripCharsAgain | new.py:1406 | removing the marker characters twice removes nothing more |
| LineBlocks.ToggleListTwice | new.py:1390-1411 | toggling a non-list block twice leaves every line with its leading marker characters removed |
| LineBlocks.ChangeIndent | new.py:1432-1445 | the loop gives every line `4·level` spaces in front of its left-stripped text |
| LineBlocks.IndentLevel | new.py:1432-1438 | the new indentation level from the count of four-space runs; stated on an indented line by `IndentedOneLine` |
| LineBlocks.ChangeIndentLines | new.py:1432-1445 | the output has one line per input line; line `k` is exactly `4·level` spaces followed by input line `k` with its leading whitespace removed |
| LineBlocks.CountRepeat | new.py:1432 | each leading four-space unit counts as one run for `count('    ')` |
| LineBlocks.IndentedOneLine | new.py:1432-1445 | a single line indented `n` levels, whose text holds no four-space run, gets `n+1` levels on increase and `n-1` (not below zero) otherwise |
| LineBlocks.ChangeIndentLine | new.py:1432-1445 | on such a line, decreasing after increasing gives the line back |
| TimeFormat.Decompose | gui.py:206-208 | hours·3600 + minutes·60 + seconds is the input, with minutes and seconds in `0..59` |
| TimeFormat.DecomposeUnique | gui.py:206-208 | that decomposition is the only one with minutes and seconds below 60 |
| TimeFormat.FormatTime | gui.py:205-215 | `format_time`; stated by `FormatTimeShape` and `ParseFormatTime` |
| TimeFormat.FormatClock | gui.py:210-215 | the three f-strings of `format_time`; stated by `ParseFormatClock` |
| TimeFormat.FormatTimeShape | gui.py:210-215 | the output ends in `s`; it shows an hours field exactly from one hour on and a minutes field exactly from one minute on |
| TimeFormat.FormatTimeNegative | gui.py:206-214 | floor division shows `-1` as `"59m 59s"` |
| TimeFormat.FieldText | gui.py:211 | one printed field holds no space and reads back as its number of seconds |
| TimeFormat.ParseFormatClock | gui.py:210-215 | each of the three output shapes reads back as the time it was printed from |
| TimeFormat.ParseFormatTime | gui.py:205-215 | reading the output of `format_time` back gives the number of seconds |
| DocumentState.Save | editor.py:260-289 | the save transition; stated by `SaveOutcome` |
| DocumentState.SaveAs | editor.py:291-307 | the save-as transition; stated by `SaveAsOutcome` |
| DocumentState.NewDoc | editor.py:213-223 | the new-document transition; stated by `NewDocOutcome` |
| DocumentState.Load | editor.py:236-258 | the open transition; stated by `LoadThenSave` and `Editor.LoadDocument` |
| DocumentState.KeyRelease | editor.py:423-427 | a key release; stated by `EditThenSave` and `Editor.KeyReleased` |
| DocumentState.Editor.constructor | editor.py:33-35 | a new editor has an empty buffer, no file and is not modified |
| DocumentState.Editor.SaveDocument | editor.py:260-289 | the new state and the returned flag are those of the save transition |
| DocumentState.Editor.SaveAsDocument | editor.py:291-307 | the new state and the returned flag are those of the save-as transition |
| DocumentState.Editor.NewDocument | editor.py:213-223 | the new state is that of the new-document transition, whatever the save in between did |
| DocumentState.Editor.LoadDocument | editor.py:236-258 | a read file becomes the buffer and the current file, unmodified; a failed read changes nothing |
| DocumentState.Editor.KeyReleased | editor.py:423-427 | a key release takes the widget's text and marks the document modified |
| DocumentState.SaveOutcome | editor.py:260-289 | saving never touches the buffer; it succeeds exactly when there is or is chosen a file, the buffer is not blank and the write works; success clears `is_modified` and keeps the file; failure changes nothing |
| DocumentState.SaveAsOutcome | editor.py:291-307 | a cancelled dialog changes nothing; otherwise success makes the chosen path the file and the document unmodified, and a failed save puts the old file back |
| DocumentState.SaveAgain | editor.py:260-283 | a document just saved saves again with no change |
| DocumentState.SaveNewDocumentFails | editor.py:213-268 | a new document is blank, so saving it fails and changes nothing |
| DocumentState.NewDocOutcome | editor.py:213-223 | declining to save a modified document keeps it; otherwise the result is the empty, unnamed, unmodified document |
| DocumentState.EditThenSave | editor.py:260-283 | after an edit the document is modified until a save succeeds, and the save keeps the edited text |
| DocumentState.LoadThenSave | editor.py:236-283 | a loaded file saves without a dialog, succeeding exactly when its text is not blank and the write works |
| DocumentState.DocxParagraphs | editor.py:270-275 | the paragraphs written for some lines; stated by `DocxParagraphsMeaning` |
| DocumentState.DocxWritten | editor.py:265-275 | the paragraphs a `.docx` save writes for a document: `DocxParagraphs` of the stripped buffer's lines |
| DocumentState.DocxSaveWrites | editor.py:265-275 | a save that succeeds writes at least one paragraph; the paragraphs hold exactly the buffer's non-whitespace characters, in order; each is a non-blank line of the stripped buffer, stripped |
| DocumentState.DocxIsStrippedLines | editor.py:272-275 | the `.docx` paragraphs of some lines are the stripped non-empty lines, the same as the paragraph merge keeps |
| DocumentState.NonEmptyImagesMembers | editor.py:272-275 | the written paragraphs are exactly the non-empty images of the lines |
| DocumentState.DocxParagraphsMeaning | editor.py:270-275 | a `.docx` save writes exactly the stripped forms of the non-blank lines, each non-empty and already stripped |
| DocumentState.StripAgain | editor.py:275 | stripping twice removes nothing more |

## Left out

- The Tk widgets are not modelled: dialogs, message boxes, the status and progress labels, the ribbon, themes and tag-based formatting. They are presentation. A dialog's answer is a parameter: the chosen path, or the "save changes?" reply.
- The foreign engines are not modelled: Tesseract, OpenCV, PyMuPDF, python-docx, langdetect, GoogleTranslator, gTTS and pygame.
  - The OCR output, a file's contents and the detected language are inputs.
  - The translator is a pure function (`string -> Reply`), so it gives the same answer for the same slice.
- Threads, cancel flags, the autosave loop, `time.sleep` and the unused `max_retries` and `target_lang` parameters are not modelled. Their point is concurrency or timing.
- File I/O is not modelled: reading and writing files, the `.pdf` and `.docx` readers, mp3 temp files and the settings file. (The paragraphs a `.docx` save would write are modelled.) A failed write is the `writeOk` input.
- Floating-point work is not modelled: progress and ETA arithmetic, and the fractional input of new.py's `format_time`. Only integer seconds are modelled.
- The regular-expression and `isprintable` stages of `post_process_text` (new.py:991-1003) are not modelled, and neither is its final `strip()`. They need a regex engine and Unicode classes that the model does not have.
- `post_process_text`'s `except` branch is not modelled: no stage of the model can raise.
- `int()` on non-ASCII decimal digits is not modelled. The model reads ASCII digits, with an optional sign, surrounding whitespace and single underscores between digits. The whitespace `int()` skips is the `str.isspace` set without U+001C..U+001F: `int()` reads characters below U+007F as ASCII, where those four separators are not whitespace (`PyText.IntKeepsSeparators`). `strip()` and `\s` use the full `isspace` set.
- PyText.ParseInt: does not model the limit on the length of an integer text (since Python 3.11 `int()` raises `ValueError` for more than 4300 digits by default). The model reads a digit string of any length.
- Console output is not modelled: the `print` calls, such as the chunk translation error (gui.py:40, editor.py:669) and gui.py:57, 83, 143, 193 and 226.
- `update_word_count`'s word count is not modelled: it is only shown in a label. Its other effect, setting `is_modified`, is modelled.
- TimeFormat.ParseFormatTime: stated for non-negative seconds only. A negative count prints as a time below one hour (`TimeFormat.FormatTimeNegative`), which does not read back as the count.
- The character counts of `r`, `n` and `m` after the table are not stated. The `"rn"` step makes them depend on neighbouring characters. `OcrCleanup.CommonFixesKeep` states the counts of every character the table does not mention.
- The trailing newline that Tk adds to its text is not modelled in the buffer. The save path strips it (editor.py:265), so the saved text and the `.docx` paragraphs are as modelled. Two readers take the text unstripped:
  - `read_text` (editor.py:475-497) slices `get("1.0", tk.END)` with the newline included. So a buffer of exactly 5000 characters gives a second slice `"\n"`. `Slicing.ReadTextChunks` takes the text as its input, and that input is the widget's text with the newline.
  - `update_word_count` (editor.py:424) reads it unstripped too, but `split()` ignores the newline and the count is not modelled.
- The loops of `split_into_chunks`, the page-range parsers, the OCR line filter, the paragraph merge, the substitution table, `toggle_list` and `translate_and_rewrite_text` are separate methods (`ChunkPieces`, `CollectZeroBased`, `CollectChecked`, `KeepLines`, `MergeLines`, `CleanAll`, `ReplaceAll`, `ToggleLines`, `TranslateSlices`). Their callers do the rest of the routine.
