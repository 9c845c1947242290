# Syllabus checker — a verified model of its analysis core

SyllabusChecker reads a course syllabus PDF and prints a report: the course,
instructor and semester read off the file name, which of ten required
sections the text mentions (ten points each), and, for a user query, the
sentence that answers it best. A companion script flags possibly misspelled
words, and the desktop window colours parts of the report and can save it
as a PDF. This project models, in Dafny, the parts of that code with real
decision logic:

- `check_syllabus` (`src/Syllabus_Checker_For_GUI.py`): the file-name parser
  (`Filename`), the page-text assembler (`PageText`), the section scorer
  (`ContentCheck`), the sentence segmenter and filter (`Segmenter`), the
  stable descending sort and the 0.35 threshold of the best match
  (`BestMatch`), and the whole function with its report order and the
  exceptions it lets escape (`SyllabusChecker`);
- `check_spelling` and `extract_text_from_pdf` (`src/Spell_Check.py`):
  the word tokenizer, first-occurrence de-duplication by lower-case form,
  the skip filters and the flagged list (`SpellCheck`);
- `_insert_rich_text` and the module-level `save_report_as_pdf`
  (`src/GUI.py`): the `<color=#RRGGBB>…</color>` parser, driving a text
  widget modelled as the calls it receives (`RichText`), and the line and
  page layout of the PDF (`PdfExport`).

`Text` holds the string operations the Python code relies on (`split`,
`join`, `strip`, `lower`, `str(int)`) with their own round-trip lemmas.

Foreign code enters as parameters: whether the path names a file, the text
each PDF page yields (`seq<Option<string>>`), the fuzzy matcher's
`partial_ratio`, the cross-encoder's probability (sigmoid included), the
`:.2f` formatting of a probability, the spelling dictionary and its
candidate lists. Exceptions the Python code raises are modelled as results
(`SyllabusChecker.Outcome.Raised`, `Filename.ParsedName.EmptyCourseNumber`).

Behaviour worth knowing before reading the model: a missing or non-PDF
file prints its message and then raises, because `parts` is unbound; a
query with no kept sentence raises at `results[0]`; the best-match
threshold is 0.35; a kept sentence has more than three words; the text is
cut only after `.`, `!` or `?` followed by white space; and the sections
are a flat list of ten keywords scored against one document text.

## Model

| member | source | states |
|---|---|---|
| `Filename.DeptNumberPattern` | src/Syllabus_Checker_For_GUI.py:17-22 | four or more `_` tokens whose second starts with a digit give course "t0.t1", instructor t2, semester t3; later tokens ignored |
| `Filename.CourseInstructorSemesterPattern` | src/Syllabus_Checker_For_GUI.py:23-26 | otherwise, with three or more tokens, course, instructor and semester are the first three tokens unchanged |
| `Filename.EmptySecondTokenRaises` | src/Syllabus_Checker_For_GUI.py:19 | with four or more tokens and an empty second one, `parts[1][0]` raises |
| `Filename.TooFewTokens` | src/Syllabus_Checker_For_GUI.py:27-29 | fewer than three tokens: the warning is emitted and all three fields are None |
| `Filename.ExampleDeptNumber` | src/Syllabus_Checker_For_GUI.py:16-22 | "CMPSC_463_Smith_Fall2025" parses to CMPSC.463 / Smith / Fall2025 |
| `Filename.ExampleDottedCourse` | src/Syllabus_Checker_For_GUI.py:23-26 | "ENG.101_Doe_Spring2026" parses to ENG.101 / Doe / Spring2026 |
| `Filename.Basename` | src/Syllabus_Checker_For_GUI.py:16 | the base name is a suffix of the path holding no '/': the whole path, or what follows its last '/' |
| `Filename.RemoveAllCut` | src/Syllabus_Checker_For_GUI.py:16 | `replace(".pdf", "")` removes the first occurrence and carries on after it: `x + ".pdf" + y` becomes `x` followed by the result for `y` when no occurrence starts inside `x` |
| `Filename.RemoveInTheMiddle` | src/Syllabus_Checker_For_GUI.py:16 | every occurrence is removed, not only a trailing one: "A.pdf_B.pdf" gives "A_B" |
| `Filename.RemoveAllAbsent` | src/Syllabus_Checker_For_GUI.py:16 | a name without ".pdf" in it is left as it is by the replace |
| `Filename.StemOfPdfFile` | src/Syllabus_Checker_For_GUI.py:13-16 | "dir/NAME.pdf" passes the extension test and its stem is NAME |
| `Filename.ExtensionTest` | src/Syllabus_Checker_For_GUI.py:13 | the extension test passes exactly when the last four characters, lower-cased, are ".pdf", whatever their case |
| `Filename.UpperCaseExtensionKept` | src/Syllabus_Checker_For_GUI.py:13-16 | a ".PDF" file passes the test but keeps ".PDF" in its stem, since the removal is case-sensitive |
| `PageText.AssemblePages` | src/Syllabus_Checker_For_GUI.py:36-42 | the `all_text` loop yields one chunk per page in page order: the text plus "\n", or the numbered placeholder |
| `PageText.AssembleAppendPage` | src/Syllabus_Checker_For_GUI.py:37-42 | a further page only appends its own chunk; earlier pages are not rewritten |
| `PageText.PlaceholderNamesPage` | src/Syllabus_Checker_For_GUI.py:42 | an empty page's placeholder names its 1-based number, which reads back as that number |
| `ContentCheck.ScoreSections` | src/Syllabus_Checker_For_GUI.py:47-57 | the section loop: one status line per section in list order, `results` maps each section to its verdict, score is 10 per found section |
| `ContentCheck.StatusLinesSpec` | src/Syllabus_Checker_For_GUI.py:51-55 | line i is the title-cased section i with its own verdict |
| `ContentCheck.VerdictsSpec` | src/Syllabus_Checker_For_GUI.py:47-53 | `results` has exactly the listed sections as keys, each with its verdict |
| `ContentCheck.CountAtLeastBounds` | src/Syllabus_Checker_For_GUI.py:50-57 | the found count is at most the number of sections; it is all of them, or none, exactly when every, or no, section reaches the threshold |
| `ContentCheck.ThresholdMonotone` | src/Syllabus_Checker_For_GUI.py:52 | raising the threshold never increases the number of found sections |
| `ContentCheck.RequiredScoreRange` | src/Syllabus_Checker_For_GUI.py:44-57 | with the ten required sections the score lies between 0 and 100 |
| `ContentCheck.TitleKeepsLetters` | src/Syllabus_Checker_For_GUI.py:55 | `title()` keeps the length and changes only letter case |
| `Segmenter.SplitSentencesSpec` | src/Syllabus_Checker_For_GUI.py:69 | the split loses nothing (fragments and separators rejoin to the text) and cuts exactly at maximal white-space runs after '.', '!' or '?' |
| `Segmenter.SentencesSpec` | src/Syllabus_Checker_For_GUI.py:67-71 | every sentence is a kept fragment stripped: it is stripped, has more than three words and three consecutive ASCII letters |
| `Segmenter.KeptSentencesMembership` | src/Syllabus_Checker_For_GUI.py:67-71 | a string is a sentence exactly when some fragment passes the filter and strips to it |
| `Segmenter.KeptSentencesAppend` | src/Syllabus_Checker_For_GUI.py:67-71 | the filter keeps order and duplicates: filtering a concatenation concatenates the results |
| `Segmenter.WordCountTrim` | src/Syllabus_Checker_For_GUI.py:68-70 | stripping a fragment does not change its word count |
| `Segmenter.HasLetterRunTrim` | src/Syllabus_Checker_For_GUI.py:68-70 | stripping a fragment does not change whether it has three consecutive letters |
| `BestMatch.SortByProbDescending` | src/Syllabus_Checker_For_GUI.py:76 | the in-place sort leaves the pairs in descending probability, and pairs of equal probability keep their order |
| `BestMatch.InsertNext` | src/Syllabus_Checker_For_GUI.py:76 | one step of the sort extends the sorted prefix by one pair, leaves the pairs after it as they were and stays a stable reordering |
| `BestMatch.SortedHead` | src/Syllabus_Checker_For_GUI.py:76-80 | the head of the sorted list is the first sentence in document order among those of maximal probability, and reaches 0.35 exactly when some sentence does |
| `BestMatch.StableIsPermutation` | src/Syllabus_Checker_For_GUI.py:76 | the sort is a permutation of the scored sentences |
| `BestMatch.FirstBest` | src/Syllabus_Checker_For_GUI.py:78 | the chosen index has the maximal probability and every earlier sentence scores strictly less |
| `SyllabusChecker.CheckSyllabus` | src/Syllabus_Checker_For_GUI.py:8-89 | the function returns or raises as `Analyze` states, building `outputs`, assembling pages, scoring sections and sorting in place |
| `SyllabusChecker.ReadFileName` | src/Syllabus_Checker_For_GUI.py:16-33 | the parse of the stem, and the header lines printed for it, after the warning line when no pattern fits |
| `SyllabusChecker.ContentReport` | src/Syllabus_Checker_For_GUI.py:48-59 | the content block is the title, one line per required section and the score line |
| `SyllabusChecker.SelectBest` | src/Syllabus_Checker_For_GUI.py:73-78 | after the in-place sort the head is the first best-scored sentence; an empty list gives no head (`results[0]` raises) |
| `SyllabusChecker.RaisesExactly` | src/Syllabus_Checker_For_GUI.py:11-80 | with foreign calls that do not raise, the function raises exactly for a missing file, a non-PDF path, an empty second of four or more tokens, or a query with no sentence |
| `SyllabusChecker.ReportLayout` | src/Syllabus_Checker_For_GUI.py:31-89 | the report is header, content block, then "No query entered." or the query block, joined by newlines |
| `SyllabusChecker.ScoreLineValue` | src/Syllabus_Checker_For_GUI.py:57-59 | the score line prints 10 times the found count, at most 100, and 100 exactly when every section is found |
| `SyllabusChecker.QueryVerdict` | src/Syllabus_Checker_For_GUI.py:79-87 | "Found!" exactly when some sentence reaches 0.35, and only then the example match, which is the best sentence |
| `SpellCheck.TokensShape` | src/Spell_Check.py:18-34 | every token starts with an ASCII letter and holds only letters, `'` and `-`: it has no digit and stripping changes nothing |
| `SpellCheck.MatchEnd` | src/Spell_Check.py:18 | the pattern matches at i exactly when a letter starts there after a word boundary and some boundary follows within the letter run; the match ends at the last such boundary |
| `SpellCheck.TokensFromSkip` | src/Spell_Check.py:18 | `findall` misses no word: positions where the pattern fails are passed over, the next word is the match at the first position where it succeeds, and there are no words when it succeeds nowhere |
| `SpellCheck.FlagWords` | src/Spell_Check.py:19-43 | the word loop, with `checked` holding every lower-case form seen, yields the flagged list of the first occurrences that pass |
| `SpellCheck.CheckSpelling` | src/Spell_Check.py:15-49 | the flagged list for the text's tokens, one "Misspelled:" line per entry in order, then the total |
| `SpellCheck.PrintFlagged` | src/Spell_Check.py:46-49 | one printed line per flagged word, in order, then the total line |
| `SpellCheck.FlaggedMembership` | src/Spell_Check.py:22-43 | a word is flagged exactly when it is the first of its lower-case form, passes every filter and is unknown to the dictionary |
| `SpellCheck.FlaggedSound` | src/Spell_Check.py:30-43 | every flagged word has length at least 3, no capital first letter, no hyphen, no digit, no URL-like prefix, and its form is not in the dictionary |
| `SpellCheck.FlaggedTokensStartLower` | src/Spell_Check.py:18-33 | for the tokenizer's words, every flagged word starts with a lower-case letter |
| `SpellCheck.FlaggedDistinct` | src/Spell_Check.py:22-43 | no two flagged words share a lower-case form |
| `SpellCheck.FlaggedPrefix` | src/Spell_Check.py:22-43 | the list follows word order: the entries for the first words come first, whatever follows |
| `SpellCheck.CapitalisedFirstHidesLater` | src/Spell_Check.py:25-33 | a skipped "Teh" still enters `checked`, so a later "teh" is never flagged |
| `SpellCheck.TotalReadsBack` | src/Spell_Check.py:49 | the printed total reads back as the number of flagged words |
| `SpellCheck.ExtractText` | src/Spell_Check.py:5-12 | the extraction loop yields the non-empty page texts, each followed by "\n" |
| `SpellCheck.ExtractSkipsEmptyPage` | src/Spell_Check.py:10-11 | a page without text, None or the empty string, adds nothing |
| `SpellCheck.ExtractAgreesWhenNoEmptyPage` | src/Spell_Check.py:5-12 | when every page has text, both scripts read the same document text |
| `RichText.FirstCloser` | src/GUI.py:313 | the non-greedy body ends at the first "</color>" after the opener |
| `RichText.MatchAt` | src/GUI.py:313 | the pattern matches at i exactly when a "<color=#" opener with six hex digits starts there and a closer follows; the match ends at the first closer |
| `RichText.Matches` | src/GUI.py:315 | the matches are well-formed, in order and do not overlap |
| `RichText.MatchesFromComplete` | src/GUI.py:315 | `finditer` misses nothing: no match starts before the first reported one, which is the match at its start, and the search resumes at its end |
| `RichText.ColouredExample` | src/GUI.py:313-334 | "<color=#abcdef>x</color>" inserts "x" with the tag "color_#abcdef", then the newline |
| `RichText.OutputText.InsertRichText` | src/GUI.py:307-334 | the widget receives exactly the chunks of the message and the final newline, gains the colours' tag names, and configures each new tag once |
| `RichText.OutputText.InsertMatch` | src/GUI.py:316-329 | one match: the plain text since `pos` if non-empty, the tag configured if new, the body inserted with its tag |
| `RichText.RichChunksRoundTrip` | src/GUI.py:313-334 | writing every coloured chunk back as markup gives the message followed by "\n": nothing lost, reordered or invented |
| `RichText.ChunksFromTextLength` | src/GUI.py:313-332 | the inserted text is the message minus exactly the 23 characters of each matched opener and closer |
| `RichText.PlainChunksNonEmpty` | src/GUI.py:314-332 | plain text is inserted only when it is non-empty |
| `RichText.NoOpenerPlain` | src/GUI.py:313-334 | a message with no well-formed opener is inserted whole, as plain text, then the newline |
| `RichText.NewTagsFresh` | src/GUI.py:324-326 | tags configured are new and pairwise distinct, and with the known ones cover every colour used |
| `PdfExport.SaveReportAsPdf` | src/GUI.py:11-20 | the canvas receives the layout of the "\n"-split lines, then `save` |
| `PdfExport.LinesPerPageIsFirstOverflow` | src/GUI.py:13-19 | with top 800, step 14 and bottom 40, a page takes exactly 55 lines |
| `PdfExport.DrawnLayout` | src/GUI.py:14-15 | every line is drawn once, in order, and nothing else is drawn |
| `PdfExport.PdfHoldsReport` | src/GUI.py:14-15 | the drawn lines joined by newlines are the report text |
| `PdfExport.LayoutWithinMargins` | src/GUI.py:15-19 | every line is drawn at x = 40 with 44 <= y <= 800 |
| `PdfExport.LayoutPageBreaks` | src/GUI.py:17-19 | `showPage` is called once per 55 lines: n div 55 times for n lines |
| `PdfExport.LayoutLength` | src/GUI.py:14-19 | the canvas receives one call per line and one page break per 55 lines |
| `PdfExport.LayoutPosition` | src/GUI.py:14-19 | the call for line k, after k div 55 page breaks, draws that line at x = 40, y = 800 - 14 * (k mod 55) |

## Left out

- PDF extraction (`PdfReader`, `extract_text`), `os.path.isfile`, the fuzzy matcher `partial_ratio`, the cross-encoder model with its sigmoid, the `:.2f` float formatting, the spelling dictionary and `candidates`: foreign code with floating point, given as parameters. They are assumed not to raise: `PdfReader` on an empty or corrupt file and `CrossEncoder` when its model cannot be loaded raise in the program, and `SyllabusChecker.RaisesExactly` lists only the exceptions of the modelled code.
- `os.path.basename` is modelled for POSIX paths ('/' separators only).
- `lower()`, `upper()`, `title()`, `isupper()`, `isdigit()`, `\d`, `\w` and `\b` are modelled on ASCII; Python applies them to all of Unicode. White space (`\s`, `split()`, `strip()`) is modelled with Python's full white-space set.
- The report's `print` calls of `check_syllabus` and `check_spelling` are modelled as returned lines (`Raised(UnboundParts(msg))` carries the message printed before the exception).
- `self.output.see(END)` (scrolling) and the font of a configured tag: presentation only. The widget starts with the "sel" tag, as Tk's text widget does.
- The duplicate `save_report_as_pdf` nested in `__init__` of `src/GUI.py`: it is never used.
- All other Tk and Streamlit code, threading, dialogs and the status bar (`src/GUI.py`, `src/app_gui.py`, `src/app_gui_new.py`), packaging (`src/setup.py`) and the older script variants: UI plumbing or superseded code.
- The desktop window calls `check_syllabus(self.file_path)` without the required `query` argument (`src/GUI.py`:367), which raises a `TypeError`; the GUI path is not modelled.
