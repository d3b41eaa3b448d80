# Email address extractor: a Dafny model of `extract_emails_from_files`

The system is a small web utility. A user uploads spreadsheets (`.xls`, `.xlsx`, `.xlsm`), Word
documents (`.docx`) and PDFs. The utility scans their text for strings shaped like email
addresses and offers the sorted, duplicate-free list for download, together with a log of what
it did.

`extract_emails_from_files` (email_extractor_app.py:9-70) does all of that work. This project
models it in two parts, and proves what it promises.

**The scanner** (`Scanning`, `EmailPattern`):
- `InPattern` is the regular language of
  `[a-zA-Z0-9._%+-]+@[a-zA-Z0-9.-]+\.[a-z]{2,}` under `re.IGNORECASE`, written as a grammar.
- Its letters include the four non-ASCII code points that Python's `re` folds onto ASCII letters.
- `MatchAt` is what the backtracking matcher returns from one start position.
- `Scan`/`Spans` and `FindAll` are Python's left-to-right, non-overlapping `findall`.
- The lemmas say that `findall` returns exactly the leftmost-longest matches. Each one is a
  substring in the language. Nothing is missed before, between or after them.

**The batch loop** (`Steps`, `Uploads`, `Extractor`, `FileProperties`, `BatchProperties`):
- Each uploaded file is an `Upload`. It has a name and, for each of the three parser libraries,
  what that library yields on the file's bytes. The calls listed under "Left out" as able to
  raise carry an exception marker; the others are taken not to raise.
- One file's `try` block is described as a list of `Step`s: a log line, a text handed to
  `findall`, or an exception. `Run` replays the steps and stops at the first exception.
- The methods in `Extractor` follow the source's nested `for` loops over a `set<string>` and a
  `seq<string>`. Each method is proved equal to `Run` of its steps. The top-level method is
  proved equal to the function `Extracted`.
- `FileProperties` and `BatchProperties` then describe what comes out, without replaying the
  loops:
  - the set is the union of `findall` over every text read before a file's exception;
  - every file gets exactly one processing line, numbered in input order;
  - every file whose block raised gets exactly one error line, at the end of its block;
  - stage lines appear only after a reader has opened its file;
  - an unsupported file logs one warning and adds nothing.

**The rest:**
- `FileNames` models `os.path.splitext(name)[1].lower()` and the dispatch on its result.
- `LogLines` has the exact log texts, including the decimal rendering of the counters.
- `StringOrder` has Python's `str` order and `sorted`.

Behaviour of the code that the model keeps on purpose:
- A file that raises part-way still contributes the emails found before the exception: line 36
  adds each match at once, and the `except` at line 65 does not undo it.
- An empty batch gives an empty list and an empty log: the loop at line 19 does not run.
- The processing line is `Processing file i/N: **name**`, with the name in bold markup (line 22).
- The local part, the domain and the TLD can also hold the four non-ASCII letters that
  `re.IGNORECASE` folds onto ASCII letters (line 12).
- An unsupported file logs its processing line, then the unsupported-type line, which starts
  with the warning sign (lines 22 and 63).

## Model

| member | source | states |
|---|---|---|
| Scanning.Scan | email_extractor_app.py:34 | the (start, end) pairs of a left-to-right scan lie within the text, each starting at or after the scan's start |
| Scanning.ScanTake | email_extractor_app.py:34 | a match at the current position is taken whole, and the scan resumes at its end |
| Scanning.ScanSkip | email_extractor_app.py:34 | where no match starts, the scan moves on by one position |
| Scanning.ScanMatch | email_extractor_app.py:34 | every pair the scan yields is the match the matcher returns at that pair's start |
| Scanning.ScanOrdered | email_extractor_app.py:34 | the pairs are in order and do not overlap |
| Scanning.ScanFirstGap | email_extractor_app.py:34 | no match starts between the scan's start and its first pair, or anywhere when there is none |
| Scanning.ScanGapsFree | email_extractor_app.py:34 | no match starts between two consecutive pairs |
| Scanning.ScanLastGap | email_extractor_app.py:34 | no match starts after the last pair |
| Scanning.ScanPass | email_extractor_app.py:34 | the scan passes over a stretch where no match starts |
| EmailPattern.RunEnd | email_extractor_app.py:11-12 | the greedy run of one character class ends within the text, at or after its start |
| EmailPattern.RunEndRun | email_extractor_app.py:11-12 | every character of the run is in the class, and the next one, if any, is not: the run is maximal |
| EmailPattern.RunReaches | email_extractor_app.py:11-12 | a stretch of class characters means the greedy run reaches at least its end |
| EmailPattern.RunStops | email_extractor_app.py:11-12 | a stretch of class characters followed by one outside the class is exactly the greedy run |
| EmailPattern.LastTldDot | email_extractor_app.py:12 | the dot the greedy domain backs off to lies in the domain run and is followed by two letters |
| EmailPattern.LastTldDotReaches | email_extractor_app.py:12 | whenever such a dot exists, one is found, and it is the last one |
| EmailPattern.MatchAt | email_extractor_app.py:11-12 | a match from position i is non-empty and ends inside the text |
| EmailPattern.MatchAtParts | email_extractor_app.py:11-12 | a match consists of the whole local run, an `@`, the domain up to the last dot followed by two letters, and the longest run of letters after that dot |
| EmailPattern.PartsSplit | email_extractor_app.py:11-12 | those parts split the matched text as the pattern requires |
| EmailPattern.MatchAtSound | email_extractor_app.py:11-12 | what `match` finds is in the pattern's language |
| EmailPattern.MatchAtOfParts | email_extractor_app.py:11-12 | conversely, the match is assembled from the local run, the `@`, the chosen dot and the letter run |
| EmailPattern.SplitsInSlice | email_extractor_app.py:11-12 | a split of a substring is the same split of the whole text, with shifted indices, in both directions |
| EmailPattern.SplitsInRuns | email_extractor_app.py:11-12 | for any split of a text in the language, the local run stops at the `@` and the domain run reaches the end |
| EmailPattern.TldRunCovers | email_extractor_app.py:12 | a later dot followed by two letters cannot lie inside the TLD, and the letter run from the chosen dot covers the TLD |
| EmailPattern.MatchAtReaches | email_extractor_app.py:11-12 | any split of s[i..e] is found by `match` at i, which ends at e or later |
| EmailPattern.MatchAtLongest | email_extractor_app.py:11-12 | if any prefix of s[i..] is in the language, `match` at i succeeds with one at least as long |
| EmailPattern.MatchFound | email_extractor_app.py:11-12 | the match found at i is in the language, and no longer prefix of s[i..] is |
| EmailPattern.MatchAtComplete | email_extractor_app.py:11-12 | `match` fails at p only when no prefix of s[p..] is in the language |
| EmailPattern.Matcher | email_extractor_app.py:34 | `pattern.match` at every position: a match starts at p, ends after p and stays within the text |
| EmailPattern.Spans | email_extractor_app.py:34 | the spans `findall` visits lie within the text, in the part that is still to scan |
| EmailPattern.SpansTake | email_extractor_app.py:34 | a match is taken whole and the scan resumes at its end |
| EmailPattern.SpansSkip | email_extractor_app.py:34 | a failed start moves the scan on by one |
| EmailPattern.SpansPass | email_extractor_app.py:34 | the scan passes over positions where no match starts |
| EmailPattern.FindAll | email_extractor_app.py:34 | `findall` returns one string per span |
| EmailPattern.FindAllOfSpans | email_extractor_app.py:34 | the k-th string is the text of the k-th span |
| EmailPattern.FindAllLongest | email_extractor_app.py:34 | every returned string is in the language and is the longest match from its start; the matches are in order and do not overlap |
| EmailPattern.FindAllLeftmostEnds | email_extractor_app.py:34 | no match can start before the first returned match or after the last one, or anywhere when nothing is returned |
| EmailPattern.FindAllFirstGap | email_extractor_app.py:34 | no match can start before the first span |
| EmailPattern.FindAllLastGap | email_extractor_app.py:34 | no match can start after the last span |
| EmailPattern.NoMatchWhereNone | email_extractor_app.py:34 | where the matcher fails, no match can start |
| EmailPattern.NoMatchAtEnd | email_extractor_app.py:12 | no match starts at the end of a text, because a match is never empty |
| EmailPattern.FindAllLeftmostBetween | email_extractor_app.py:34 | after each match, the next is at the leftmost position where one can start |
| EmailPattern.FindAllSound | email_extractor_app.py:11-34 | every string `findall` returns is in the language and is a substring of its input |
| EmailPattern.NoMatchInLocalRun | email_extractor_app.py:11-12 | no match starts inside a run of local characters that ends at a character other than `@` |
| EmailPatternExamples.ContactSpans | email_extractor_app.py:11-12 | the only span of "Contact: jane.doe@example.com!" is [9, 29) |
| EmailPatternExamples.FindAllDropsTrailingPunctuation | email_extractor_app.py:11-12 | "Contact: jane.doe@example.com!" yields exactly "jane.doe@example.com" |
| EmailPatternExamples.OneLetterTldNoMatchAt | email_extractor_app.py:12 | no position of "a@b.c" starts a match |
| EmailPatternExamples.FindAllNeedsTwoLetterTld | email_extractor_app.py:12 | "a@b.c" yields nothing: the TLD needs two letters |
| EmailPatternExamples.AdjacentSpans | email_extractor_app.py:12 | the spans of "a@b.com.x@y.org" are [0, 7) and [7, 15) |
| EmailPatternExamples.FindAllResumesAtMatchEnd | email_extractor_app.py:12 | "a@b.com.x@y.org" yields "a@b.com" and then ".x@y.org" |
| EmailPatternExamples.TwoAtsNoMatchAtStart | email_extractor_app.py:11-12 | in "a@b@c.com", no match starts at 0 or at 1 |
| EmailPatternExamples.TwoAtsSpans | email_extractor_app.py:11-12 | the only span of "a@b@c.com" is [2, 9) |
| EmailPatternExamples.FindAllRestartsAfterFailedStart | email_extractor_app.py:11-12 | "a@b@c.com" yields "b@c.com" |
| FileNames.RFind | email_extractor_app.py:21 | the index of the last occurrence of a character, or -1 when there is none |
| FileNames.ExtensionAt | email_extractor_app.py:21 | the extension is the suffix from the extension dot |
| FileNames.ExtensionFromRFind | email_extractor_app.py:21 | a non-empty extension starts at the last dot of the name |
| FileNames.ExtensionCharacterized | email_extractor_app.py:21 | the extension is empty exactly when no dot qualifies; otherwise it is the suffix from the last dot after the last '/' that follows a non-dot character of the same component |
| FileNames.Lower | email_extractor_app.py:21 | definition: `.lower()` on ASCII letters |
| FileNames.LowerLowers | email_extractor_app.py:21 | lowering leaves no ASCII capital, keeps every other character, and is idempotent |
| FileNames.LowerRFind | email_extractor_app.py:21 | lowercasing does not move dots or slashes |
| FileNames.LowerExtension | email_extractor_app.py:21 | lowercasing commutes with taking the extension |
| FileNames.KindIgnoresCase | email_extractor_app.py:21-25 | names that agree up to ASCII case select the same branch |
| FileNames.ExtensionOfSuffix | email_extractor_app.py:21 | a name ending in a dot-led suffix without dots or slashes after a non-dot has that suffix as its extension |
| FileNames.SupportedNameEnds | email_extractor_app.py:21-51 | a name that reaches a reader ends in that reader's extension, up to case |
| FileNames.MixedCasePdf | email_extractor_app.py:21 | "Report.PDF" is read as a PDF |
| FileNames.InnerDotExtension | email_extractor_app.py:21 | the extension of "contacts.2024.xlsx" is ".xlsx" |
| FileNames.InnerDotIgnored | email_extractor_app.py:21-25 | "contacts.2024.xlsx" is read as a spreadsheet |
| FileNames.HiddenFileHasNoExtension | email_extractor_app.py:21 | ".pdf" has no extension and is unsupported |
| FileNames.LegacyWordUnsupported | email_extractor_app.py:37 | "letter.doc" is unsupported |
| LogLines.Decimal | email_extractor_app.py:22 | the counter is rendered as a non-empty string of digits |
| LogLines.DecimalRoundTrip | email_extractor_app.py:22 | reading the rendered counter back gives the number, with no leading zero |
| LogLines.DecimalInjective | email_extractor_app.py:22 | different counters render differently |
| LogLines.LineKinds | email_extractor_app.py:22-66 | processing lines and error lines can be told from every other log line by how they begin |
| LogLines.ProcessingLineInjective | email_extractor_app.py:22 | the processing line determines the file number, the batch size and the file name |
| StringOrder.BelowGivesLexicographic | email_extractor_app.py:70 | Python's `str` order implies the lexicographic order |
| StringOrder.LexicographicGivesBelow | email_extractor_app.py:70 | the lexicographic order implies Python's `str` order |
| StringOrder.BelowIsLexicographic | email_extractor_app.py:70 | Python's string order is the lexicographic order: a proper prefix first, otherwise the first differing code point decides |
| StringOrder.BelowIrreflexive | email_extractor_app.py:70 | no string is below itself |
| StringOrder.BelowTransitive | email_extractor_app.py:70 | the order is transitive |
| StringOrder.BelowTotal | email_extractor_app.py:70 | any two different strings are ordered |
| StringOrder.BelowAsymmetric | email_extractor_app.py:70 | the order is asymmetric |
| StringOrder.LeastExists | email_extractor_app.py:70 | a non-empty set of strings has a least element |
| StringOrder.LeastUnique | email_extractor_app.py:70 | that least element is unique |
| StringOrder.SortedList | email_extractor_app.py:70 | `sorted(email_set)` is strictly increasing and holds exactly the set's elements, each once |
| StringOrder.IncreasingListingUnique | email_extractor_app.py:70 | a set has only one strictly increasing listing, so any correct sort gives the same list |
| Steps.RunSticky | email_extractor_app.py:24-65 | after an exception, the rest of the try block changes nothing |
| Steps.RunAppend | email_extractor_app.py:24-64 | running two stretches of the block is running one after the other |
| Steps.RunSnoc | email_extractor_app.py:24-64 | running one more step is performing it after the rest |
| Steps.RunRaise | email_extractor_app.py:24-65 | an exception ends the block there, keeping everything done before it |
| Steps.RunCharacterized | email_extractor_app.py:24-67 | a block adds the emails of the texts scanned before its first exception, logs the lines logged before it, and ends with that exception |
| Steps.RunLogFirst | email_extractor_app.py:24-64 | the same, for a block that starts by logging |
| Steps.RunScanFirst | email_extractor_app.py:24-64 | the same, for a block that starts by scanning a text |
| Steps.CompletedCons | email_extractor_app.py:24-64 | a first step that does not raise is completed, scanned or logged before the rest |
| Steps.FirstRaiseAppend | email_extractor_app.py:24-65 | the first exception of two stretches is the first stretch's, else the second's |
| Steps.CompletedAppend | email_extractor_app.py:24-65 | the second stretch runs only when the first does not raise |
| Steps.ScannedAppend | email_extractor_app.py:34-59 | the texts of two stretches are those of the first, then those of the second |
| Steps.LoggedAppend | email_extractor_app.py:28-63 | the lines of two stretches are those of the first, then those of the second |
| Steps.FoundAllAppend | email_extractor_app.py:35-36 | the emails of two lists of texts are the union of each list's emails |
| Steps.FoundAllMember | email_extractor_app.py:34-36 | an email is found in a list of texts exactly when `findall` returns it on one of them |
| Steps.ConcatStep | email_extractor_app.py:27-61 | a loop over a list does the first element's body, then loops over the rest |
| Steps.ConcatAppend | email_extractor_app.py:27-61 | a loop over two lists does the first list, then the second |
| Steps.ConcatSnoc | email_extractor_app.py:27-61 | a loop over j + 1 elements does the first j, then element j |
| Steps.RunConcatSnoc | email_extractor_app.py:27-61 | running the loop up to element j + 1 is running it up to j, then element j's body |
| Steps.RunConcatStops | email_extractor_app.py:27-65 | once an exception is raised in the loop, later elements change nothing |
| Steps.RunScan | email_extractor_app.py:34-36 | scanning a text adds its `findall` matches to the set |
| Steps.RunLog | email_extractor_app.py:28 | a log step appends its line |
| Steps.RunRaiseFirst | email_extractor_app.py:65 | an exception at the start of a stretch leaves the set and the log as they were |
| Steps.CompletedNoRaise | email_extractor_app.py:24 | a block without an exception completes entirely |
| Steps.ConcatNoRaise | email_extractor_app.py:27-61 | a loop whose bodies do not raise does not raise, and completes |
| Steps.PrefixNoRaise | email_extractor_app.py:27-61 | a loop over elements whose bodies do not raise completes |
| Steps.ConcatFirstRaise | email_extractor_app.py:27-65 | when body j is the first to raise, the loop completes the earlier bodies and part of body j, and raises body j's exception |
| Steps.ScannedConcat | email_extractor_app.py:27-61 | a loop scans a text exactly when one of its bodies does |
| Steps.NoLogsLogged | email_extractor_app.py:32-61 | steps that do not log append nothing |
| Steps.ConcatNoLogs | email_extractor_app.py:32-61 | a loop whose bodies do not log does not log |
| Extractor.AddMatches | email_extractor_app.py:34-36 | adding each `findall` match to the set adds exactly the matches |
| Extractor.ScanColumn | email_extractor_app.py:32-36 | a column scans each cell that `dropna` keeps, and logs nothing |
| Extractor.ReadSheet | email_extractor_app.py:27-36 | a sheet logs its name, then reads and scans its columns, or stops at `read_excel`'s exception |
| Extractor.ReadWorkbook | email_extractor_app.py:25-36 | the spreadsheet branch opens the workbook and reads the sheets in order, up to the first exception |
| Extractor.ScanTexts | email_extractor_app.py:41-50 | each paragraph, or each cell of a row, is scanned |
| Extractor.ScanTable | email_extractor_app.py:45-50 | every cell of every row of a table is scanned |
| Extractor.ReadWordDocument | email_extractor_app.py:37-50 | the Word branch opens the document, logs its stage line, then scans the paragraphs and then the tables |
| Extractor.ReadPdf | email_extractor_app.py:51-61 | the PDF branch opens the reader, logs its stage line, then scans page texts up to the first exception, skipping missing and empty ones |
| Extractor.ProcessUpload | email_extractor_app.py:19-67 | one pass of the loop: the processing line, the branch the lowercase extension selects, and the error line when the branch raises |
| Extractor.ExtractEmailsFromFiles | email_extractor_app.py:9-70 | the result is strictly increasing, holds exactly the accumulated set, and the log is the batch's log |
| FileProperties.FileFoundMember | email_extractor_app.py:24-61 | a file's emails are exactly what `findall` returns on the texts it reads before any exception |
| FileProperties.UnsupportedFile | email_extractor_app.py:62-64 | an unsupported file logs its processing line and one unsupported-type line, and adds no email |
| FileProperties.OpenFails | email_extractor_app.py:24-67 | a file its reader cannot open logs only its processing line and the error line, and adds no email |
| FileProperties.CellFacts | email_extractor_app.py:33-34 | a missing cell is skipped, and a present one is scanned as it is |
| FileProperties.ColumnFacts | email_extractor_app.py:32-36 | a column scans exactly its non-missing cells, logs nothing and does not raise |
| FileProperties.ColumnsFacts | email_extractor_app.py:32-36 | a sheet's columns scan exactly its non-missing cells |
| FileProperties.SheetRead | email_extractor_app.py:27-36 | a sheet that reads logs only its name and scans exactly its non-missing cells |
| FileProperties.SheetFails | email_extractor_app.py:28-31 | a sheet that fails to read has still logged its name, and its exception ends the file |
| FileProperties.SheetLines | email_extractor_app.py:28 | definition: one "Reading sheet" line per sheet, in order |
| FileProperties.SheetsLogged | email_extractor_app.py:27-28 | sheets that all read log their names in order |
| FileProperties.SheetsRead | email_extractor_app.py:27-36 | sheets that all read do not raise, log their names in order, and scan all their non-missing cells |
| FileProperties.SheetsScanned | email_extractor_app.py:27-36 | those sheets scan exactly their non-missing cells |
| FileProperties.SheetsCompleted | email_extractor_app.py:27-31 | the sheets run up to the name line of the first one that fails, and its exception is the file's |
| FileProperties.AttemptedSheetsLogged | email_extractor_app.py:27-31 | the names of the sheets up to and including the failing one are logged |
| FileProperties.AttemptedSheetsScanned | email_extractor_app.py:27-36 | only the cells of the sheets before the failing one are scanned |
| FileProperties.SheetsTrace | email_extractor_app.py:27-36 | the sheet lines and the scanned cells together |
| FileProperties.WorkbookRead | email_extractor_app.py:22-67 | a workbook's block is its processing line, one line per attempted sheet and the error line of the failing sheet; only the cells of earlier sheets are scanned |
| FileProperties.TextFacts | email_extractor_app.py:42 | a paragraph or cell text is scanned as it is |
| FileProperties.TextsFacts | email_extractor_app.py:41-44 | every paragraph is scanned, and nothing else |
| FileProperties.TableFacts | email_extractor_app.py:46-50 | a table scans exactly its cells' texts |
| FileProperties.TablesFacts | email_extractor_app.py:45-50 | the tables scan exactly their cells' texts |
| FileProperties.WordRead | email_extractor_app.py:37-50 | an opened Word document logs one stage line and scans exactly its paragraphs and table cells |
| FileProperties.PageFacts | email_extractor_app.py:56-61 | a page is scanned only when its text is present and not empty; an extraction failure raises |
| FileProperties.PagesLogFree | email_extractor_app.py:55-61 | the page loop logs nothing |
| FileProperties.PagesOutcome | email_extractor_app.py:55-61 | the pages run up to the first failing page, and its exception is the file's |
| FileProperties.PagesScanned | email_extractor_app.py:55-61 | the pages before j scan exactly their non-empty texts |
| FileProperties.PagesSteps | email_extractor_app.py:55-61 | the page loop's log, completion, exception and scanned texts together |
| FileProperties.PdfPagesTrace | email_extractor_app.py:53-61 | an opened PDF logs only its stage line, raises what its first failing page raises, and scans the non-empty texts before it |
| FileProperties.PdfRead | email_extractor_app.py:51-67 | an opened PDF's block is its processing line, the stage line and the failing page's error line; it scans exactly the non-empty page texts before that page |
| FileProperties.PdfPagesFail | email_extractor_app.py:51-67 | a PDF whose page list cannot be read has been announced and adds no email |
| FileProperties.FailingSheet | email_extractor_app.py:27-31 | there is always a first failing sheet, or none fails |
| FileProperties.FailingPage | email_extractor_app.py:55-57 | there is always a first failing page, or none fails |
| FileProperties.SheetLinesReport | email_extractor_app.py:28 | sheet lines are neither processing lines nor error lines |
| FileProperties.WorkbookLinesReport | email_extractor_app.py:25-36 | the spreadsheet branch logs neither processing lines nor error lines |
| FileProperties.WordLinesReport | email_extractor_app.py:37-50 | the Word branch logs neither processing lines nor error lines |
| FileProperties.PdfLinesReport | email_extractor_app.py:51-61 | the PDF branch logs neither processing lines nor error lines |
| FileProperties.TryBlockLinesReport | email_extractor_app.py:24-64 | no branch of the try block logs a processing line or an error line |
| FileProperties.FileLogShape | email_extractor_app.py:22-67 | a file's block starts with its processing line and holds no other; only its last line can be an error line, and it is one exactly when the block raised |
| BatchProperties.ProcessFileCharacterized | email_extractor_app.py:19-67 | one pass adds the file's emails to the set and appends its block to the log |
| BatchProperties.ProcessFileGrows | email_extractor_app.py:19-67 | the set never shrinks, and the log only grows at its end, even when the file raised |
| BatchProperties.UnsupportedLeavesSet | email_extractor_app.py:62-64 | an unsupported file leaves the set unchanged and appends its processing line and the unsupported-type line |
| BatchProperties.GatheredMember | email_extractor_app.py:19-36 | an email is in the union of the files' contributions exactly when one file contributes it |
| BatchProperties.GatheredPrefix | email_extractor_app.py:19-36 | the union over a prefix of the files is contained in the whole union |
| BatchProperties.NumberedPrefix | email_extractor_app.py:19-22 | the blocks of a prefix of the files are a prefix of all the blocks |
| BatchProperties.NumberedSingletons | email_extractor_app.py:19-22 | when each file contributes one line, line i belongs to file i |
| BatchProperties.ExtractedLast | email_extractor_app.py:19-67 | the last pass adds what the last file contributes |
| BatchProperties.ExtractedEmails | email_extractor_app.py:10-67 | the set is the union of what each file contributes, whatever happened to earlier files |
| BatchProperties.ExtractedLogs | email_extractor_app.py:17-67 | the log is the files' blocks in input order |
| BatchProperties.ExtractedGrows | email_extractor_app.py:19-67 | processing more files keeps every email and extends the log at its end |
| BatchProperties.FileLogLines | email_extractor_app.py:22-67 | a file's block has exactly one processing line, its own, and the error line of its exception if it raised |
| BatchProperties.BatchProcessingLines | email_extractor_app.py:14-22 | there is exactly one processing line per file, in input order, numbered i + 1 of N and naming the file, even after files that raised |
| BatchProperties.BlocksAnnounced | email_extractor_app.py:14-22 | the same, for the blocks put together |
| BatchProperties.BlocksProcessingLines | email_extractor_app.py:19-22 | the batch's processing lines are each file's own processing line, in order |
| BatchProperties.BlockAnnouncedAt | email_extractor_app.py:22 | a block's processing lines are its file's processing line |
| BatchProperties.AnnouncedLines | email_extractor_app.py:14-22 | the announced lines are one per file, line i naming file i as i + 1 of N |
| BatchProperties.BatchErrorLines | email_extractor_app.py:65-67 | the batch's error lines are one per file that raised, in input order, with that file's name and its exception message |
| BatchProperties.BlocksFailures | email_extractor_app.py:65-67 | the error lines of the blocks put together |
| BatchProperties.BlockFailuresAt | email_extractor_app.py:65-67 | a block's error lines are its file's error line, if it raised |
| BatchProperties.BatchEmails | email_extractor_app.py:10-61 | the set holds exactly the emails some file contributes |
| BatchProperties.FileFoundSound | email_extractor_app.py:11-34 | a file's email has the pattern's shape and is a substring of a text its reader yields |
| BatchProperties.ResultSound | email_extractor_app.py:10-70 | every returned string has the pattern's shape and comes from one of the batch's files |
| Uploads.CellSteps | email_extractor_app.py:33-34 | definition: a cell that `dropna` keeps is scanned as it is |
| Uploads.ColumnSteps | email_extractor_app.py:32-36 | definition: the cells of a column in order |
| Uploads.SheetSteps | email_extractor_app.py:27-36 | definition: the sheet line, then `read_excel`'s exception or the columns in order |
| Uploads.WorkbookSteps | email_extractor_app.py:25-36 | definition: `pd.ExcelFile`'s exception, or the sheets in order |
| Uploads.TextSteps | email_extractor_app.py:42 | definition: a paragraph or cell text is scanned |
| Uploads.RowSteps | email_extractor_app.py:47-50 | definition: the cells of a table row in order |
| Uploads.TableSteps | email_extractor_app.py:46-50 | definition: the rows of a table in order |
| Uploads.DocumentSteps | email_extractor_app.py:37-50 | definition: `Document`'s exception, or the stage line, the paragraphs, then the tables |
| Uploads.PageSteps | email_extractor_app.py:56-61 | definition: a page's exception, or its text when `if text:` holds |
| Uploads.PdfSteps | email_extractor_app.py:51-61 | definition: `PdfReader`'s exception, or the stage line, then the page list's exception or the pages |
| Uploads.FileSteps | email_extractor_app.py:24-64 | definition: the try block, by the branch the name selects |
| FileNames.Extension | email_extractor_app.py:21 | definition: `os.path.splitext(name)[1]` |
| FileNames.KindOf | email_extractor_app.py:25-62 | definition: the branch a lowercase extension selects |
| FileNames.KindOfName | email_extractor_app.py:21-25 | definition: the branch a file name selects |
| LogLines.ProcessingLine | email_extractor_app.py:22 | definition: the processing line |
| LogLines.SheetLine | email_extractor_app.py:28 | definition: the sheet line |
| LogLines.WordLine | email_extractor_app.py:39 | definition: the Word stage line |
| LogLines.PdfLine | email_extractor_app.py:53 | definition: the PDF stage line |
| LogLines.UnsupportedLine | email_extractor_app.py:63 | definition: the unsupported-type line |
| LogLines.ErrorLine | email_extractor_app.py:66 | definition: the error line |
| Steps.Perform | email_extractor_app.py:24-64 | definition: one step of the try block, none after an exception |
| Steps.Run | email_extractor_app.py:24-65 | definition: the try block run step by step up to its first exception |
| Extractor.ProcessFile | email_extractor_app.py:19-67 | definition: one pass of the loop, with the error line of the `except` clause |
| Extractor.Extracted | email_extractor_app.py:19-68 | definition: the set and the log after the given files |
| EmailPattern.IsLetter | email_extractor_app.py:12 | definition: `[a-z]` under IGNORECASE, with its four non-ASCII letters |
| EmailPattern.InClass | email_extractor_app.py:12 | definition: the pattern's three character classes |
| EmailPattern.SplitsAt | email_extractor_app.py:12 | definition: local part, `@`, domain, dot, two or more TLD letters |
| EmailPattern.InPattern | email_extractor_app.py:12 | definition: the pattern's language |
| StringOrder.Below | email_extractor_app.py:70 | definition: Python's `<` on `str` |
| FileProperties.FileFound | email_extractor_app.py:24-61 | definition: the emails one file adds |
| FileProperties.FileLog | email_extractor_app.py:22-67 | definition: the lines one file adds |
| Steps.Found | email_extractor_app.py:34-36 | definition: the set of strings `findall` returns on one text, which the inner loop adds to `email_set` |
| Steps.FoundAll | email_extractor_app.py:34-36 | definition: the union of `Found` over a list of texts |
| Steps.Concat | email_extractor_app.py:27-50 | definition: the steps of each element of a `for` loop, one after the other |
| Steps.Completed | email_extractor_app.py:24-65 | definition: the steps of a try block before its first exception |
| Steps.FirstRaise | email_extractor_app.py:24-65 | definition: the message of the exception that ends a try block, if any |
| Steps.Scanned | email_extractor_app.py:34-36 | definition: the texts a try block hands to `findall`, in order |
| Steps.Logged | email_extractor_app.py:28-63 | definition: the lines a try block appends to `logs`, in order |
| BatchProperties.Numbered | email_extractor_app.py:19-67 | definition: the blocks of the files one after the other, each given its index |
| BatchProperties.Gathered | email_extractor_app.py:19-36 | definition: the union of what each file adds to `email_set` |
| BatchProperties.Matching | email_extractor_app.py:17-67 | the lines of the log that satisfy a test, in order: no more lines than the log has, each satisfying the test |

## Left out

- The progress bar and the log panel (email_extractor_app.py:15-16, 23, 29, 40, 54, 64, 67, 68) only render state. The fraction `(idx + 1) / total_files` is a float. None of this affects the result or the log.
- `main` and `convert_df_to_excel` (email_extractor_app.py:72 onwards) are Streamlit UI and Excel serialisation, not part of this model.
- The parsers `pd.ExcelFile`, `pd.read_excel`, `docx.Document` and `PyPDF2.PdfReader` are not modelled. An `Upload` holds what each of them yields, with an exception marker at each call the model lets raise. These calls are: opening the workbook, reading each sheet, opening the document, opening the PDF, reading its page list, and extracting each page's text.
- Uploads: pandas turns the header row into column labels, so each sheet holds only its data cells. `dtype=str` makes `str(cell)` the cell's own text.
- Uploads.DocumentSteps: once `Document(...)` has opened a Word file, nothing else in the Word branch (email_extractor_app.py:41-50) is taken to raise: not `doc.paragraphs`, `doc.tables`, `table.rows` or `row.cells`, nor `para.text` or `cell.text`. So a Word file that raises after some of its paragraphs were scanned, keeping their emails and then logging the error line, is not modelled. The model does cover that path for sheets and for pages.
- Uploads: a failing `reader.pages[k]` and a failing `page.extract_text()` are one and the same marker.
- The text of a caught exception, `str(e)`, is an opaque message carried by the marker.
- Exceptions that do not derive from `Exception`, such as `KeyboardInterrupt`, are not modelled; they would end the whole call.
- FileNames.Lower: only ASCII letters are lowered. Python's `str.lower` also lowers other letters. For example, U+212A KELVIN SIGN lowers to `k`, and U+0130 lowers to `i` followed by U+0307. None of the extensions compared with (`.xls`, `.xlsx`, `.xlsm`, `.docx`, `.pdf`) contains `k`. A two-character image cannot stand in for a single extension letter. So the branch chosen is the same.
- FileNames.Extension: `os.path.splitext` is the POSIX one, with '/' as the only separator. On Windows `ntpath` would also split on '\\'. Uploaded names are base names.
- A Dafny `string` cannot hold a lone surrogate code point (U+D800 to U+DFFF), which a Python `str` can. Texts, sheet names and file names that contain one are not represented. No pattern character is a surrogate, so it would act like any other character outside the pattern's classes.
- How the UI reports an empty result (in `main`) is not part of this model; the function returns an empty list.
