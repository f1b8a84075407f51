# Document security scan, modelled in Dafny

`scripts/scan_docs.py` scans the folder `doc/` and writes a Markdown report.
Each entry whose name ends in `.pdf`, `.docx` or `.txt` is handled as follows:

- The extension is compared case-insensitively, and the tests are made in that order.
- The entry's text is extracted.
- The text is searched, case-insensitively, for ten fixed indicator patterns.
- The entry gets one table row: `| file | status | risk |`.

The status is `✅ Safe` with risk `Low` when no indicator was found. Otherwise it is
`⚠️ Suspicious (p1, p2, …)`, naming the patterns found in configuration order, with risk `High`.

A reader that raises does not stop the scan. Its message becomes the text
`Error reading PDF|DOCX|TXT: <message>`, and that text is classified like any other.

The model is a set of pure functions over strings and sequences:

| file | module | what it holds |
|---|---|---|
| `wrappers.dfy` | `Wrappers` | `Option` and `Result` |
| `seqs.dfy` | `Seqs` | order-preserving selection: `Filter`, `FilterMap`, `IsSubsequence`, and the lemma that an ordered selection from a duplicate-free list is unique |
| `text.dfy` | `Text` | ASCII lower-casing, `endswith`, `join`, one-character `split` with both round trips, newline-terminated lines |
| `regex.dfy` | `Regex` | the fragment of `re` syntax the patterns use (literal characters, `\`-escapes, `.`, `?`, `*`) |
| `classifier.dfy` | `Classifier` | the ten indicators and `scan_text` |
| `extraction.dfy` | `Extraction` | extension dispatch, the PDF and DOCX text joins, the error texts, and the readers as parameters |
| `report.dfy` | `Report` | the scan loop of `main`, the report file it writes, and a reader for that file |

About `regex.dfy`:

- `re.search` is modelled twice: once as a backtracking matcher and once as a declarative language, and the two are proved to agree.
- A parser for pattern text is proved to invert the renderer. This ties every configured pattern string to the pattern it denotes.

I/O is modelled as follows:

- The folder listing is an input sequence, in the order `os.listdir` returns it.
- The three readers (PyPDF2, python-docx, the UTF-8 text reader) are functions from a path to `Ok(value)` or `Err(message)`.
- The report file is the string written to it.

## Model

| member | source | states |
|---|---|---|
| Regex.MatchHereIsPrefixInLanguage | scripts/scan_docs.py:18 | the anchored backtracking matcher succeeds exactly when some prefix of the text is a whole match of the pattern |
| Regex.SearchFindsSubstringInLanguage | scripts/scan_docs.py:18 | `re.search` succeeds exactly when some stretch of the text is a whole match of the pattern |
| Regex.LiteralSearchIsContainment | scripts/scan_docs.py:18 | for a pattern of plain characters, an IGNORECASE search is substring containment after ASCII lower-casing |
| Regex.SearchNeedsPlainAtom | scripts/scan_docs.py:18 | a text with no character for some unquantified atom of the pattern has no match |
| Regex.ParseRender | scripts/scan_docs.py:10-13 | reading back the text of any piece sequence gives the same pieces, so pattern text denotes one pattern |
| Classifier.IndicatorsParse | scripts/scan_docs.py:10-13 | each configured pattern string reads as the pattern the model searches for (`http://`, `https?://.*bit\.ly`, `cmd.exe`, …) |
| Classifier.ConfiguredIndicators | scripts/scan_docs.py:10-13 | the indicators carry exactly the configured pattern strings, in order, without repetition |
| Classifier.Hits | scripts/scan_docs.py:16-19 | a pattern is in the result iff it is searched for and found; the result keeps list order; no pattern appears twice; every indicator is tried |
| Classifier.IssuesAreTheOrderedHits | scripts/scan_docs.py:16-19 | any order-preserving selection of the configured patterns that holds exactly the found ones is the issue list |
| Classifier.Classify | scripts/scan_docs.py:20-22 | the risk is High or Low; High exactly when some indicator matches; the status is Safe exactly when the risk is Low |
| Classifier.ScanText | scripts/scan_docs.py:15-22 | the same three facts for the configured indicators |
| Classifier.HighIffIssues | scripts/scan_docs.py:20-22 | High risk exactly when the issue list is non-empty; Safe status exactly when it is empty |
| Classifier.StatusNamesIssues | scripts/scan_docs.py:21-22 | the status cell can be decoded back to the exact issue list (empty for Safe), so the `', '.join` loses nothing |
| Classifier.StatusStaysInCell | scripts/scan_docs.py:21-22 | a status cell never holds a table bar or a newline |
| Classifier.PlainLinkExample | scripts/scan_docs.py:15-22 | the text `visit http://example.com now` is `⚠️ Suspicious (http://)` / High: the plain-link indicator fires and no other does |
| Classifier.PlainProseExample | scripts/scan_docs.py:15-22 | the text `hello world` is `✅ Safe` / Low |
| Classifier.ScanIgnoresFilename | scripts/scan_docs.py:15-22 | `scan_text` depends on the content alone: equal content gives equal status and risk cells whatever the file name |
| Classifier.MacroFlagged | scripts/scan_docs.py:15-22 | any text holding `macro` in any letter case is High and not Safe, with `macro` among its issues |
| Extraction.FormatOf | scripts/scan_docs.py:51-62 | an entry is read as format f exactly when its lower-cased name ends with f's extension; since no name ends with two extensions, the order of the tests does not matter; any other entry is skipped |
| Extraction.SuffixesExclusive | scripts/scan_docs.py:51-55 | no name ends with two of `.pdf`, `.docx`, `.txt` |
| Extraction.FormatOfExtension | scripts/scan_docs.py:51-55 | any stem followed by a format's extension in any letter case (`A.PDF`, `b.DocX`) is read as that format |
| Extraction.PdfTextLength | scripts/scan_docs.py:27 | the PDF text is every page text plus one separator between neighbouring pages, nothing more |
| Extraction.PdfTextConcat | scripts/scan_docs.py:27 | the text of a page run is the text of its first part, a space, and the text of the rest |
| Extraction.PdfTextPages | scripts/scan_docs.py:27 | when page texts hold no space, splitting the PDF text at spaces gives back each page's text, with "" for a page whose extraction returned None |
| Extraction.DocxTextParagraphs | scripts/scan_docs.py:34 | when paragraphs hold no space, splitting the DOCX text at spaces gives back the paragraphs |
| Extraction.ErrorTextReadsBack | scripts/scan_docs.py:28-29 | an error text names its format and carries the exception message unchanged (the same form at lines 35-36 and 59-60) |
| Extraction.FailureBecomesErrorText | scripts/scan_docs.py:51-60 | when the reader fails, the text `Content` classifies is the format's error text with the reader's message (the `except` branches at lines 28-29, 35-36 and 59-60) |
| Extraction.PdfContentPages | scripts/scan_docs.py:24-27 | when the PDF reader succeeds, `Content` is the page join: with no space in any page text, splitting it at spaces gives back the page texts, "" for a page without text |
| Extraction.DocxContentParagraphs | scripts/scan_docs.py:31-34 | when the DOCX reader succeeds, `Content` is the paragraph join: with no space in any paragraph, splitting it at spaces gives back the paragraphs |
| Extraction.TxtContentIsText | scripts/scan_docs.py:55-58 | when the text reader succeeds, `Content` is exactly the text read, and no failure is reported |
| Report.Row | scripts/scan_docs.py:51-65 | an entry gets a row exactly when its extension is recognised, and the row names the entry |
| Report.ScanFiles | scripts/scan_docs.py:47-65 | the rows name exactly the recognised entries, in listing order, and each row holds `scan_text` of that entry's extracted or error text |
| Report.ScanConcat | scripts/scan_docs.py:47-65 | the rows for a listing split in two are the rows of the first part followed by the rows of the second |
| Report.RowCount | scripts/scan_docs.py:47-62 | there are as many rows as recognised entries |
| Report.FailedEntryStillReported | scripts/scan_docs.py:56-65 | an entry whose reader fails still gets its row, classified from its error text |
| Report.WriteReport | scripts/scan_docs.py:42-65 | the file written line by line equals the heading, header and rule followed by the lines of the scanned rows |
| Report.RenderedAppend | scripts/scan_docs.py:65 | each row appends exactly one line to the file: a bar, the padded file, status and risk cells each followed by a bar, then a newline |
| Report.NothingRecognised | scripts/scan_docs.py:43-45 | with no recognised entry, the file is the heading, an empty line, the header and the rule, and nothing else |
| Report.ParseRowLine | scripts/scan_docs.py:65 | a row whose cells hold no bar or newline reads back as its file, status and risk |
| Report.ReportReadsBack | scripts/scan_docs.py:42-65 | a report whose cells hold no bar or newline reads back as its rows |
| Report.WrittenReportReadsBack | scripts/scan_docs.py:42-65 | the written report of a folder whose entry names hold no bar or newline reads back as the scanned rows |
| Report.BrokenDocxExample | scripts/scan_docs.py:31-36 | a `.docx` entry that is not a zip archive, whose name has none of the letters h, m, w, j, b, v, u, gets the row `✅ Safe` / Low: the error text `Package not found at 'doc/<name>'` trips no indicator |
| Report.BrokenMacroDocxExample | scripts/scan_docs.py:31-36 | a `.docx` entry that is not a zip archive and has `macro` in its name gets a `⚠️ Suspicious` / High row with `macro` among the issues, because the error text quotes the entry's path |

## Left out

- Regular expressions beyond the fragment the ten patterns use (character classes, alternation, anchors, groups, counted repetition) are not modelled. The parser rejects them.
- Case-insensitive matching folds ASCII letters only. Python's `re.IGNORECASE` on `str` also folds non-ASCII letters; for example, U+212A KELVIN SIGN matches `k` and U+017F LATIN SMALL LETTER LONG S matches `s`. A text that spells an indicator with such letters is found by the script but not by the model.
- `os.makedirs(REPORT_FOLDER)` (lines 39-40), opening and closing the report file (line 42) and the final `print` (line 67) are I/O, so they are not modelled.
- `os.listdir(DOC_FOLDER)` (line 47) is replaced by its result, the listing, which is an input. A missing `doc/` folder makes the script raise. That exception is not modelled.
- `os.path.join` is modelled as `"doc/" + name`, the POSIX result for a plain entry name.
- The readers' internals are not modelled: PDF parsing, DOCX unzipping, and UTF-8 decoding with `errors="ignore"`. Each reader is a parameter that returns text or the exception message. An exception raised while extracting a later PDF page also ends in the PDF error text, because the whole list is built inside one `try`. The model covers that case, since the reader's result is all or nothing.
- Classifier.Hits: requires the pattern strings to be pairwise distinct, which the Python loop does not need. The configured list satisfies it (Classifier.ConfiguredIndicators), and `scan_text` always calls it on that list.
- Report.WrittenReportReadsBack: requires entry names without `|` or newline. The script writes such names into the table unescaped, which breaks the row.
- This script has only High and Low risk. It has no Medium level, no status or risk counts, no charts, and no HTML or PDF rendering, so none of these is modelled.
- A file whose reader fails is not a distinct outcome: its error text is classified like any content. The error text carries the exception message, and python-docx's message for a file that is not a zip archive quotes the path, so the entry's own name decides the row: `notes.docx` is `✅ Safe` (Report.BrokenDocxExample), `macro.docx` is `⚠️ Suspicious` (Report.BrokenMacroDocxExample).
- The script's pattern is `vbscript`, without a colon.
