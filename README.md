# Payslip splitter, modelled in Dafny

The payslip splitter takes a multi-page PDF, one employee's payslip per page, and an
employee spreadsheet. It writes every page to a file of its own, named after the employee
when the page can be matched, and reports one record per page. This project models the
four parts of the program that hold its logic and proves what they promise:

- **`parse_excel`** (module `DirectoryLoader`, `directory_loader.dfy`). It reads the
  sheet "EMAIL SALAIRE " and strips the header names. It refuses a sheet that lacks one of
  `MATRICULE`, `NOM ET PERENOM` or `EMAIL`, and otherwise folds the rows into a map from
  employee code ("matricule") to name and e-mail. This is a method with a loop over the rows.
- **`extract_info_from_text`** (module `PageText`, `page_text.dfy`). It finds the leftmost
  `PERCO?\d+` code and turns its letter `O` into `0`. It derives the period label ("OCT25")
  from the first `dd/dd/dd` date.
- **`generate_filename`** (module `Filenames`, `filenames.dfy`). It builds the file name:
  the last one or two characters of the code's last digit run ("00" when the code has no
  digit), then a space, then the sanitised name. A name of two or more words becomes its
  last word and its first word joined by a space; any other name stays as sanitised. Then
  come the fixed label and the period.
- **`process_pdf_splits`** (module `PdfSplits`, `pdf_splits.dfy`). A loop over the pages.
  For each page it extracts the code, looks it up, writes the page through an
  `OutputStore` object and appends one record.

`Text` (`text.dfy`) holds the pieces of Python's `str` that the program relies on:
`isspace`, `strip`, `split`, `upper`, `replace` and `str(int)`. `Wrappers` holds `Option` and `Result`.

The PDF comes in as the sequence of its page texts; an absent text is the empty string.
The spreadsheet comes in as a map from sheet name to headers and rows of cell texts, each
cell as `str()` renders it, so an empty cell is `"nan"`. Every raised exception becomes an
`Err` value.

Where the design notes of the project and the code disagree, the model follows the code:

- **Pages without a code.** On a page that has text but no code,
  `app/services/pdf_service.py:21` calls `.replace` on `None`. This raises and ends the whole
  run, with the earlier pages already written. It does not degrade to "NON TROUVE" as the
  design notes say. The run is modelled as `Err(NoCodeOnPage(i))`, and
  `ProcessPdfSplits` states which files were written before it.
- **Rows without a code.** The loader skips only rows whose stripped code is `"nan"`. A
  blank code is kept as the key `""` (`BlankCodeKept`), which the design notes exclude.
- **The code pattern.** It is `PERCO?\d+`, which is "PERC", an optional letter O, then
  digits. It is not "PER" followed by an optional "CO" or "C".
- **Month names.** Not all the month abbreviations have four letters: "FEV", "MAI", "OCT",
  "NOV" and "DEC" have three, and "AVRIL" has five.

## Model

| member | source | states |
|---|---|---|
| `PageText.FindCode` | app/services/pdf_service.py:19 | the search gives the smallest position where `PERCO?\d+` matches, and none only when no position matches |
| `PageText.CodeEnd` | app/services/pdf_service.py:19-20 | the greedy `\d+` ends the match after the whole digit run: every character from the digits' start to the end is a digit, and the character at the end, if any, is not |
| `PageText.DigitsStart` | app/services/pdf_service.py:19 | the digits start right after "PERC", or right after "PERCO" exactly when the letter after "PERC" is O, and a digit is there |
| `PageText.Normalize` | app/services/pdf_service.py:21 | `replace("O", "0")` keeps the length, leaves no letter O and changes no other character |
| `PageText.NormalizedMatch` | app/services/pdf_service.py:19-21 | replacing `O` by `0` in the match gives "PERC", then "0" if the letter O was there, then the matched digits; always "PERC" plus digits |
| `PageText.FindDate` | app/services/pdf_service.py:28 | the first `findall` hit is the smallest position where `dd/dd/dd` matches |
| `PageText.MonthName` | app/services/pdf_service.py:30-43 | the placeholder "MOIS" comes back exactly when the month group is not in the table; every name has three to five letters |
| `PageText.Period` | app/services/pdf_service.py:28-44 | `period_str`; its properties are stated by `PeriodEmpty`, `PeriodOfFirstDate`, `PeriodWithoutDate` and `PeriodShape` |
| `PageText.ExtractInfo` | app/services/pdf_service.py:9-46 | empty text gives `(None, None)` and nothing else does; non-empty text in which `PERCO?\d+` matches nowhere raises, and only such text; an extracted code is "PERC" plus digits |
| `PageText.ExtractLeftmost` | app/services/pdf_service.py:19-21 | the code reported is the leftmost match, normalised, and the period is the page's period |
| `PageText.PeriodOfFirstDate` | app/services/pdf_service.py:39-44 | the period is the month name of the first date's middle group followed by its year group |
| `PageText.PeriodEmpty` | app/services/pdf_service.py:35-44 | the period is "" exactly when the page holds no date |
| `PageText.PeriodWithoutDate` | app/services/pdf_service.py:35 | a page without a date has the period "" |
| `PageText.PeriodShape` | app/services/pdf_service.py:30-44 | the period ends with the two year digits, and starts with "MOIS" exactly when the month group is not 01 to 12 |
| `PageText.NoCodeWithoutP` | app/services/pdf_service.py:19 | no code starts before the first letter P |
| `PageText.NoDateWithoutSlash` | app/services/pdf_service.py:28-35 | text without '/' has the period "" |
| `PageText.ExtractUndated` | app/services/pdf_service.py:19-46 | a page whose first P starts a code and that has no '/' gives that code and the period "" |
| `PageText.ExtractPlainCode` | test_regex.py:10 | "Matricule : PERC001" gives "PERC001" |
| `PageText.ExtractLetterO` | test_regex.py:11 | "Matricule : PERCO123" matches "PERCO123", which is normalised to "PERC0123" |
| `PageText.ExtractNoCode` | test_regex.py:13 | "No match here" has no code, so extraction raises |
| `PageText.PeriodFirstOfTwo` | app/services/pdf_service.py:36-44 | "01/10/25 31/10/25" gives "OCT25" |
| `Filenames.DigitRunsFrom` | app/services/pdf_service.py:55 | every `\d+` hit is a non-empty run of digits |
| `Filenames.LastDigits` | app/services/pdf_service.py:55-56 | the prefix is one or two digits |
| `Filenames.NoDigitRuns` | app/services/pdf_service.py:55 | text without digits has no `\d+` hits |
| `Filenames.LastRunEndsAtLastDigit` | app/services/pdf_service.py:55-56 | the last `\d+` hit is the maximal digit run that ends at the last digit: it starts at the beginning or right after a non-digit, and has two or more digits exactly when the character before the last digit is a digit |
| `Filenames.LastTwoOfRun` | app/services/pdf_service.py:56 | `[-2:]` of that run is its last two digits, or the one digit it has |
| `Filenames.LastDigitsAtLastDigit` | app/services/pdf_service.py:55-56 | the prefix is the last digit together with the digit before it, when that is a digit |
| `Filenames.LastDigitsWithoutDigits` | app/services/pdf_service.py:56 | a code without digits gives "00" |
| `Filenames.LastDigitsOfCode` | app/services/pdf_service.py:55-56 | for a "PERC" code the prefix is its last two characters, or its single digit ("PERC5" gives "5") |
| `Filenames.KeepAllowed` | app/services/pdf_service.py:58 | what remains after removal holds only ASCII letters, digits and whitespace |
| `Filenames.Sanitize` | app/services/pdf_service.py:58 | the sanitised name holds only A-Z, digits and whitespace, and is no longer than the name |
| `Filenames.KeepAllowedOfAllowed` | app/services/pdf_service.py:58 | removal keeps a name that has no other characters |
| `Filenames.SanitizeAllowed` | app/services/pdf_service.py:58 | such a name is only upper-cased |
| `Filenames.SanitizeIdempotent` | app/services/pdf_service.py:58 | sanitising a sanitised name changes nothing |
| `Filenames.KeepAllowedAppend` | app/services/pdf_service.py:58 | removal works character by character: it distributes over concatenation |
| `Filenames.SanitizeRemovesOne` | app/services/pdf_service.py:58 | one disallowed character between allowed ones simply disappears |
| `Filenames.FormatNameTwoWords` | app/services/pdf_service.py:66-70 | with two or more words the formatted name is exactly two words, the last then the first, and middle words are dropped |
| `Filenames.FormatName` | app/services/pdf_service.py:66-72 | `formatted_name`; its properties are stated by `FormatNameTwoWords`, `FormatNameFewWords` and `FormatNameThreeWords` |
| `Filenames.SplitReordered` | app/services/pdf_service.py:66-70 | "last first" built from two words splits back into exactly those two words |
| `Filenames.FormatNameFewWords` | app/services/pdf_service.py:71-72 | with fewer than two words the sanitised name is kept unsplit and untrimmed |
| `Filenames.FormatNameThreeWords` | app/services/pdf_service.py:66-70 | "A B C" becomes "C A" |
| `Filenames.GenerateFilename` | app/services/pdf_service.py:48-74 | the name is the code's last digits, a space, the sanitised and reordered name, " BULLETIN DE SALAIRE " and the period, each at a place that can be read back |
| `Filenames.FilenameParts` | app/services/pdf_service.py:74 | given the digits and the formatted name, the whole file name is determined |
| `Filenames.SanitizeExample` | app/services/pdf_service.py:60 | "KOFFI N'GUESSAN HERVE" sanitises to "KOFFI NGUESSAN HERVE" |
| `Filenames.FormatNameExample` | app/services/pdf_service.py:60-64 | "KOFFI NGUESSAN HERVE" formats to "HERVE KOFFI" |
| `Filenames.NameExample` | app/services/pdf_service.py:58-72 | "KOFFI N'GUESSAN HERVE" becomes "HERVE KOFFI" |
| `Filenames.LastDigitsExample` | app/services/pdf_service.py:54-56 | "PERC001" gives the prefix "01" |
| `Filenames.FilenameExample` | app/services/pdf_service.py:51-52 | "PERC001", "KOFFI N'GUESSAN HERVE", "OCT25" give "01 HERVE KOFFI BULLETIN DE SALAIRE OCT25" |
| `Text.DigitRun` | app/services/pdf_service.py:19 | the digit run starting at a position is maximal |
| `Text.Strip` | app/utils/excel_parser.py:33-35 | a stripped string neither starts nor ends with whitespace |
| `Text.StripShape` | app/utils/excel_parser.py:18 | stripping keeps exactly the slice between the leading and the trailing whitespace |
| `Text.StripOfStripped` | app/utils/excel_parser.py:18 | a string without surrounding whitespace strips to itself |
| `Text.StripTrailingSpace` | app/utils/excel_parser.py:18 | one trailing space is removed |
| `Text.StripAllSpace` | app/utils/excel_parser.py:33 | whitespace only strips to "" |
| `Text.StripIdempotent` | app/utils/excel_parser.py:18 | stripping twice is stripping once |
| `Text.Split` | app/services/pdf_service.py:66 | `str.split()`; `SplitWords`, `SplitLosesOnlySpace`, `SplitEmpty`, `SplitCons` and `SplitAfterSpace` state it |
| `Text.SplitWords` | app/services/pdf_service.py:66 | every word of `split()` is non-empty and has no whitespace |
| `Text.SplitLosesOnlySpace` | app/services/pdf_service.py:66 | the words glued back together are the non-whitespace characters, in order |
| `Text.SplitEmpty` | app/services/pdf_service.py:66-67 | there are no words exactly when the text is all whitespace |
| `Text.SplitCons` | app/services/pdf_service.py:66 | a word followed by whitespace is the first word of the split |
| `Text.SplitAfterSpace` | app/services/pdf_service.py:66 | leading whitespace adds no word; with `SplitCons` and `SplitEmpty` this fixes the split of every string |
| `Text.SplitTwoWords` | app/services/pdf_service.py:66-70 | "first last" splits back into those two words |
| `Text.Upper` | app/services/pdf_service.py:58 | upper-casing works character by character and keeps the length |
| `Text.ReplaceChar` | app/services/pdf_service.py:21 | every `O` becomes `0` and nothing else changes |
| `Text.NatToString` | app/services/pdf_service.py:89 | `str(n)` is digits without a leading zero that denote `n` |
| `DirectoryLoader.StripAll` | app/utils/excel_parser.py:18 | every header name is stripped |
| `DirectoryLoader.Missing` | app/utils/excel_parser.py:21-22 | the missing columns are exactly the required ones absent after stripping, in required order |
| `DirectoryLoader.MissingNone` | app/utils/excel_parser.py:22-24 | nothing is missing when every required name is present |
| `DirectoryLoader.ColumnIndex` | app/utils/excel_parser.py:33-35 | a column is read at the first header with its name |
| `DirectoryLoader.Updates` | app/utils/excel_parser.py:32-35 | one update per row, in row order: the row's stripped code, name and e-mail |
| `DirectoryLoader.Fold` | app/utils/excel_parser.py:31-44 | the map built by the updates; `FoldKeysExact` and `FoldLastWins` state its keys and values |
| `DirectoryLoader.FoldKeysExact` | app/utils/excel_parser.py:37-44 | the keys of the map are exactly the codes of the updates other than "nan" |
| `DirectoryLoader.FoldLastWins` | app/utils/excel_parser.py:41-44 | the last update with a code decides its entry |
| `DirectoryLoader.Directory` | app/utils/excel_parser.py:31-44 | the map after the first rows; `DirectoryKeys` and `DirectoryLastRowWins` state its keys and values |
| `DirectoryLoader.Load` | app/utils/excel_parser.py:7-50 | what `parse_excel` returns or raises; `LoadFails` states when it fails |
| `DirectoryLoader.ParseExcel` | app/utils/excel_parser.py:7-50 | the loop builds the directory the row fold defines; it fails exactly when the sheet or a required column is missing |
| `DirectoryLoader.DirectoryStep` | app/utils/excel_parser.py:32-44 | one more row adds or overwrites its stripped code, unless the code is "nan" |
| `DirectoryLoader.LoadFails` | app/utils/excel_parser.py:15-29 | the load fails exactly when the sheet is absent or a required column is missing after stripping |
| `DirectoryLoader.DirectoryKeys` | app/utils/excel_parser.py:32-44 | the keys are exactly the stripped codes of the rows, "nan" excepted |
| `DirectoryLoader.DirectoryLastRowWins` | app/utils/excel_parser.py:41-44 | for duplicate codes the last row's stripped name and e-mail win |
| `DirectoryLoader.DirectoryKeysTrimmed` | app/utils/excel_parser.py:33-39 | no key has surrounding whitespace, and no key is "nan" |
| `DirectoryLoader.BlankCodeKept` | app/utils/excel_parser.py:33-39 | a whitespace-only code is not skipped and becomes the key "" |
| `DirectoryLoader.PlaceholderValuesStored` | app/utils/excel_parser.py:34-44 | a "nan" name or e-mail is stored as it is |
| `DirectoryLoader.TrailingSpaceHeader` | app/utils/excel_parser.py:18-22 | a header "NOM ET PERENOM " satisfies the required "NOM ET PERENOM" |
| `DirectoryLoader.MissingEmail` | app/utils/excel_parser.py:21-29 | a sheet without "EMAIL" is refused, and the error names that column only |
| `DirectoryLoader.MissingFromIdAndName` | app/utils/excel_parser.py:21-22 | with only the code and name columns, "EMAIL" alone is missing |
| `PdfSplits.OutputStore.Write` | app/services/pdf_service.py:104-108 | writing a page replaces whatever the path held and logs the write |
| `PdfSplits.Join` | app/services/pdf_service.py:104 | the path ends with the file name and, for a relative name, starts with the directory |
| `PdfSplits.JoinInjective` | app/services/pdf_service.py:104 | within one directory, different relative file names give different paths |
| `PdfSplits.Record` | app/services/pdf_service.py:86-118 | "TROUVE" exactly when the page has a code in the directory; name, e-mail and file name then come from the directory; otherwise "", "" and "page_<i+1>.pdf"; the id is the extracted code whenever there is one, matched or not, and "UNKNOWN_<i>" exactly for an empty page |
| `PdfSplits.NotFoundName` | app/services/pdf_service.py:89 | `f"page_{i+1}.pdf"`; `NotFoundNamesDistinct` and `FilenameShowsStatus` state its properties |
| `PdfSplits.UnknownId` | app/services/pdf_service.py:111 | `f"UNKNOWN_{i}"`; `Record` states that it is used exactly for an empty page |
| `PdfSplits.FirstCrash` | app/services/pdf_service.py:84-86 | the first page that raises, or the page count when none does |
| `PdfSplits.Records` | app/services/pdf_service.py:84-118 | one record per page processed |
| `PdfSplits.RecordsAt` | app/services/pdf_service.py:110-118 | record j is that of page j |
| `PdfSplits.RecordAt` | app/services/pdf_service.py:110-118 | record j of the first n pages is that of page j |
| `PdfSplits.Paths` | app/services/pdf_service.py:104-108 | one written path per record, in order |
| `PdfSplits.Store` | app/services/pdf_service.py:104-108 | what the output directory holds after the writes; `StoreLastWriteWins` and `StoreElsewhereUnchanged` state it |
| `PdfSplits.Run` | app/services/pdf_service.py:76-120 | what the loop returns or raises; `RunOutcome`, `RunStopsAt` and `RunCompletes` state it |
| `PdfSplits.RunOutcome` | app/services/pdf_service.py:76-120 | a run completes exactly when no page raises, with one record per page in page order and `original_index` equal to the position; otherwise it fails at the first page that raises |
| `PdfSplits.ProcessPage` | app/services/pdf_service.py:85-118 | one page fails exactly when it raises, and then writes nothing; otherwise it gives its record and exactly one write, to the record's path |
| `PdfSplits.ProcessPdfSplits` | app/services/pdf_service.py:76-120 | the loop returns what the run defines and writes, in page order, the paths of every page before the first that raises |
| `PdfSplits.PassPage` | app/services/pdf_service.py:84-86 | a page that does not raise moves the first crash past it |
| `PdfSplits.RunStopsAt` | app/services/pdf_service.py:86 | the first page that raises ends the run with its error |
| `PdfSplits.RunCompletes` | app/services/pdf_service.py:120 | when no page raises, the run returns all records |
| `PdfSplits.StoreAppend` | app/services/pdf_service.py:107-110 | one more page is one more write |
| `PdfSplits.WriteAppended` | app/services/pdf_service.py:104-110 | after one more page the log and the files are those of the longer record list |
| `PdfSplits.FilenameShowsStatus` | app/services/pdf_service.py:88-101 | a file name starts with "page_" exactly when the page is "NON TROUVE" |
| `PdfSplits.NotFoundNamesDistinct` | app/services/pdf_service.py:89 | different pages never share a "page_<n>.pdf" name |
| `PdfSplits.NotFoundPageKept` | app/services/pdf_service.py:89-104 | no other page is written to the path of an unmatched page |
| `PdfSplits.SameCodeSamePath` | app/services/pdf_service.py:99-104 | two matched pages with the same code and period go to the same file |
| `PdfSplits.StoreLastWriteWins` | app/services/pdf_service.py:107-108 | the last write to a path decides which page it holds |
| `PdfSplits.StoreElsewhereUnchanged` | app/services/pdf_service.py:107-108 | a path no page is written to keeps what it held |
| `PdfSplits.UnmatchedPagesKept` | app/services/pdf_service.py:88-108 | after a run without errors, each unmatched page is on disk under its own path |

## Left out

- Reading the PDF and writing the pages (`PdfReader`, `extract_text`, `PdfWriter`, `open`).
  The model takes the page texts and records each write in `OutputStore`; it does not
  model file contents. It does not model an error while writing either.
- Reading the workbook through pandas. Cells come in already rendered by `str()`, so the
  model does not cover numeric formatting, the `pd.isna` test (never true of a `str`) or
  the logging and re-raising at app/utils/excel_parser.py:48-50.
- Duplicate header names after stripping. pandas would return several columns for one
  name; the model reads the first.
- Unicode in `\d` and `upper()`. Digits are ASCII `0`-`9`, and only `a`-`z` are
  upper-cased. Python also accepts other decimal digits and upper-cases non-ASCII
  letters. Whitespace is Python's full `isspace` set.
- Windows path separators in `os.path.join`. The model uses the POSIX rule.
- Logging.
- E-mail sending, ZIP packaging, uploads, the web application, its settings and the
  database models. These are not part of this model.
- The launcher and analysis scripts. `test_regex.py` is used only for its expected values.
