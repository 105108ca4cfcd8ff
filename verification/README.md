# parse_db, modelled in Dafny

This project models `parse_db` from `backend/src/modules/pdf_parser.py`. That function is the layout-driven extractor that turns the sports-calendar PDF into competition records.

Once `pdfplumber` has produced each page's positioned words, `parse_db` is a pure text transformation in three stages. Each stage is one module here:

- **Layout** (`layout.dfy`) handles one page at a time:
  - words are grouped into visual lines;
  - a `|` token is inserted at wide horizontal gaps;
  - the title scan collects runs of title-height words into `sport_names`;
  - the first page loses its `header_height` leading lines.
- **Classify** (`classify.dfy`) is the state machine over all lines. Its state is `sport_name`, `sport_composition`, `sport_names` and `final_string`.
  - Footers are skipped.
  - Section headers and roster labels switch the state.
  - Data lines are appended to `final_string` once both values are known.
  - A leading 16-digit EKP number closes the current block and opens a new one.
- **Assembly** (`assembly.dfy`) cuts `final_string` into blocks at `"\n\n\n"`. Every block that splits on `|` into at least eight segments becomes an 11-field `Record`; shorter blocks are skipped.
- **PdfParser** (`parser.dfy`) is the page loop over the first fifty pages, followed by the assembly.

Supporting modules:

- `results.dfy` holds `Option`, `Result` and the two faults.
- `strings.dfy` holds the Python `str` operations the parser uses: `strip`, `split`, `join`, `in` and `s[1:]`.
- `settings.dfy` holds the keyword arguments and their defaults.

Python behaviour is modelled explicitly:

- `parse_db` does not catch two IndexErrors. They are modelled as `Err` results:
  - `words[i+j]` past the end of the page during the title scan (`TitleScanOutOfRange`);
  - `processed_lines[-2]` on a one-line page (`NoSecondToLastLine`).
- The per-block `try`/`except` is an `Option`, where `None` means the block is skipped.
- `words[i-j]` with `i-j < 0` wraps to the end of the list (`Layout.PyIndex`).
- Slices follow Python's clamping rules, including a negative `header_height`.

The number of records is not bounded by the number of 16-digit lines. The code can produce a record from rows emitted before any EKP line, in two ways:

- **An EKP line follows.** Such a row shares the first block with the closing marker ` | name | composition` that the EKP line appends. That block becomes a record, the first of the result, once the row holds five `|` (`Assembly.RowBeforeMarkerYieldsRecord`).
- **No EKP line follows.** A single such row is a block of its own. It yields a record when it holds seven `|` (`Assembly.DataRowAloneYieldsRecord`).

## Model

| member | source | states |
|---|---|---|
| `Layout.LinesFrom` | backend/src/modules/pdf_parser.py:29-52 | no reconstructed line is empty: a line is only appended when a word closes it |
| `Layout.LinesFollowTopChanges` | backend/src/modules/pdf_parser.py:49-52 | the lines are the token runs of a partition of the page's words into consecutive runs, each closed at the last word or where the next word's `top` differs and nowhere else; an empty page has no lines and a non-empty one has at least one |
| `Layout.LinesPreserveWordsAndGaps` | backend/src/modules/pdf_parser.py:29-52 | concatenating the lines gives exactly the page's token stream, with no stray or doubled `|`: every word of the page in order, and a `|` follows word `i` exactly when `i` is not the last word and `x0` of word `i+1` minus `x1` of word `i` exceeds the threshold |
| `Layout.GapScenario` | backend/src/modules/pdf_parser.py:44-50 | two same-row words farther apart than the threshold render as the single line `a | b` |
| `Layout.DropHeader` | backend/src/modules/pdf_parser.py:54-55 | pages other than index 0 keep all their lines; page 0 keeps a suffix whose length follows Python's `lines[h:]` for positive and negative `h` |
| `Layout.ScanTitleCharacterized` | backend/src/modules/pdf_parser.py:32-41 | the scan raises exactly when the run reaches `i+j` past the page before breaking; it records a name exactly when it breaks at an offset whose backward word lacks the title height, and the name is the run's words joined with spaces |
| `Layout.PageStartTitleLooksAtPageEnd` | backend/src/modules/pdf_parser.py:36-39 | for the first word of a page `words[0-1]` is the page's last word, so whether a one-word title there is recorded depends on how the page ends |
| `Layout.PageTitles` | backend/src/modules/pdf_parser.py:29-41 | `sport_names` is append-only; the page raises exactly when one title-height word's scan raises; every name a scan records is added and every added name was recorded by some scan |
| `Layout.LastTitleWordRaises` | backend/src/modules/pdf_parser.py:35-36 | a page whose last word has the title height always raises, because its scan reads `words[i+1]` past the end |
| `Classify.ClassifyLine` | backend/src/modules/pdf_parser.py:57-80 | `sport_names` is untouched and output is only appended; while either value is `"default"` output is unchanged; the line raises exactly when it is a non-EKP data line on a page of fewer than two lines |
| `Classify.ControlLinesNotEmitted` | backend/src/modules/pdf_parser.py:58-69 | a footer containing `Стр.` leaves the state unchanged; an upper-case, `|`-free line listed in `sport_names` only sets `sport_name`; a roster label only sets `sport_composition` |
| `Classify.InactiveLineKeepsState` | backend/src/modules/pdf_parser.py:71 | while either value is `"default"`, a line that switches neither changes nothing |
| `Classify.EkpLineOpensBlock` | backend/src/modules/pdf_parser.py:72-76 | a data line starting with 16 digits appends the closing marker ` | name | composition` and the block separator, then ` | <first 16 chars> | <rest stripped>` and a newline |
| `Classify.DataLineAppended` | backend/src/modules/pdf_parser.py:77-80 | any other data line appends exactly ` | line` and a newline, then the page-end marker when the line equals the page's second-to-last line and nothing otherwise; only the output changes |
| `Classify.ClassifyPage` | backend/src/modules/pdf_parser.py:57-80 | over a whole page `sport_names` is unchanged and output only grows; only a one-line page can raise |
| `Classify.InactivePageEmitsNothing` | backend/src/modules/pdf_parser.py:57-71 | a page whose lines are neither headers nor roster labels, met while inactive, leaves the state exactly as it was |
| `Classify.HeaderTestOnStrippedLine` | backend/src/modules/pdf_parser.py:61-63 | the header test's second `strip()` is a no-op on the already stripped line |
| `Strings.StripUnique` | backend/src/modules/pdf_parser.py:61 | a trimmed core surrounded by blanks strips to exactly that core; together with `Strip`'s contract this pins `strip()` down |
| `Strings.StripSlice` | backend/src/modules/pdf_parser.py:61 | `strip()` removes a run of blanks from each end and nothing else |
| `Strings.ContainsOccurs` | backend/src/modules/pdf_parser.py:58 | the footer test `sub in s` holds exactly when `sub` occurs at some index of `s` |
| `Strings.SplitThenJoin` | backend/src/modules/pdf_parser.py:84 | joining the parts of a split with the separator gives back the string |
| `Strings.JoinThenSplit` | backend/src/modules/pdf_parser.py:84 | splitting a join of separator-free parts on a one-character separator gives back the parts |
| `Strings.SplitAround` | backend/src/modules/pdf_parser.py:82 | splitting `a + sep + b` gives the parts of `a` followed by the parts of `b` when `a` does not end in a separator character |
| `Strings.SplitCount` | backend/src/modules/pdf_parser.py:84 | splitting on one character yields one more part than the character's occurrences |
| `Assembly.BlockToRecord` | backend/src/modules/pdf_parser.py:83-98 | a block yields a record exactly when `block.strip()[1:].split("|")` has at least eight segments, equivalently at least seven `|` after its first character; otherwise it is skipped |
| `Assembly.FieldMapping` | backend/src/modules/pdf_parser.py:84-95 | segments 0-7 feed EKP number, class, start date, country, people count, genders and ages, end date and city; the last two feed sport name and composition; `new[8:-2]` feeds the discipline |
| `Assembly.DisciplineIsStrippedMiddle` | backend/src/modules/pdf_parser.py:93 | the discipline is the stripped segments between the eighth and the second-to-last, joined with spaces; the inner re-split on `|` never changes a segment |
| `Assembly.Collect` | backend/src/modules/pdf_parser.py:82-100 | the output is shorter than the block list by exactly the number of skipped blocks |
| `Assembly.CollectOne` | backend/src/modules/pdf_parser.py:82-100 | one block contributes its parsed record, or nothing when the `try` fails |
| `Assembly.CollectAppend` | backend/src/modules/pdf_parser.py:82-100 | records come out in block order: the records of two runs of blocks are the first run's records followed by the second's |
| `Assembly.CollectedComeFromBlocks` | backend/src/modules/pdf_parser.py:82-100 | every collected record was parsed from some block |
| `Assembly.ParsedBlocksAreCollected` | backend/src/modules/pdf_parser.py:82-100 | every block that parses contributes its record |
| `Assembly.Assemble` | backend/src/modules/pdf_parser.py:82-100 | there are at most as many records as blocks |
| `Assembly.AssembleExact` | backend/src/modules/pdf_parser.py:82-100 | a record is in the output exactly when some block of the stripped accumulated string parses to it |
| `Assembly.BlockRoundTrip` | backend/src/modules/pdf_parser.py:84-95 | a record whose fields contain no `|` and no surrounding blanks, written as `|f0|...|f10` in segment order, reads back as itself |
| `Assembly.OpenedBlockKeepsEkp` | backend/src/modules/pdf_parser.py:72-85 | any block ` | number | x` an EKP line opens, whether more output follows it or it is the last block with its newline stripped, yields (if kept) a record whose EKP number is the line's first 16 characters |
| `Assembly.EmittedBlockOpens` | backend/src/modules/pdf_parser.py:72-82 | the closing marker, separator and opening row an EKP line appends put a block starting ` | number | ` into the blocks of the output, whatever was emitted before and after, provided something non-blank follows the number |
| `Assembly.EkpLineKeepsEkp` | backend/src/modules/pdf_parser.py:72-100 | an EKP line met while both values are set leaves a block ` | number | x` in the blocks of the output, whatever output follows; if that block is kept, its record is in the result and carries the line's first 16 characters as its EKP number |
| `Assembly.LeadingMarkerDropped` | backend/src/modules/pdf_parser.py:75-98 | an output that starts with the closing marker `CloseBlock(name, composition)` (nothing emitted before the first EKP line) loses that two-segment first block: its records are those of the remaining blocks |
| `Assembly.RowBeforeMarkerYieldsRecord` | backend/src/modules/pdf_parser.py:75-98 | for any output that starts with a data row followed by the closing marker an EKP line appends, the first block of `final_string.strip().split("\n\n\n")` is the row and the marker together (`| row`, a newline, ` | name | composition`); with five `|` in the row that block is kept and its record is the first of the result |
| `Assembly.DataRowAloneYieldsRecord` | backend/src/modules/pdf_parser.py:78 | a lone data row with seven `|` yields one record with no EKP line anywhere |
| `Assembly.EmptyOutputNoRecords` | backend/src/modules/pdf_parser.py:82-102 | an empty accumulated string gives no records |
| `PdfParser.FirstPages` | backend/src/modules/pdf_parser.py:24 | `pdf.pages[0:50]` is exactly the first fifty pages of a longer document and the whole document otherwise |
| `PdfParser.CompositionStaysTrimmed` | backend/src/modules/pdf_parser.py:66-69 | across the page loop `sport_composition` only ever holds a stripped line, so it never gains a blank at either end |
| `PdfParser.InitialCompositionTrimmed` | backend/src/modules/pdf_parser.py:19 | the initial `sport_composition`, `"default"`, has no blank at either end |
| `PdfParser.ProcessPage` | backend/src/modules/pdf_parser.py:24-80 | names and output only grow; a page raises the title-scan fault exactly when its title scan raises; any other failure is the second-to-last-line fault on a one-line page |
| `PdfParser.RunPages` | backend/src/modules/pdf_parser.py:24-80 | across pages `sport_names` is append-only and `final_string` only grows |
| `PdfParser.ParseDb` | backend/src/modules/pdf_parser.py:4-102 | an exception escapes exactly when one escapes the page loop; otherwise there is at most one record per block of `final_string` |
| `PdfParser.ParseDbRecordsAreBlocks` | backend/src/modules/pdf_parser.py:82-102 | the records returned are exactly the records of the well-formed blocks of `final_string` |
| `PdfParser.EmptyDocument` | backend/src/modules/pdf_parser.py:17-102 | a document with no pages returns an empty list without raising |
| `PdfParser.PagesBeyondFiftyIgnored` | backend/src/modules/pdf_parser.py:24 | pages after the fiftieth never affect the result |
| `PdfParser.InactivePageAddsNothing` | backend/src/modules/pdf_parser.py:29-80 | a page without headers or roster labels, met before both values are known, adds nothing to `final_string` |

## Left out

- `pdfplumber.open` and `page.extract_words()` (lines 17 and 25) are file I/O and a foreign library. The pages are an input: a sequence of word lists.
- Floating-point geometry is not modelled. `x0`, `x1` and `top` are `int`. `height` is the already truncated `int(height)` that line 32 compares.
- Unicode `str.upper()` is a function parameter of `Config` (`upper`). Its behaviour is not modelled.
- `str.strip()` is modelled only for the ASCII members of `str.isspace()`: tab through carriage return, 0x1C-0x1F and space.
- The regular expression `\d{16}` is modelled as sixteen ASCII digits.
- `print("skip", e)` on line 97 is diagnostic output. A skipped block is only `None` here.
- `Classify.ClassifyLine` leaves the case analysis of a single line to four lemmas (`ControlLinesNotEmitted`, `InactiveLineKeepsState`, `EkpLineOpensBlock`, `DataLineAppended`). Its own contract states only the invariants and the error condition, which keeps each proof small.
- `Assembly.EkpLineKeepsEkp`: an EKP line whose rest of line is blank, with only blanks emitted after it, is not covered. Its block is then ` | number |` after `strip()`, which has two segments and is skipped anyway.
- `Assembly.RowBeforeMarkerYieldsRecord` assumes that the row, the sport name and the composition hold no line break, and that the composition ends in a non-blank. Lines rebuilt from words hold no line break unless a word does; the composition is a stripped roster label.
- `PdfParser.ParseDb`: the exception type escaping `parse_db` is reduced to the two `Fault` values. The Python traceback and message are not modelled.
- Title names that stay in `sport_names` across pages, and duplicates in it, are modelled as Python keeps them: a plain list with membership tests.
- `aiogram_bot/src/bot.py`, `backend/src/main.py` and `backend/tests/test_main.py` are network, database and HTTP plumbing. None of them contains parser logic.
