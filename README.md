# pdf-md-extractor in Dafny

A model of the command-line PDF-to-Markdown extractor `extract_pdf.py`. The
tool finds one PDF in one of three ways: as a command-line argument, by
manual path entry (typed or dragged into the terminal), or by a capped
recursive search with a numbered picklist. It hands that file to an
external Markdown converter and writes `<stem>.md` next to the input.

The model covers the program's own logic:

- **Path cleanup** (`Sanitize`). Manual entry strips whitespace, then one
  layer of matching quotes, then a leading `file://`, then expands a
  leading `~`. The directory prompt only strips and unquotes.
- **Paths** (`Paths`). Covers the parts of `pathlib.PurePosixPath` the
  program relies on: `Path(text)`, `str(path)`, `name`, `suffix`, `stem`,
  `parent`, `with_suffix` and `relative_to`.
- **PDF acceptance and the output path** (`Pdf`). A path is accepted when
  it exists and its lower-cased suffix is `.pdf`. The output is
  `with_suffix('.md')`.
- **The capped search** (`Search`). `find_pdf_files` is a loop that
  collects files from the glob's output and stops at 20 or at a
  permission error.
- **The picklist** (`Picklist`). Covers how entries are displayed
  (`~/…` under home), the truncation notice, and how one answer line is
  read (cancel, select entry *n − 1*, or ask again).
- **The prompt loops and `main`** (`Cli`). These are functions over a
  script of input lines and an abstract file system. They return an exit
  status and the file written, if any.

Parameters stand in for everything else:

- the value of `HOME`;
- `exists()` and `is_file()` as predicates on paths;
- what `rglob("*.pdf")` yields under each root, as a sequence of steps;
- the converter, as a partial function from paths to text;
- whether the output file can be written.

In these places the program behaves in ways that are easy to misread; the
model follows the code:

- An empty command-line argument (`""`) is falsy in `if args.pdf_file:`.
  It therefore starts the interactive menu instead of failing.
- The "showing first 20 results" notice appears whenever 20 files were
  collected. That includes the case where exactly 20 exist and none were
  left out.
- A `PermissionError` that reaches the loop in `find_pdf_files` ends the
  whole search, and the files already collected are kept. `rglob` itself
  skips directories it cannot list, so the entries it yields already leave
  those out. An error can still escape to the loop, mainly from `is_file()`
  on an entry that cannot be `stat`ed (in a directory that can be read but
  not searched). The walk parameter is the sequence of entries `rglob`
  yields. A `Denied` step is the point at which such an error reaches the
  loop.
- Files found by search are not checked for the `.pdf` suffix again. A
  file named `.pdf` has an empty suffix, and its output would be `.pdf.md`.
  `Cli.GetPdfPath` therefore promises "accepted or discovered", not
  "accepted".
- A path shown with `~/` in the picklist is not always under home. A
  relative search root can contain a directory literally named `~`, since
  the directory prompt does not expand `~`. `Picklist.DisplayTildeIffUnderHome`
  states the iff for absolute paths.

## Model

| member | source | states |
|---|---|---|
| `Text.StripPadded` | extract_pdf.py:112 | `strip()` removes exactly the surrounding whitespace (the full `str.isspace` set): padding around a text with no whitespace at its ends yields that text |
| `Text.LastIndexOf` | extract_pdf.py:140 | `rfind`: the returned index holds the character and nothing after it does; -1 when it does not occur |
| `Decimal.ParseInteger` | extract_pdf.py:61 | a parse succeeds only on an optional sign followed by digits; a negative value needs a leading `-`, and a leading `-` gives a value of 0 or less; `Decimal.ParseAccepts` gives the converse, and `Decimal.ParseLeadingZero`, `Decimal.ParsePlus` and `Decimal.ParseMinus` the values of the non-canonical forms |
| `Decimal.ParseDecimal` | extract_pdf.py:61 | parsing the decimal text of any integer gives that integer back |
| `Decimal.ParseAccepts` | extract_pdf.py:61 | conversely, every optional sign followed by at least one ASCII digit parses |
| `Decimal.ParseLeadingZero` | extract_pdf.py:61 | a leading zero does not change the number: `05` reads as 5 |
| `Decimal.ParsePlus` | extract_pdf.py:61 | a leading `+` does not change the number: `+5` reads as 5 |
| `Decimal.ParseMinus` | extract_pdf.py:61 | a `-` in front of any digit string negates its value: `-05` reads as -5, and `-0` and `-00` as 0 |
| `Paths.FromString` | extract_pdf.py:128 | `Path(text)` always yields a well-formed path: non-empty parts, no `.` part, no separator inside a part |
| `Paths.ToString` | extract_pdf.py:48 | the rendering of a parsed path is never empty and starts with `/` exactly when the path is absolute; `Paths.ParseRendered` shows `Path` reads it back |
| `Paths.ParseRendered` | extract_pdf.py:48 | `Path(str(p)) == p` for every parsed path |
| `Paths.ParseJoined` | extract_pdf.py:125 | parsing `a + "/" + b` gives the root of `a` and the parts of `a` followed by those of `b` |
| `Paths.SuffixOf` | extract_pdf.py:140 | a suffix is empty or a dot followed by dot-free text, and it ends the name after at least one other character |
| `Paths.StemThenSuffix` | extract_pdf.py:140 | a name is its stem followed by its suffix |
| `Paths.WithSuffixKeepsParentAndStem` | extract_pdf.py:161 | `with_suffix` with a single suffix fails only on an empty name; otherwise the result is well formed, has the same parent and stem, and has exactly that suffix |
| `Paths.WithSuffix` | extract_pdf.py:161 | `with_suffix` fails exactly on an invalid suffix or an empty name; otherwise it keeps the root and the number of parts (`Paths.WithSuffixKeepsParentAndStem` gives the rest) |
| `Paths.RelativeTo` | extract_pdf.py:45 | a result exists only when the path is the base followed by more parts under the same root, and it is those parts, as a relative path |
| `Paths.RelativeToExtension` | extract_pdf.py:45 | conversely, every path that extends the base is relative to it, with the added parts as the result |
| `Sanitize.StripQuotes` | extract_pdf.py:115-118 | a text wrapped in one pair of matching quotes loses exactly that pair (a lone quote becomes empty); any other text is unchanged |
| `Sanitize.StripQuotesOneLayer` | extract_pdf.py:115-118 | only the outer pair goes: `"'a'"` becomes `'a'` |
| `Sanitize.StripFileScheme` | extract_pdf.py:121-122 | a leading `file://` is removed once; text without it is unchanged |
| `Sanitize.ExpandUser` | extract_pdf.py:125 | text not starting with `~` is unchanged; a change only happens for `~` alone or `~/…` |
| `Sanitize.TildeParts` | extract_pdf.py:125 | `~/rest` parses to the home directory's parts followed by those of `rest` |
| `Sanitize.TildeIsHome` | extract_pdf.py:125 | `~/rest` expands to a path that `relative_to(Path.home())` maps to `rest` |
| `Sanitize.DroppedFileUrl` | extract_pdf.py:112-122 | a quoted, padded `file://` URL cleans up to the path after the scheme (quotes first, then the scheme) |
| `Sanitize.ManualTilde` | extract_pdf.py:112-125 | a typed `~/rest` reaches `expanduser` untouched and ends up inside the home directory |
| `Sanitize.SanitizeManual` | extract_pdf.py:112-125 | text that does not start with `~` once stripped, unquoted and freed of `file://` reaches `Path` unchanged; `Sanitize.DroppedFileUrl` and `Sanitize.ManualTilde` give the whole pipeline on a dropped URL and on `~/rest` |
| `Sanitize.SanitizeDirectory` | extract_pdf.py:89-93 | the directory answer is never longer than the typed line; the three lemmas below show that it is only stripped and unquoted |
| `Sanitize.DirectoryUnquoted` | extract_pdf.py:89-93 | a padded, quoted answer loses exactly the padding and one pair of quotes, so a quoted `file://` URL keeps its scheme |
| `Sanitize.DirectoryVerbatim` | extract_pdf.py:89-93 | an unquoted answer with no whitespace at its ends is taken as typed, whatever the padding around it |
| `Sanitize.DirectoryKeepsTilde` | extract_pdf.py:89-95 | `~/rest` is passed to `Path` as typed: the directory prompt does not expand `~` |
| `Pdf.PdfSuffixExactly` | extract_pdf.py:140 | the suffix test holds iff the name ends in `.pdf` in any case, after at least one other character |
| `Pdf.AcceptsUpperCase` | extract_pdf.py:189 | `report.PDF` passes the suffix test |
| `Pdf.RejectsOthers` | extract_pdf.py:189 | `report.pdf.txt` and the dot-file `.pdf` fail the suffix test |
| `Pdf.OutputBesideInput` | extract_pdf.py:161 | an input with a `.pdf` suffix (any case) always has an output path: same parent, same stem, suffix `.md`, name = name minus the last four characters plus `.md` |
| `Pdf.ReportPaths` | extract_pdf.py:161 | `report.PDF` is accepted by the suffix test and its output is `report.md` |
| `Search.FilesSound` | extract_pdf.py:26-27 | the `is_file` filter keeps only files, and only paths it was given |
| `Search.SearchRoot` | extract_pdf.py:17-20 | with no directory the search starts at the home directory; otherwise at the parsed directory, which is well formed and absolute exactly when the text starts with `/` |
| `Search.Collect` | extract_pdf.py:22-29 | a search result never holds more than 20 entries; `Search.CollectBoundedOrdered` states which entries they are |
| `Search.CollectBoundedOrdered` | extract_pdf.py:22-29 | the search result has at most 20 entries, all files the walk yielded before any permission error; it is the longest prefix of those files, in walk order, that fits under the cap |
| `Search.NoticeWhenCapped` | extract_pdf.py:52-53 | the truncation notice is shown iff the walk offered at least 20 files, so always when some were left out |
| `Search.FindPdfFiles` | extract_pdf.py:22-33 | the loop returns exactly the capped, ordered collection |
| `Picklist.Interpret` | extract_pdf.py:57-67 | a selection always indexes inside the list; `Picklist.CancelExactly`, `Picklist.SelectExactly` and `Picklist.RepromptExactly` say which answers mean what |
| `Picklist.CancelExactly` | extract_pdf.py:57-59 | an answer cancels iff it is `q` or `Q` once stripped; no other answer cancels |
| `Picklist.RepromptExactly` | extract_pdf.py:57-67 | an answer asks again iff it is neither `q`/`Q` nor an integer from 1 to the number of entries |
| `Picklist.SelectExactly` | extract_pdf.py:61-65 | an answer selects entry i iff it is the integer i + 1 and i is inside the list; 0 and negative numbers get the range message |
| `Picklist.QuitCancels` | extract_pdf.py:57-59 | `q` or `Q`, with any surrounding whitespace, cancels and consumes one line |
| `Picklist.RepromptSkipped` | extract_pdf.py:64-67 | an answer that asks again leaves the outcome to the remaining lines |
| `Picklist.Prompt` | extract_pdf.py:55-67 | the prompt loop returns only entries of the list and always consumes at least one line |
| `Picklist.SelectFromList` | extract_pdf.py:36-39 | an empty list gives "none" and reads no input; any selection is an entry of the list |
| `Picklist.PickShownNumber` | extract_pdf.py:42-63 | typing the 1-based number shown beside entry k (padded or not) selects entry k |
| `Picklist.Display` | extract_pdf.py:44-48 | a path under home is shown starting with `~/`, any other as `str(path)`; `Picklist.DisplayUnderHome` and `Picklist.DisplayElsewhere` show that both forms read back to the path |
| `Picklist.DisplayUnderHome` | extract_pdf.py:44-46 | a path under home is shown as `~/` followed by text that parses back to its parts below home |
| `Picklist.DisplayElsewhere` | extract_pdf.py:47-48 | any other path is shown as `str(path)`, which parses back to the path |
| `Picklist.DisplayTildeIffUnderHome` | extract_pdf.py:44-48 | for an absolute path, the shown text starts with `~/` iff the path is under home |
| `Cli.DiscoveredIsFile` | extract_pdf.py:26 | a path some search lists is a regular file |
| `Cli.MenuChoice` | extract_pdf.py:78-105 | manual entry, the home search and the directory search are picked exactly by `1`, `2` and `3` once stripped; every other answer, `0` and `4`–`9` included, picks no option |
| `Cli.MenuAsksAgain` | extract_pdf.py:104-105 | a menu answer that picks no option is skipped and the menu is shown again |
| `Cli.MenuChoicePadded` | extract_pdf.py:78-88 | `1`, `2` and `3` with any surrounding whitespace pick manual entry, the home search and the directory search |
| `Cli.ManualPath` | extract_pdf.py:108-144 | manual entry returns only paths that exist and have a `.pdf` suffix, and it consumes input |
| `Cli.ManualAcceptsAtOnce` | extract_pdf.py:128-144 | a first line naming an existing PDF is returned at once |
| `Cli.ManualRefusesOtherFiles` | extract_pdf.py:139-142 | an existing non-PDF is refused and the question asked again |
| `Cli.DeclineRetry` | extract_pdf.py:131-137 | after a missing file, any answer other than `y` ends manual entry with no selection |
| `Cli.AcceptRetry` | extract_pdf.py:134-137 | after a missing file, answering `y` in either case, padded or not, asks for the path again |
| `Cli.GetPdfPath` | extract_pdf.py:70-105 | the menu returns only accepted paths or paths a search listed |
| `Cli.Resolve` | extract_pdf.py:184-196 | a resolved input is accepted or was listed by a search |
| `Cli.ExplicitArgument` | extract_pdf.py:184-191 | a non-empty argument resolves to its path iff that path exists with a `.pdf` suffix; otherwise it is a bad argument, without reading any input |
| `Cli.Run` | extract_pdf.py:173-206 | the exit status is 0 or 1, and 0 whenever a file was written |
| `Cli.Convert` | extract_pdf.py:198-206 | after the input is resolved, the status is 0 or 1, and 0 whenever a file was written; `Cli.ExitStatus`, `Cli.WrittenBesideInput` and `Cli.ExtractionFailure` state each ending |
| `Cli.BadArgumentFails` | extract_pdf.py:186-191 | an invalid explicit argument exits with status 1 and writes nothing, whatever the input script holds |
| `Cli.ExitStatus` | extract_pdf.py:193-206 | status 0 iff the user cancelled or the Markdown was written; cancelling writes nothing |
| `Cli.WrittenBesideInput` | extract_pdf.py:158-167 | what is written is the converter's text for the resolved input, at its `.md` output path (same parent and stem) |
| `Cli.ExtractionFailure` | extract_pdf.py:199-201 | a converter failure exits with status 1 and writes nothing |
| `Cli.ReportScenario` | extract_pdf.py:184-206 | an existing, convertible `report.PDF` given as argument is written to `report.md` with status 0 |
| `Cli.TwentyFiveScenario` | extract_pdf.py:22-63 | a walk offering 25 files lists 20 with the notice, and answering `5` picks the walk's fifth file |

## Left out

- The call to `pymupdf4llm.to_markdown` and its exceptions (extract_pdf.py:147-155) are a foreign library. They are the `extract` parameter of `Cli.Run`.
- File writing, UTF-8 encoding and overwriting (extract_pdf.py:163-170) are I/O. Whether the write succeeds is the `canWrite` parameter. A write that fails after `open` has truncated an existing file is not modelled.
- The real file system is replaced by predicates and sequences. `exists()`, `is_file()` and `rglob("*.pdf")` are parameters, and so is the walk's order. The glob's case sensitivity is part of what the walk yields. A `PermissionError` from the walk or from `is_file()` appears only as a `Denied` step.
- `print`, the menu texts, `argparse` and `sys.exit` are CLI plumbing. Only the exit status and the optional positional argument are modelled.
- The "Looked for: …absolute()" message is output only.
- `exists()` can itself raise `PermissionError` (up to Python 3.13 pathlib does not treat "permission denied" as a missing file). The program does not catch it, so it ends with a traceback and status 1. The Boolean `onDisk` parameter cannot express this.
- `KeyboardInterrupt` is not modelled.
- Only the POSIX flavour of `pathlib` is modelled: no Windows drives and no case-insensitive `relative_to`. The special `//` root is also left out.
- `Sanitize.ExpandUser`: it does not look up `~name` in the password database. It leaves `~name` unchanged, which is Python's result for an unknown user.
- `Sanitize.HomePath` does not model the `RuntimeError` of `Path.home()` when home cannot be determined.
- `Decimal.ParseInteger` approximates Python's `int()`. It does not accept underscores between digits or non-ASCII digits. It also has no digit limit: since Python 3.11, `int()` refuses a text of more than 4300 digits (leading zeros included), so the program asks again where the model reads the number.
- `Text.Lower` lower-cases ASCII letters only. This is exact for every comparison the program makes ("q", "y", ".pdf").
- `Paths.SuffixOf` follows the suffix rule in which a trailing dot is not a suffix. Python 3.14 counts a lone trailing dot as a suffix. Neither rule changes the `.pdf` test or the `.md` output name.
- `Cli.GetPdfPath`: the selected path is promised to be accepted or listed by some search. The contract does not name the root that search started from.
- `Picklist.DisplayTildeIffUnderHome`: the iff is stated for absolute paths only. For relative ones it can fail, as described above.
