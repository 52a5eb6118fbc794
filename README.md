# pybedtools `fix`: a verified model

The pybedtools test suite writes the BED output it expects by hand, as
indented, loosely spaced text, and passes it through the helper `fix(x)`
before comparing it with what a `BedTool` operation produced. `fix` is
defined twice, identically, in `pybedtools/test/test1.py` and
`pybedtools/test/test_helpers.py`, and both copies share this one model. It
walks over the lines of `x`. It strips each line and skips the line if
nothing is left. Otherwise it splits the line on runs of whitespace, joins
the fields with single tabs, adds a `\n` and appends the result to the
output.

The project has three modules:

- `PyText` (`pytext.dfy`) models the Python 2 byte-string operations `fix`
  uses: `str.splitlines()`, `str.strip()`, `str.split()` with no argument,
  and `sep.join(...)`. It also holds their algebra:
  - `splitlines` undoes a newline join;
  - `split` ignores surrounding whitespace;
  - `split` undoes a whitespace join;
  - a tab join of fields is a tab-delimited line, and a tab-delimited line
    is the tab join of its own fields.
- `BedFix` (`fix.dfy`) defines `fix` itself, in two forms:
  - the function `Fix`;
  - the method `FixLoop`, which runs the loop as the source does and is
    proved equal to `Fix`.

  `BedFix` also gives an independent meaning to the output. `Records` is
  the list of field lists of the non-blank lines, and `Render` is canonical
  tab-separated text with one record per line. The proofs show:
  - `Fix(x)` is `Render(Records(x))`;
  - `Records` undoes `Render`;
  - `fix` is idempotent;
  - the output has one line per non-blank input line, in order;
  - which characters can appear in the output;
  - when the output is empty.
- `BedFixCases` (`fix_cases.dfy`) proves the expected outputs of three tests
  and the block shapes those tests use:
  - `merge`, with space-separated fields and a trailing space;
  - `subtract`, with five indented tab-separated rows;
  - `center`, with four indented tab-separated rows.

Strings are byte strings. Each character stands for one byte, and only the
ASCII whitespace of Python 2's `str.isspace()` counts: space, `\t`, `\n`,
`\v`, `\f` and `\r`. Line breaks are `\n`, `\r` and `\r\n`.

The docstring of `fix` says that it "lstrip()s" each line and "replaces
spaces with tabs". The code does more than that:
- it strips both ends of each line;
- it turns every run of any whitespace into one tab.

The model follows the code.

## Model

| member | source | states |
|---|---|---|
| PyText.SplitLines | pybedtools/test/test1.py:16 | `x.splitlines()` gives lines that hold no line break. There are no lines exactly when the text is empty. |
| PyText.SplitLinesConsTerm | pybedtools/test/test1.py:16 | A break-free line followed by `\n`, `\r\n` or a lone `\r` is the first line, and `splitlines` goes on after the terminator. `\r\n` counts as one terminator, and the terminator is part of no line. |
| PyText.SplitLinesJoinLines | pybedtools/test/test1.py:16 | `splitlines` recovers exactly the break-free lines that were each ended by `\n`. |
| PyText.SplitLinesUnterminated | pybedtools/test/test1.py:16 | A last line with no terminator is still returned as a line of its own. |
| PyText.BlankSplitLines | pybedtools/test/test1.py:16-18 | Text is whitespace-only exactly when every line `splitlines` returns is whitespace-only. |
| PyText.Strip | pybedtools/test/test1.py:17-18 | `strip()` is empty exactly when the line is whitespace-only. Otherwise it starts and ends with a non-whitespace character. |
| PyText.StripTrims | pybedtools/test/test1.py:17 | `strip()` returns a slice of the line with only whitespace removed before and after it. |
| PyText.SplitWs | pybedtools/test/test1.py:20 | Every field of `split()` is non-empty and holds no whitespace. There are no fields exactly when the line is whitespace-only. |
| PyText.SplitWsLeading | pybedtools/test/test1.py:20 | Leading whitespace does not change the fields of `split()`. |
| PyText.SplitWsTrailing | pybedtools/test/test1.py:20 | Trailing whitespace does not change the fields of `split()`. |
| PyText.SplitWsStrip | pybedtools/test/test1.py:17-20 | Splitting the stripped line gives the same fields as splitting the raw line. |
| PyText.SplitWsJoin | pybedtools/test/test1.py:20-21 | Splitting fields joined by any whitespace character gives back exactly those fields. |
| PyText.JoinTabDelimited | pybedtools/test/test1.py:21 | A tab join of one or more fields is tab-delimited. It has no other whitespace, no tab at either end and no two adjacent tabs. |
| PyText.TabDelimitedJoin | pybedtools/test/test1.py:20-21 | A tab-delimited line is the tab join of its own `split()` fields, so such a line passes through unchanged. |
| PyText.Join | pybedtools/test/test1.py:21 | `'\t'.join(fields)`. Its contract is carried by `SplitWsJoin`, which says splitting the join gives back the fields, and by `JoinTabDelimited`, which says the tab join is a tab-delimited line. |
| BedFix.Fix | pybedtools/test/test1.py:9-23 | `fix(x)` as a function of the input. Its contract is carried by `FixIsRender`, which says `fix` renders the records of its input, and by `FixIdempotent`, which says `fix` is idempotent. |
| BedFix.NormalizeLine | pybedtools/test/test1.py:17-21 | What one loop pass appends. Its contract is carried by `NormalizeLineBlank`. |
| BedFix.FixAll | pybedtools/test/test1.py:15-22 | The accumulation `s += i` over a list of lines. Its contract is carried by `FixAllAppend`, which says it composes over concatenation, and by `FixAllRender`, which says it renders the records of the lines. |
| BedFix.FixLoop | pybedtools/test/test1.py:9-23 | The loop that strips each line, skips empty ones and appends each line's tab-joined fields plus `\n` returns `Fix(x)`. |
| BedFix.FixAllAppend | pybedtools/test/test1.py:15-22 | The accumulation `s += i` is compositional: the output for two runs of lines is the two outputs concatenated. |
| BedFix.NormalizeLineBlank | pybedtools/test/test1.py:17-21 | One loop pass adds nothing for a whitespace-only line. For any other line it adds the split fields joined by tabs, plus `\n`. |
| BedFix.BlankLineIgnored | pybedtools/test/test1.py:18-19 | A whitespace-only line anywhere among the lines does not change the output. |
| BedFix.FixCons | pybedtools/test/test1.py:16-22 | A first line ended by `\n`, `\r\n` or a lone `\r` contributes its own normal form ahead of the output for the rest, and the terminator never reaches the output. |
| BedFix.FixLast | pybedtools/test/test1.py:16-22 | A final line without a newline is still normalised and ended by `\n`. |
| BedFix.RecordsOfWellFormed | pybedtools/test/test1.py:17-20 | Every record read from the lines has at least one field, and no field is empty or holds whitespace. |
| BedFix.RecordsOrder | pybedtools/test/test1.py:16-20 | There is one record per non-blank line. The k-th record is the `split()` of the k-th non-blank line. |
| BedFix.FixAllRender | pybedtools/test/test_helpers.py:15-22 | The loop over any list of lines renders the records read from those lines. |
| BedFix.FixIsRender | pybedtools/test/test_helpers.py:9-23 | `fix(x)` is the canonical rendering of the records of `x`. |
| BedFix.RenderLines | pybedtools/test/test_helpers.py:20-22 | The k-th line of rendered text is the k-th record joined by tabs, and it is tab-delimited. Every line, the last included, ends in exactly one `\n`. |
| BedFix.RecordsRender | pybedtools/test/test_helpers.py:16-21 | Reading records back from rendered text gives the same records, so `Records` undoes `Render`. |
| BedFix.FixIdempotent | pybedtools/test/test_helpers.py:9-23 | `fix(fix(x)) == fix(x)` for every input. |
| BedFix.FixLines | pybedtools/test/test1.py:16-22 | The output has one line per non-blank input line, in order. Each line is tab-delimited, carries the same fields as its input line and ends in one `\n`. |
| BedFix.FixChars | pybedtools/test/test1.py:20-22 | The output is empty or ends in `\n`. It holds no space, `\r`, `\v` or `\f`. |
| BedFix.RecordsOfEmpty | pybedtools/test/test_helpers.py:16-19 | No records are read exactly when every line is whitespace-only. |
| BedFix.FixEmpty | pybedtools/test/test_helpers.py:15-19 | The output is empty exactly when the input is whitespace-only, the empty string included. |
| BedFixCases.NormalizeFields | pybedtools/test/test1.py:17-21 | An indented line of fields, separated by any whitespace character and followed by trailing whitespace, becomes the fields joined by tabs plus `\n`. |
| BedFixCases.NormalizeTabDelimited | pybedtools/test/test1.py:17-21 | An indented tab-delimited row loses its indentation and gains a `\n`, and is otherwise unchanged. |
| BedFixCases.FixTwoWords | pybedtools/test/test1.py:16-22 | Two words separated by any line terminator come out as two records, each ended by `\n`. |
| BedFixCases.FixLoneCr | pybedtools/test/test1.py:16 | A lone `\r` splits records as `\n` does, so `fix("a\rb")` is `a\nb\n`, not `a\tb\n`. |
| BedFixCases.FixCrLf | pybedtools/test/test1.py:16 | `\r\n` is one terminator, so `fix("a\r\nb")` is `a\nb\n`. |
| BedFixCases.FixTrailingCr | pybedtools/test/test1.py:16 | A final `\r` ends the last line and opens no empty one, so `fix("a\r")` is `a\n`. |
| BedFixCases.FixSingleRow | pybedtools/test/test1.py:408-410 | A block that opens with a newline and has one indented row, trailing spaces and a whitespace-only last line gives that row tab-joined plus `\n`. |
| BedFixCases.MergeExpected | pybedtools/test/test1.py:408-410 | The expected `merge(d=700)` text is exactly `chr1\t155\t901\n`. |
| BedFixCases.FixAllIndented | pybedtools/test/test_helpers.py:126-130 | Rows of records, indented alike, with fields separated by one whitespace character shared by every row, render as canonical BED lines. |
| BedFixCases.FixBlock | pybedtools/test/test_helpers.py:126-130 | A block that opens with a newline and leaves its last row unterminated gives the rendering of its rows. |
| BedFixCases.FixBlockClosed | pybedtools/test/test1.py:156-160 | A block that opens with a newline, ends every row with a newline and closes on a whitespace-only indentation line gives the rendering of its rows. |
| BedFixCases.IndentedNoBreak | pybedtools/test/test_helpers.py:126-130 | Every line of such a block is non-empty and holds no line break. |
| BedFixCases.FixIndentedFour | pybedtools/test/test_helpers.py:126-130 | A newline followed by four indented tab-delimited rows, the last unterminated, gives the four rows, each ended by `\n`. |
| BedFixCases.CenterExpected | pybedtools/test/test_helpers.py:126-130 | The expected `center(width=10)` text is the four rows tab-separated, each ended by `\n`. |
| BedFixCases.FixIndentedFive | pybedtools/test/test1.py:302-307 | The five-row version of the same block shape gives the five rows, each ended by `\n`. |
| BedFixCases.SubtractExpected | pybedtools/test/test1.py:302-307 | The expected strand-blind `subtract` text is the five rows tab-separated, each ended by `\n`. |

## Left out

- The `test_*` functions of both files are left out. They drive `BedTool`
  operations through the external BEDTools programs and compare the results
  with `fix`'s output; only `fix` and three of its expected values are
  modelled.
- The file system, temporary directories, the UCSC/MySQL helpers, floating
  point values and random intervals in the test modules are left out.
  None of them reaches `fix`.
- Unicode strings are left out. For `unicode`, Python 2's `splitlines` and
  `isspace` recognise further characters (`\x1c`-`\x1e`, `\x85`,
  `\u2028`, ...). The model covers the byte strings the tests pass.
- `fix` applied to something that is not a string (a Python type error) is
  not modelled.
- Only the `merge`, `subtract` and `center` expectations are proved as
  concrete cases. `FixSingleRow`, `FixBlock` and `FixBlockClosed` cover, in
  general, the blocks whose fields are separated by one whitespace character:
  - one row;
  - several rows with an unterminated last row;
  - several rows closed by an indentation-only line, the shape of most
    other literals in `test1.py`.

  Rows that separate fields with runs of several spaces are not covered
  by these block lemmas. Examples are `pybedtools/test/test1.py:192`, `:290` and
  `:676`. For them only the general theorems apply: `NormalizeLineBlank`
  (one line in any whitespace), `FixLines`, `FixIsRender`, `FixCons` and
  `FixLast`.
