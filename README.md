# compare_columns, modelled in Dafny

`compare_columns.py` compares two chosen columns of every CSV, TSV or TXT
file in a directory and writes one HTML report per file, showing each row's
two cells and a rendering of their textual diff. This project models the
decision and assembly logic of that script:

- `read_delimited_file`: the lower-cased extension picks which
  `pd.read_csv` calls are made and in what order. A `.txt` file is read with
  tabs first and with commas when that gives one column or fails. A decode
  failure that reaches the outer handler is retried once as a comma read in
  `latin1`. Any other exception is re-raised as "Error reading file: ...".
- `compare_columns_in_file`: the check on the two 1-based column indices
  (only the upper bound, with `iloc` reading a negative position from the
  end), the report list (template, one row per pair of cells numbered
  from 1, closing tags), the report file name
  `comparison_report_<stem>.html`, and the `True`/`False` outcome.
- `get_column_indices_and_headers` and `main`: reading `"a,b"` as two
  integers, keeping the directory entries whose lower-cased name ends in a
  supported extension, and the loop that counts each file as processed or
  failed.

The foreign parts are parameters. `Reader.Parser` stands for `pd.read_csv`.
`Report.Differ` stands for `diff_main`, `diff_cleanupSemantic` and
`diff_prettyHtml` on one pair of cells. `Report.Writer` stands for opening
and writing the report file. The directory dialog, the three prompts and
`os.listdir` become arguments of `Batch.RunBatch`.

Files:

- `wrappers.dfy`: `Option` and `Result`.
- `text.dfy`: the parts of Python's `str` and `int` the script relies on:
  `lower`, `endswith`, `rfind`, `split`, `join`, `int(text)` and decimal
  formatting.
- `paths.dfy`: `os.path.basename`, `os.path.splitext` and `os.path.join`
  on POSIX.
- `reader.dfy`: `read_delimited_file` and the plan of reads it follows.
- `report.dfy`: `generate_html_template` and `compare_columns_in_file`.
- `batch.dfy`: `get_column_indices_and_headers` and `main`.

Two details of the script that the model keeps:

- The report is named after the input's basename with its extension
  removed.
- The `latin1` retry happens only for a decode failure that reaches the
  outer handler. A decode failure of the first, tab-separated read of a
  `.txt` file is swallowed by its bare `except`. The comma read then decides.

## Model

| member | source | states |
|---|---|---|
| `Reader.TryAttemptsAreUtf8` | compare_columns.py:85-100 | The body of the outer `try` makes at most two reads, all in UTF-8. |
| `Reader.TryBlockIsLastTry` | compare_columns.py:84-102 | The body of the outer `try` returns or raises what its last read did; with no read (unsupported extension) it raises "Unsupported file format: " and the extension. |
| `Reader.ReadFollowsLastAttempt` | compare_columns.py:82-107 | The plan of reads is empty exactly for an unsupported extension. Otherwise the result is the outcome of the last read made: a frame is returned; a UTF-8 read that ends the plan never failed to decode and its failure is wrapped as "Error reading file: ..."; the failure of the `latin1` retry escapes unwrapped. |
| `Reader.UnsupportedRefused` | compare_columns.py:101-107 | An extension other than `.csv`, `.tsv` or `.txt` makes no read and fails with "Error reading file: Unsupported file format: " followed by the extension. |
| `Reader.FirstAttempt` | compare_columns.py:85-92 | A supported file is read first with commas if it is `.csv` and with tabs otherwise, both in UTF-8. |
| `Reader.TxtPlan` | compare_columns.py:89-100 | For `.txt` the tab read is returned exactly when it parsed into more than one column; otherwise, whether it raised or found one column, the comma read comes next and its frame is returned. |
| `Reader.Latin1Fallback` | compare_columns.py:103-105 | At most three reads; the `latin1` read happens only last, only as a comma read, and exactly when the outer `try` body raised a decode failure, for every extension. |
| `Reader.ReadIgnoresExtensionCase` | compare_columns.py:83 | Two paths whose extensions agree after lower-casing, with the same file contents, are read the same way with the same result (`X.CSV` like `x.csv`). |
| `Reader.ExtensionInAnyCase` | compare_columns.py:83 | A name with a non-dot stem ending in `.csv`, `.tsv` or `.txt` in any mix of cases has that suffix as its extension and is handled as the lower-case one. |
| `Paths.BasenameIsLastComponent` | compare_columns.py:112 | The basename holds no '/', ends the path, and is preceded by a '/' unless it is the whole path. |
| `Paths.SplitExtRejoins` | compare_columns.py:134 | The root and the extension of a path concatenate to the path. |
| `Paths.ExtShape` | compare_columns.py:83 | The extension is empty or a '.' followed by characters that are neither '.' nor '/'. |
| `Paths.ExtOfBasename` | compare_columns.py:83 | The extension of a path is the extension of its basename, and its root is the directory part followed by the root of the basename. |
| `Paths.SplitExtOfName` | compare_columns.py:134 | A name made of a '/'-free stem with a non-dot character and an extension splits exactly into that stem and that extension. |
| `Paths.BasenameOfJoin` | compare_columns.py:172 | The basename of `os.path.join(directory, name)` is `name`, for a directory entry name. |
| `Paths.ExtOfJoin` | compare_columns.py:172 | The extension seen through the joined path is the entry's own. |
| `Report.RowsAt` | compare_columns.py:125-129 | The row numbered `i + 1` shows the `i`-th cell of each column and the diff of that pair. |
| `Report.SelectColumns` | compare_columns.py:119-123 | The column pair is accepted exactly when both indices lie in 1..width, and then selects columns `col1 - 1` and `col2 - 1`; otherwise the IndexError carries the indices and the width. |
| `Report.BuildReport` | compare_columns.py:125-131 | The loop leaves the list as the template, then for each of the N zipped pairs the row numbered 1..N showing that pair and its diff, then the closing tags (`IsReportList`). |
| `Report.ReportListIsLines` | compare_columns.py:113-131 | A list has that layout exactly when it is the template, the N rows and the closing tags of the reference `ReportLines`. |
| `Report.ReportFromRead` | compare_columns.py:115-145 | After the read, the method's outcome is the reference outcome `ReportOfRead`, with the bounds check and `iloc` as written: read failure, an index past the last column, a position `iloc` cannot reach, write failure, or the report written under its name. |
| `Report.CompareColumnsInFile` | compare_columns.py:109-145 | The whole per-file operation equals the reference outcome `FileReport` for the path's basename. |
| `Report.RowNumberOfFragment` | compare_columns.py:129 | Each appended row shows its own number in its first cell. |
| `Report.TemplateIsNotRow` | compare_columns.py:21-78 | The template entry is not a table row. |
| `Report.LinesLayout` | compare_columns.py:113-131 | After a first entry that is not a row, the list holds exactly N table rows, the i-th numbered i with the i-th cells and their diff. |
| `Report.ReportLayout` | compare_columns.py:113-131 | The finished list has N + 2 entries: the template, exactly N table rows numbered 1..N in input order, and the closing `</table></body></html>`. |
| `Report.ReportNameLayout` | compare_columns.py:134-135 | The report name is "comparison_report_", the root of the basename, then ".html". |
| `Report.ReportNameInjective` | compare_columns.py:134-135 | Two inputs get the same report name exactly when their roots agree. |
| `Report.ReportNamesCollide` | compare_columns.py:134-135 | `a.csv` and `a.txt` write the same report file `comparison_report_a.html`. |
| `Report.ReportNameOfEntry` | compare_columns.py:134-135 | The report for a directory entry is named after the entry without its extension. |
| `Report.OutOfRangeWritesNothing` | compare_columns.py:119-120 | When `col1 - 1` or `col2 - 1` is at least the column count, the outcome is the failure carrying the indices and the column count, and nothing is written. |
| `Report.WrittenReport` | compare_columns.py:115-141 | A report is written exactly when the read succeeded, the bounds check and `iloc` accepted the indices and the write succeeded; it is named after the basename and holds the report lines on the selected columns joined by line breaks. |
| `Report.ReportOfPositiveIndices` | compare_columns.py:119-123 | For indices of 1 and up, the per-file outcome is the one the corrected check gives. |
| `Report.ZeroIndexReportsLastColumn` | compare_columns.py:119-123 | With indices `0,1` the file is reported on with its last column against its first, where the corrected check refuses the indices. |
| `Report.AsWrittenAgreesForPositive` | compare_columns.py:119-123 | For indices of 1 and up, the check as written and the corrected check select the same columns or fail the same way. |
| `Report.AsWrittenAcceptsZero` | compare_columns.py:119-123 | As written, index 0 passes the check and compares the last column; the corrected check refuses it. |
| `Batch.FilterSupported` | compare_columns.py:161-162 | The kept entries are exactly the listed names whose lower-cased form ends in `.csv`, `.tsv` or `.txt`. |
| `Batch.ParseColumnIndicesNeedsOneComma` | compare_columns.py:18 | The indices are accepted only when the input holds exactly one comma. |
| `Batch.ParseColumnIndicesShowInt` | compare_columns.py:18 | Two integers printed around a comma are read back as that pair. |
| `Text.ParseIntShowInt` | compare_columns.py:18 | `int()` reads back every integer Python prints. |
| `Batch.SupportedSuffix` | compare_columns.py:161-162 | A kept entry's last four characters lower-case to one of the supported extensions. |
| `Batch.SupportedEntryIsRead` | compare_columns.py:161-162 | A kept entry with a non-dot stem is read under the extension the filter matched. |
| `Batch.DotNamePassesFilterButIsRefused` | compare_columns.py:161-162 | The entry `.csv` passes the filter but has no extension, so reading it fails as unsupported. |
| `Batch.ReportsAreNotInputs` | compare_columns.py:161-162 | A report file never passes the filter. |
| `Batch.ReportsWrittenShape` | compare_columns.py:171-178 | The report files left after the loop are named by the successful files, number at most the successes, and each holds the content of the last success that wrote it. |
| `Batch.TallyStep` | compare_columns.py:175-178 | One more file adds one to the successes exactly when it was written, and its report replaces any earlier one of the same name. |
| `Batch.CompareEach` | compare_columns.py:171-178 | The loop counts as processed exactly the files whose outcome was a written report, counts the rest as failed, and leaves the reports those outcomes wrote. |
| `Batch.RunBatch` | compare_columns.py:147-178 | `main` stops when no directory is chosen, when the index input is invalid, or when no file is supported; otherwise it returns the tally, and processed plus failed equals the number of kept files. |

## Left out

- `pd.read_csv` is a parameter (`Reader.Parser`) from a path and a separator and encoding to a data frame or an exception. How pandas parses, and how bytes decode, are not modelled.
- `diff_match_patch` is a parameter (`Report.Differ`) from a pair of cells to an HTML fragment. Its diff algorithm and its HTML are not modelled. An exception raised inside the row loop is not modelled either.
- `.astype(str)`: cells are already strings.
- `Report.Template`: the style sheet and the indentation inside the template literal are left out. The markup around the file name and the two headers is kept, and so is the opening line break.
- The file write is a parameter (`Report.Writer`) that either succeeds or raises with a message. `Batch.ReportsWritten` keeps the written reports as a map from file name to contents. A failed write is taken to leave the file as it was. In the script, `open(report_filename, 'w')` truncates an existing file before the write can fail, so a report already written under that name may be left empty or partial.
- Batch.ReportsWrittenShape: says each report file holds the content of the last successful write under its name. This assumes that a later failed write under the same name does not truncate the file (see the line above).
- `print` output is not modelled. The console messages stand for the `True`/`False` results and the counts they report.
- The tkinter directory dialog, the `input()` prompts and `os.listdir` are left out. Their answers and the listing, in whatever order it comes, are arguments.
- `Batch.GetColumnIndicesAndHeaders`: the ValueError raised for invalid index input is not caught in the script, so it ends the run. The model returns `InvalidColumns` for it.
- `Text.Lower`: lower-cases ASCII letters only. No other character lower-cases to one of the characters of `.csv`, `.tsv`, `.txt` or `.html`, so no outcome of the model depends on this.
- Text.ParseInt: accepts ASCII digits only, while Python's `int()` also accepts other Unicode decimal digits. It also has no limit on the number of digits, while Python 3.11 and later raise ValueError for more than 4300 digits.

## Findings

| source | as written | input that shows it | evidently intended | confidence | as-written member | corrected member |
|---|---|---|---|---|---|---|
| compare_columns.py:119-123 | Only `col - 1 >= len(df.columns)` is checked before `df.iloc[:, col - 1]`, and `iloc` counts a negative position from the end. | Indices `0,1` for any file with at least one column: index 0 passes the check and the last column is compared with the first. | Indices below 1 are refused like indices past the last column. | not executed | `Report.ZeroIndexReportsLastColumn` | `Report.SelectColumns` |
