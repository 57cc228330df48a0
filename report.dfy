/**
 * Comparing the two chosen columns of one file and assembling its HTML
 * report, as `compare_columns_in_file` and `generate_html_template` do.
 *
 * diff_match_patch is not modelled: a `Differ` stands for `diff_main`
 * followed by `diff_cleanupSemantic` and `diff_prettyHtml` on one pair of
 * cells, and a `Writer` for opening and writing the report file.
 */
module Report {
  import opened Wrappers
  import opened Text
  import opened Paths
  import opened Reader

  /** From a pair of cells to the HTML fragment of their semantic diff. */
  type Differ = (string, string) -> string

  /** Writing `content` to the file `name`: None, or the message of the exception raised. */
  type Writer = (string, string) -> Option<string>

  /** The 1-based column indices and the two header labels the user entered. */
  datatype Selection = Selection(col1: int, col2: int, header1: string, header2: string)

  datatype FileError =
    | ReadFailed(error: ReadError)
    | ColumnsMissing(col1: int, col2: int, width: nat)
    | PositionOutOfBounds
    | WriteFailed(message: string)

  /** `Written` is the `True` result (with the file it wrote), `Failed` the `False` one. */
  datatype FileOutcome = Written(reportName: string, content: string) | Failed(error: FileError)

  // The markup of the report template around its three placeholders; the
  // style sheet and the indentation of the literal are left out.

  const TemplateHead: string :=
    "<html><head><style></style></head><body><h1>Comparison Report</h1><div class=\"file-info\"><strong>File:</strong> "

  const TemplateAfterFile: string := "</div><table><tr><th>Row</th><th>"

  const TemplateAfterHeader1: string := "</th><th>"

  const TemplateTail: string := "</th><th>Differences</th></tr>"

  /** `generate_html_template(header1, header2, filename)[0]`; the literal opens with a line break. */
  function Template(header1: string, header2: string, filename: string): string {
    "\n" + TemplateHead + filename + TemplateAfterFile + header1 + TemplateAfterHeader1 + header2 + TemplateTail
  }

  const Closing: string := "</table></body></html>"

  const RowStart: string := "<tr><td>"

  /** The table row appended for row number `idx`. */
  function RowFragment(idx: nat, data1: string, data2: string, diffHtml: string): string {
    RowStart + ShowNat(idx) + "</td><td>" + data1 + "</td><td>" + data2 + "</td><td><pre>" + diffHtml + "</pre></td></tr>"
  }

  function Min(a: nat, b: nat): nat { if a < b then a else b }

  /**
   * The first `n` rows of `enumerate(zip(col1, col2), 1)`, each with its
   * diff: row `i` shows the `i`-th cells.
   */
  function Rows(n: nat, col1: seq<string>, col2: seq<string>, diff: Differ): (rows: seq<string>)
    requires n <= |col1| && n <= |col2|
    ensures |rows| == n
  {
    if n == 0 then []
    else Rows(n - 1, col1, col2, diff) + [RowFragment(n, col1[n - 1], col2[n - 1], diff(col1[n - 1], col2[n - 1]))]
  }

  /** Row `i + 1` of the table shows the `i`-th pair of cells and their diff. */
  lemma {:induction false} RowsAt(n: nat, col1: seq<string>, col2: seq<string>, diff: Differ, i: nat)
    requires n <= |col1| && n <= |col2| && i < n
    ensures Rows(n, col1, col2, diff)[i] == RowFragment(i + 1, col1[i], col2[i], diff(col1[i], col2[i]))
  {
    if i < n - 1 {
      RowsAt(n - 1, col1, col2, diff, i);
    }
  }

  /** The `html_report` list once it is complete: template, one row per pair, closing tags. */
  function ReportLines(sel: Selection, filename: string, col1: seq<string>, col2: seq<string>, diff: Differ): seq<string> {
    [Template(sel.header1, sel.header2, filename)] + Rows(Min(|col1|, |col2|), col1, col2, diff) + [Closing]
  }

  /** `f'comparison_report_{base_name}.html'` with `base_name = os.path.splitext(filename)[0]`. */
  function ReportName(filename: string): string {
    "comparison_report_" + Root(filename) + ".html"
  }

  predicate ColumnsInRange(col1: int, col2: int, width: nat) {
    1 <= col1 <= width && 1 <= col2 <= width
  }

  /** The two selected columns, or the IndexError when either index names no column. */
  function SelectColumns(frame: Frame, col1: int, col2: int): (r: Result<(seq<string>, seq<string>), FileError>)
    ensures r.Ok? <==> ColumnsInRange(col1, col2, frame.Width())
    ensures r.Ok? ==> r.value == (frame.columns[col1 - 1], frame.columns[col2 - 1])
    ensures r.Err? ==> r.error == ColumnsMissing(col1, col2, frame.Width())
  {
    if ColumnsInRange(col1, col2, frame.Width()) then Ok((frame.columns[col1 - 1], frame.columns[col2 - 1]))
    else Err(ColumnsMissing(col1, col2, frame.Width()))
  }

  /** What `df.iloc[:, i]` selects: Python counts a negative position from the end. */
  function PythonPosition(width: nat, i: int): (p: Option<nat>)
    ensures p.Some? <==> -(width as int) <= i < width
    ensures p.Some? ==> p.value < width && p.value % width == i % width
  {
    if 0 <= i < width then Some(i)
    else if -(width as int) <= i < 0 then Some(width + i)
    else None
  }

  /** The column selection exactly as written: only the upper bound is checked before `iloc`. */
  function SelectColumnsAsWritten(frame: Frame, col1: int, col2: int): Result<(seq<string>, seq<string>), FileError> {
    var w := frame.Width();
    if col1 - 1 >= w || col2 - 1 >= w then Err(ColumnsMissing(col1, col2, w))
    else
      var p1 := PythonPosition(w, col1 - 1);
      var p2 := PythonPosition(w, col2 - 1);
      if p1.Some? && p2.Some? then Ok((frame.columns[p1.value], frame.columns[p2.value]))
      else Err(PositionOutOfBounds)
  }

  /** What `compare_columns_in_file` does with the two selected columns: build the report and write it. */
  function ReportOfColumns(data1: seq<string>, data2: seq<string>, filename: string, sel: Selection, diff: Differ, write: Writer): FileOutcome {
    var name := ReportName(filename);
    var content := Join(ReportLines(sel, filename, data1, data2, diff), '\n');
    match write(name, content)
    case Some(message) => Failed(WriteFailed(message))
    case None => Written(name, content)
  }

  /** What `compare_columns_in_file` does once the read has returned or raised, with its bounds check as written. */
  function ReportOfRead(read: Result<Frame, ReadError>, filename: string, sel: Selection, diff: Differ, write: Writer): FileOutcome {
    match read
    case Err(e) => Failed(ReadFailed(e))
    case Ok(frame) =>
      match SelectColumnsAsWritten(frame, sel.col1, sel.col2)
      case Err(e) => Failed(e)
      case Ok(cols) => ReportOfColumns(cols.0, cols.1, filename, sel, diff, write)
  }

  /** The whole of `compare_columns_in_file(file_path, ...)`, as a value. */
  function FileReport(path: string, sel: Selection, parse: Parser, diff: Differ, write: Writer): FileOutcome {
    ReportOfRead(ReadDelimitedFile(path, parse), Basename(path), sel, diff, write)
  }

  /**
   * `report` is a finished `html_report` list: the template, then for each
   * of the N zipped pairs of cells the row numbered from 1 that shows them
   * and their diff, then the closing tags.
   */
  predicate IsReportList(report: seq<string>, template: string, data1: seq<string>, data2: seq<string>, diff: Differ) {
    var n := Min(|data1|, |data2|);
    && |report| == n + 2
    && report[0] == template
    && report[n + 1] == Closing
    && forall i :: 1 <= i <= n ==> report[i] == RowFragment(i, data1[i - 1], data2[i - 1], diff(data1[i - 1], data2[i - 1]))
  }

  /** That layout fixes the list: it is the template, `Rows` and the closing tags. */
  lemma ReportListIsLines(report: seq<string>, template: string, data1: seq<string>, data2: seq<string>, diff: Differ)
    ensures IsReportList(report, template, data1, data2, diff) <==>
      report == [template] + Rows(Min(|data1|, |data2|), data1, data2, diff) + [Closing]
  {
    var n := Min(|data1|, |data2|);
    var lines := [template] + Rows(n, data1, data2, diff) + [Closing];
    forall i | 1 <= i <= n
      ensures lines[i] == RowFragment(i, data1[i - 1], data2[i - 1], diff(data1[i - 1], data2[i - 1]))
    {
      RowsAt(n, data1, data2, diff, i - 1);
    }
    if IsReportList(report, template, data1, data2, diff) {
      assert forall i :: 0 <= i < |lines| ==> report[i] == lines[i];
    }
  }

  /**
   * The report-building part of `compare_columns_in_file`: starting from the
   * template, append one row per pair of cells, numbered from 1, then the
   * closing tags.
   */
  method BuildReport(template: string, data1: seq<string>, data2: seq<string>, diff: Differ)
    returns (report: seq<string>)
    ensures IsReportList(report, template, data1, data2, diff)
  {
    report := [template];
    var n := Min(|data1|, |data2|);
    var i := 0;
    while i < n
      invariant 0 <= i <= n
      invariant |report| == i + 1 && report[0] == template
      invariant forall k :: 1 <= k <= i ==> report[k] == RowFragment(k, data1[k - 1], data2[k - 1], diff(data1[k - 1], data2[k - 1]))
    {
      var diffHtml := diff(data1[i], data2[i]);
      report := report + [RowFragment(i + 1, data1[i], data2[i], diffHtml)];
      i := i + 1;
    }
    report := report + [Closing];
  }

  /**
   * The part of `compare_columns_in_file` after the read: check the
   * indices, build the report and write its lines joined by newlines.
   */
  method ReportFromRead(read: Result<Frame, ReadError>, filename: string, sel: Selection, diff: Differ, write: Writer)
    returns (outcome: FileOutcome)
    ensures outcome == ReportOfRead(read, filename, sel, diff, write)
  {
    if read.Err? {
      return Failed(ReadFailed(read.error));
    }
    var frame := read.value;
    var width := frame.Width();
    if sel.col1 - 1 >= width || sel.col2 - 1 >= width {
      return Failed(ColumnsMissing(sel.col1, sel.col2, width));
    }
    var p1 := PythonPosition(width, sel.col1 - 1);
    var p2 := PythonPosition(width, sel.col2 - 1);
    if p1.None? || p2.None? {
      return Failed(PositionOutOfBounds);
    }
    var data1 := frame.columns[p1.value];
    var data2 := frame.columns[p2.value];
    var template := Template(sel.header1, sel.header2, filename);
    var report := BuildReport(template, data1, data2, diff);
    ReportListIsLines(report, template, data1, data2, diff);
    var name := ReportName(filename);
    var content := Join(report, '\n');
    var written := write(name, content);
    if written.Some? {
      return Failed(WriteFailed(written.value));
    }
    return Written(name, content);
  }

  /** `compare_columns_in_file`: read the file named by `path`, then report on it under its base name. */
  method CompareColumnsInFile(path: string, sel: Selection, parse: Parser, diff: Differ, write: Writer)
    returns (outcome: FileOutcome)
    ensures outcome == FileReport(path, sel, parse, diff, write)
  {
    var read := ReadDelimitedFile(path, parse);
    outcome := ReportFromRead(read, Basename(path), sel, diff, write);
  }

  /** The leading decimal digits of `s`. */
  function DigitPrefix(s: string): (d: string)
    ensures AllDigits(d)
  {
    if s != [] && IsDigit(s[0]) then [s[0]] + DigitPrefix(s[1..]) else []
  }

  /** The row number a report line shows in its first cell, if it is a table row. */
  function RowNumber(line: string): Option<nat> {
    if StartsWith(line, RowStart) then
      var digits := DigitPrefix(line[|RowStart|..]);
      if digits != [] then Some(DigitsValue(digits)) else None
    else None
  }

  /** How many lines of the report are table rows. */
  function CountRows(lines: seq<string>): nat {
    if lines == [] then 0
    else CountRows(lines[..|lines| - 1]) + (if StartsWith(lines[|lines| - 1], RowStart) then 1 else 0)
  }

  lemma {:induction false} DigitPrefixOfDigits(d: string, rest: string)
    requires AllDigits(d)
    requires rest == [] || !IsDigit(rest[0])
    ensures DigitPrefix(d + rest) == d
  {
    if d != [] {
      assert (d + rest)[1..] == d[1..] + rest;
      DigitPrefixOfDigits(d[1..], rest);
    }
  }

  /** Every appended row shows its own number first. */
  lemma RowNumberOfFragment(idx: nat, data1: string, data2: string, diffHtml: string)
    ensures RowNumber(RowFragment(idx, data1, data2, diffHtml)) == Some(idx)
  {
    var line := RowFragment(idx, data1, data2, diffHtml);
    var rest := "</td><td>" + data1 + "</td><td>" + data2 + "</td><td><pre>" + diffHtml + "</pre></td></tr>";
    assert line == RowStart + (ShowNat(idx) + rest);
    assert line[..|RowStart|] == RowStart;
    assert line[|RowStart|..] == ShowNat(idx) + rest;
    DigitPrefixOfDigits(ShowNat(idx), rest);
    ShowNatRoundTrip(idx);
  }

  lemma {:induction false} CountRowsAppend(a: seq<string>, b: seq<string>)
    ensures CountRows(a + b) == CountRows(a) + CountRows(b)
  {
    if b == [] {
      assert a + b == a;
    } else {
      assert (a + b)[..|a + b| - 1] == a + b[..|b| - 1];
      assert (a + b)[|a + b| - 1] == b[|b| - 1];
      CountRowsAppend(a, b[..|b| - 1]);
    }
  }

  lemma {:induction false} CountRowsAllRows(lines: seq<string>)
    requires forall i :: 0 <= i < |lines| ==> StartsWith(lines[i], RowStart)
    ensures CountRows(lines) == |lines|
  {
    if lines != [] {
      CountRowsAllRows(lines[..|lines| - 1]);
    }
  }

  lemma FragmentIsRow(idx: nat, data1: string, data2: string, diffHtml: string)
    ensures StartsWith(RowFragment(idx, data1, data2, diffHtml), RowStart)
  {
    var line := RowFragment(idx, data1, data2, diffHtml);
    assert line == RowStart + (ShowNat(idx) + "</td><td>" + data1 + "</td><td>" + data2 + "</td><td><pre>" + diffHtml + "</pre></td></tr>");
  }

  lemma TemplateIsNotRow(header1: string, header2: string, filename: string)
    ensures !StartsWith(Template(header1, header2, filename), RowStart)
  {
    var t := Template(header1, header2, filename);
    assert t[0] != RowStart[0];
  }

  /** Whatever the first line, if it is not a row the rows are exactly those appended. */
  lemma {:induction false} LinesLayout(first: string, col1: seq<string>, col2: seq<string>, diff: Differ)
    requires !StartsWith(first, RowStart)
    ensures var n := Min(|col1|, |col2|);
      var lines := [first] + Rows(n, col1, col2, diff) + [Closing];
      && CountRows(lines) == n
      && forall i :: 1 <= i <= n ==>
           && lines[i] == RowFragment(i, col1[i - 1], col2[i - 1], diff(col1[i - 1], col2[i - 1]))
           && RowNumber(lines[i]) == Some(i)
  {
    var n := Min(|col1|, |col2|);
    var rows := Rows(n, col1, col2, diff);
    var lines := [first] + rows + [Closing];
    forall i | 0 <= i < n ensures StartsWith(rows[i], RowStart) {
      RowsAt(n, col1, col2, diff, i);
      FragmentIsRow(i + 1, col1[i], col2[i], diff(col1[i], col2[i]));
    }
    forall i | 1 <= i <= n
      ensures lines[i] == RowFragment(i, col1[i - 1], col2[i - 1], diff(col1[i - 1], col2[i - 1]))
      ensures RowNumber(lines[i]) == Some(i)
    {
      assert lines[i] == rows[i - 1];
      RowsAt(n, col1, col2, diff, i - 1);
      RowNumberOfFragment(i, col1[i - 1], col2[i - 1], diff(col1[i - 1], col2[i - 1]));
    }
    CountRowsAllRows(rows);
    assert CountRows([first]) == 0 by {
      assert [first][..0] == [];
    }
    assert CountRows([Closing]) == 0 by {
      assert [Closing][..0] == [];
      assert Closing[1] != RowStart[1];
    }
    CountRowsAppend([first], rows);
    CountRowsAppend([first] + rows, [Closing]);
  }

  /**
   * The finished report list: the template first, then exactly one table
   * row per pair of cells, the i-th numbered i and showing the i-th cells
   * and their diff, then the closing tags.
   */
  lemma ReportLayout(sel: Selection, filename: string, col1: seq<string>, col2: seq<string>, diff: Differ)
    ensures var lines := ReportLines(sel, filename, col1, col2, diff);
      var n := Min(|col1|, |col2|);
      && |lines| == n + 2
      && lines[0] == Template(sel.header1, sel.header2, filename)
      && lines[n + 1] == Closing
      && CountRows(lines) == n
      && forall i :: 1 <= i <= n ==>
           && lines[i] == RowFragment(i, col1[i - 1], col2[i - 1], diff(col1[i - 1], col2[i - 1]))
           && RowNumber(lines[i]) == Some(i)
  {
    TemplateIsNotRow(sel.header1, sel.header2, filename);
    LinesLayout(Template(sel.header1, sel.header2, filename), col1, col2, diff);
  }

  /** The report name shows the input's name without its extension between fixed text, ... */
  lemma ReportNameLayout(filename: string)
    ensures var r := ReportName(filename);
      && StartsWith(r, "comparison_report_") && EndsWith(r, ".html")
      && r[18..|r| - 5] == Root(filename)
  {
  }

  /** ... so two inputs share a report file exactly when their names agree without extension. */
  lemma ReportNameInjective(a: string, b: string)
    ensures ReportName(a) == ReportName(b) <==> Root(a) == Root(b)
  {
    if ReportName(a) == ReportName(b) {
      ReportNameLayout(a);
      ReportNameLayout(b);
    }
  }

  /** Hence inputs that differ only in extension, such as a.csv and a.txt, write the same report file. */
  lemma ReportNamesCollide(stem: string, e1: string, e2: string)
    requires '/' !in stem && !AllDots(stem)
    requires IsExtension(e1) && IsExtension(e2)
    ensures ReportName(stem + e1) == ReportName(stem + e2) == "comparison_report_" + stem + ".html"
  {
    SplitExtOfName(stem, e1);
    SplitExtOfName(stem, e2);
  }

  /** For a directory entry, the report is named after the entry itself. */
  lemma ReportNameOfEntry(dir: string, name: string)
    requires '/' !in name
    ensures ReportName(Basename(JoinPath(dir, name))) == "comparison_report_" + Root(name) + ".html"
  {
    BasenameOfJoin(dir, name);
  }

  /** An index past the last column fails with the column count, and no report is written. */
  lemma OutOfRangeWritesNothing(read: Result<Frame, ReadError>, filename: string, sel: Selection, diff: Differ, write: Writer)
    requires read.Ok? && (sel.col1 - 1 >= read.value.Width() || sel.col2 - 1 >= read.value.Width())
    ensures ReportOfRead(read, filename, sel, diff, write) ==
      Failed(ColumnsMissing(sel.col1, sel.col2, read.value.Width()))
  {
  }

  /**
   * A report is written exactly when the read succeeded, the bounds check
   * and `iloc` both accepted the indices and the write succeeded; it is
   * named after the input's basename and holds the lines of the report on
   * the selected columns joined by line breaks.
   */
  lemma WrittenReport(read: Result<Frame, ReadError>, filename: string, sel: Selection, diff: Differ, write: Writer)
    ensures var outcome := ReportOfRead(read, filename, sel, diff, write);
      outcome.Written? <==>
        && read.Ok? && SelectColumnsAsWritten(read.value, sel.col1, sel.col2).Ok?
        && var cols := SelectColumnsAsWritten(read.value, sel.col1, sel.col2).value;
           var lines := ReportLines(sel, filename, cols.0, cols.1, diff);
           && write(ReportName(filename), Join(lines, '\n')).None?
           && outcome == Written(ReportName(filename), Join(lines, '\n'))
  {
  }

  /** For indices from 1 up, the outcome is the one of the corrected check. */
  lemma ReportOfPositiveIndices(frame: Frame, filename: string, sel: Selection, diff: Differ, write: Writer)
    requires sel.col1 >= 1 && sel.col2 >= 1
    ensures ReportOfRead(Ok(frame), filename, sel, diff, write) ==
      match SelectColumns(frame, sel.col1, sel.col2)
      case Err(e) => Failed(e)
      case Ok(cols) => ReportOfColumns(cols.0, cols.1, filename, sel, diff, write)
  {
    AsWrittenAgreesForPositive(frame, sel.col1, sel.col2);
  }

  /** With indices `0,1` the code reports on the last column against the first, where the corrected check fails. */
  lemma ZeroIndexReportsLastColumn(frame: Frame, filename: string, header1: string, header2: string, diff: Differ, write: Writer)
    requires frame.Width() >= 1
    ensures var sel := Selection(0, 1, header1, header2);
      ReportOfRead(Ok(frame), filename, sel, diff, write) ==
        ReportOfColumns(frame.columns[frame.Width() - 1], frame.columns[0], filename, sel, diff, write)
    ensures SelectColumns(frame, 0, 1).Err?
  {
    AsWrittenAcceptsZero(frame);
  }

  /** The corrected check agrees with the code as written for every index from 1 up, ... */
  lemma AsWrittenAgreesForPositive(frame: Frame, col1: int, col2: int)
    requires col1 >= 1 && col2 >= 1
    ensures SelectColumnsAsWritten(frame, col1, col2) == SelectColumns(frame, col1, col2)
  {
  }

  /**
   * ... but as written, index 0 passes the bounds check and `iloc[:, -1]`
   * silently compares the last column, where the corrected check refuses it.
   */
  lemma AsWrittenAcceptsZero(frame: Frame)
    requires frame.Width() >= 1
    ensures SelectColumnsAsWritten(frame, 0, 1) == Ok((frame.columns[frame.Width() - 1], frame.columns[0]))
    ensures SelectColumns(frame, 0, 1) == Err(ColumnsMissing(0, 1, frame.Width()))
  {
  }
}
