/**
 * The driver: reading the two column indices the user typed, choosing the
 * directory entries with a supported extension, and running the per-file
 * comparison over them while counting successes and failures, as
 * `get_column_indices_and_headers` and `main` do.
 *
 * The directory dialog and the prompts are not modelled: their answers,
 * and the directory listing, are parameters.
 */
module Batch {
  import opened Wrappers
  import opened Text
  import opened Paths
  import opened Reader
  import opened Report

  /** `f.lower().endswith(('.csv', '.tsv', '.txt'))` */
  predicate Supported(name: string) {
    var l := Lower(name);
    EndsWith(l, ".csv") || EndsWith(l, ".tsv") || EndsWith(l, ".txt")
  }

  /** `[f for f in listing if f.lower().endswith(supported_extensions)]` */
  function FilterSupported(names: seq<string>): (files: seq<string>)
    ensures |files| <= |names|
    ensures forall x :: x in files <==> x in names && Supported(x)
  {
    if names == [] then []
    else (if Supported(names[0]) then [names[0]] else []) + FilterSupported(names[1..])
  }

  /** `col1, col2 = map(int, cols.split(','))`; None stands for the ValueError. */
  function ParseColumnIndices(cols: string): Option<(int, int)> {
    var parts := Split(cols, ',');
    if |parts| == 2 && ParseInt(parts[0]).Some? && ParseInt(parts[1]).Some? then
      Some((ParseInt(parts[0]).value, ParseInt(parts[1]).value))
    else None
  }

  /** `get_column_indices_and_headers()`, given the three answers typed at its prompts. */
  function GetColumnIndicesAndHeaders(cols: string, header1: string, header2: string): Option<Selection> {
    match ParseColumnIndices(cols)
    case None => None
    case Some((col1, col2)) => Some(Selection(col1, col2, header1, header2))
  }

  /** The indices are accepted only when the input holds exactly one comma. */
  lemma ParseColumnIndicesNeedsOneComma(cols: string)
    ensures ParseColumnIndices(cols).Some? ==> Count(cols, ',') == 1
  {
    SplitCount(cols, ',');
  }

  lemma ShowIntHasNoComma(i: int)
    ensures ',' !in ShowInt(i)
  {
    var s := ShowInt(i);
    forall k | 0 <= k < |s| ensures s[k] != ',' {
      if i < 0 && k > 0 {
        assert s[k] == ShowNat(-i)[k - 1];
      }
    }
  }

  /** Two integers printed around a comma are read back as that pair. */
  lemma ParseColumnIndicesShowInt(a: int, b: int)
    ensures ParseColumnIndices(ShowInt(a) + "," + ShowInt(b)) == Some((a, b))
  {
    ShowIntHasNoComma(a);
    ShowIntHasNoComma(b);
    var parts := [ShowInt(a), ShowInt(b)];
    assert Join(parts, ',') == ShowInt(a) + "," + ShowInt(b) by {
      assert parts[..1] == [ShowInt(a)];
    }
    SplitJoin(parts, ',');
    ParseIntShowInt(a);
    ParseIntShowInt(b);
  }

  /**
   * A supported entry, split into its last four characters and the rest,
   * is read under the extension the filter matched, provided the rest has
   * a character other than '.'.
   */
  lemma SupportedEntryIsRead(stem: string, e: string)
    requires '/' !in stem && !AllDots(stem) && |e| == 4
    requires Supported(stem + e)
    ensures Extension(stem + e) == Lower(e)
    ensures KindOf(Extension(stem + e)) != Unsupported
  {
    var name := stem + e;
    assert name[|name| - 4..] == e;
    SupportedSuffix(name);
    ExtensionInAnyCase(stem, e);
  }

  /** The filter looks at the last four characters only, in lower case. */
  lemma SupportedSuffix(name: string)
    requires Supported(name)
    ensures |name| >= 4
    ensures var e := Lower(name[|name| - 4..]);
      && e == Lower(name)[|name| - 4..]
      && (e == ".csv" || e == ".tsv" || e == ".txt")
  {
    LowerSuffix(name, |name| - 4);
  }

  /** But the filter also lets through ".csv" itself, which has no extension, so that file fails. */
  lemma DotNamePassesFilterButIsRefused()
    ensures Supported(".csv")
    ensures Ext(".csv") == "" && KindOf(Extension(".csv")) == Unsupported
  {
    var p := ".csv";
    LastIndexOfUnique(p, '/', -1);
    LastIndexOfUnique(p, '.', 0);
    assert p[0..0] == [];
    assert Lower(p) == p;
  }

  /** A report file never passes the filter, so reports are not taken for inputs. */
  lemma ReportsAreNotInputs(filename: string)
    ensures !Supported(ReportName(filename))
  {
    var r := ReportName(filename);
    var l := Lower(r);
    ReportNameLayout(filename);
    assert l[|l| - 4..] == "html" by {
      forall k | |l| - 4 <= k < |l| ensures l[k] == "html"[k - (|l| - 4)] {
        assert r[k] == ".html"[k - (|r| - 5)];
      }
    }
  }

  /** The result of the run: the three early exits, or the counts and the report files left in place. */
  datatype BatchResult =
    | NoDirectory
    | InvalidColumns
    | NoSupportedFiles
    | Completed(processed: nat, failed: nat, reports: map<string, string>)

  /** The outcome of each selected file, in listing order. */
  function Outcomes(directory: string, files: seq<string>, sel: Selection, parse: Parser, diff: Differ, write: Writer)
    : (outcomes: seq<FileOutcome>)
    ensures |outcomes| == |files|
  {
    seq(|files|, i requires 0 <= i < |files| => FileReport(JoinPath(directory, files[i]), sel, parse, diff, write))
  }

  /** How many of the outcomes wrote a report. */
  function CountWritten(outcomes: seq<FileOutcome>): (n: nat)
    ensures n <= |outcomes|
  {
    if outcomes == [] then 0
    else CountWritten(outcomes[..|outcomes| - 1]) + (if outcomes[|outcomes| - 1].Written? then 1 else 0)
  }

  /** The report files after writing them in order; a later write to the same name replaces an earlier one. */
  function ReportsWritten(outcomes: seq<FileOutcome>): map<string, string> {
    if outcomes == [] then map[]
    else
      var earlier := ReportsWritten(outcomes[..|outcomes| - 1]);
      var last := outcomes[|outcomes| - 1];
      if last.Written? then earlier[last.reportName := last.content] else earlier
  }

  /**
   * The report files are named by the successful outcomes, there are at
   * most as many of them as successes, and each holds the content of the
   * last success that wrote it.
   */
  lemma {:induction false} ReportsWrittenShape(outcomes: seq<FileOutcome>)
    ensures var reports := ReportsWritten(outcomes);
      && (forall name :: name in reports <==>
            exists i :: 0 <= i < |outcomes| && outcomes[i].Written? && outcomes[i].reportName == name)
      && |reports| <= CountWritten(outcomes)
      && (forall i :: 0 <= i < |outcomes| && outcomes[i].Written? &&
            (forall j :: i < j < |outcomes| && outcomes[j].Written? ==> outcomes[j].reportName != outcomes[i].reportName)
            ==> outcomes[i].reportName in reports && reports[outcomes[i].reportName] == outcomes[i].content)
  {
    if outcomes != [] {
      var init := outcomes[..|outcomes| - 1];
      ReportsWrittenShape(init);
      var earlier := ReportsWritten(init);
      var last := outcomes[|outcomes| - 1];
      if last.Written? {
        assert |earlier[last.reportName := last.content]| <= |earlier| + 1 by {
          assert earlier[last.reportName := last.content].Keys == earlier.Keys + {last.reportName};
        }
      }
      forall name ensures name in ReportsWritten(outcomes) <==>
        exists i :: 0 <= i < |outcomes| && outcomes[i].Written? && outcomes[i].reportName == name
      {
        if name in ReportsWritten(outcomes) && !(last.Written? && last.reportName == name) {
          var i :| 0 <= i < |init| && init[i].Written? && init[i].reportName == name;
          assert outcomes[i] == init[i];
        }
      }
      forall i | 0 <= i < |outcomes| && outcomes[i].Written? &&
          (forall j :: i < j < |outcomes| && outcomes[j].Written? ==> outcomes[j].reportName != outcomes[i].reportName)
        ensures outcomes[i].reportName in ReportsWritten(outcomes) &&
          ReportsWritten(outcomes)[outcomes[i].reportName] == outcomes[i].content
      {
        if i < |init| {
          assert init[i] == outcomes[i];
          assert forall j :: i < j < |init| ==> init[j] == outcomes[j];
        }
      }
    }
  }

  /** Taking one more outcome into the tally. */
  lemma TallyStep(outcomes: seq<FileOutcome>, i: nat)
    requires i < |outcomes|
    ensures CountWritten(outcomes[..i + 1]) == CountWritten(outcomes[..i]) + if outcomes[i].Written? then 1 else 0
    ensures ReportsWritten(outcomes[..i + 1]) ==
      if outcomes[i].Written? then ReportsWritten(outcomes[..i])[outcomes[i].reportName := outcomes[i].content]
      else ReportsWritten(outcomes[..i])
  {
    assert outcomes[..i + 1][..i] == outcomes[..i];
  }

  /** The loop of `main()` over the selected files, counting each file as processed or failed. */
  method CompareEach(directory: string, files: seq<string>, sel: Selection, parse: Parser, diff: Differ, write: Writer)
    returns (processed: nat, failed: nat, reports: map<string, string>)
    ensures var outcomes := Outcomes(directory, files, sel, parse, diff, write);
      processed == CountWritten(outcomes) && failed == |files| - processed && reports == ReportsWritten(outcomes)
  {
    ghost var outcomes := Outcomes(directory, files, sel, parse, diff, write);
    processed, failed, reports := 0, 0, map[];
    for i := 0 to |files|
      invariant processed == CountWritten(outcomes[..i])
      invariant processed + failed == i
      invariant reports == ReportsWritten(outcomes[..i])
    {
      var outcome := CompareColumnsInFile(JoinPath(directory, files[i]), sel, parse, diff, write);
      assert outcome == outcomes[i];
      TallyStep(outcomes, i);
      if outcome.Written? {
        reports := reports[outcome.reportName := outcome.content];
        processed := processed + 1;
      } else {
        failed := failed + 1;
      }
    }
    assert outcomes[..|files|] == outcomes;
  }

  /**
   * `main()`, given the chosen directory (empty when the dialog was
   * cancelled), the typed answers and the directory listing: each selected
   * file is compared in listing order and counts as exactly one of
   * processed or failed.
   */
  method RunBatch(directory: string, cols: string, header1: string, header2: string, listing: seq<string>,
                  parse: Parser, diff: Differ, write: Writer)
    returns (result: BatchResult)
    ensures directory == "" ==> result == NoDirectory
    ensures directory != "" && GetColumnIndicesAndHeaders(cols, header1, header2).None? ==> result == InvalidColumns
    ensures directory != "" && GetColumnIndicesAndHeaders(cols, header1, header2).Some? ==>
      var files := FilterSupported(listing);
      var outcomes := Outcomes(directory, files, GetColumnIndicesAndHeaders(cols, header1, header2).value, parse, diff, write);
      result == if files == [] then NoSupportedFiles
                else Completed(CountWritten(outcomes), |files| - CountWritten(outcomes), ReportsWritten(outcomes))
    ensures result.Completed? ==> result.processed + result.failed == |FilterSupported(listing)|
  {
    if directory == "" {
      return NoDirectory;
    }
    var selection := GetColumnIndicesAndHeaders(cols, header1, header2);
    if selection.None? {
      return InvalidColumns;
    }
    var sel := selection.value;
    var files := FilterSupported(listing);
    if files == [] {
      return NoSupportedFiles;
    }
    var processed, failed, reports := CompareEach(directory, files, sel, parse, diff, write);
    ghost var outcomes := Outcomes(directory, files, sel, parse, diff, write);
    assert processed == CountWritten(outcomes) && reports == ReportsWritten(outcomes);
    return Completed(processed, failed, reports);
  }
}
