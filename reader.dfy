/**
 * Reading one delimited file, as `read_delimited_file` does it: the
 * lower-cased extension picks which `pd.read_csv` calls are made and in
 * which order, a decode failure that reaches the outer handler is retried
 * once as a comma-separated `latin1` read, and any other failure is
 * re-raised as "Error reading file: ...".
 *
 * pandas itself is not modelled: a `Parser` stands for `pd.read_csv` on a
 * given path with a given separator and encoding.
 */
module Reader {
  import opened Wrappers
  import opened Text
  import opened Paths

  datatype Separator = Comma | Tab

  datatype Encoding = Utf8 | Latin1

  /** The arguments of one `pd.read_csv` call besides the path. */
  datatype Attempt = Attempt(sep: Separator, encoding: Encoding)

  const CommaUtf8 := Attempt(Comma, Utf8)
  const TabUtf8 := Attempt(Tab, Utf8)
  const CommaLatin1 := Attempt(Comma, Latin1)

  /** A data frame, column by column; cells are already strings. */
  datatype Frame = Frame(columns: seq<seq<string>>) {
    /** `len(df.columns)` */
    function Width(): nat { |columns| }
  }

  /** What `pd.read_csv` may raise: a UnicodeDecodeError, or any other exception with its message. */
  datatype Failure = DecodeFailure(message: string) | OtherFailure(message: string)

  datatype ParseOutcome = Parsed(frame: Frame) | Raised(failure: Failure)

  type Parser = (string, Attempt) -> ParseOutcome

  /**
   * How `read_delimited_file` fails: `Wrapped` is the "Error reading file: ..."
   * exception of the generic handler; `Escaped` is whatever the `latin1`
   * retry raised, which leaves the function unwrapped because it is raised
   * inside the decode handler.
   */
  datatype ReadError = Wrapped(message: string) | Escaped(failure: Failure)

  datatype FileKind = Csv | Tsv | Txt | Unsupported

  /** The message of the ValueError raised for an unsupported extension. */
  const UnsupportedPrefix := "Unsupported file format: "

  /** What the generic handler puts before the message of the exception it re-raises. */
  const ReadErrorPrefix := "Error reading file: "

  /** `os.path.splitext(file_path)[1].lower()` */
  function Extension(path: string): string {
    Lower(Ext(path))
  }

  function KindOf(ext: string): FileKind {
    if ext == ".csv" then Csv
    else if ext == ".tsv" then Tsv
    else if ext == ".txt" then Txt
    else Unsupported
  }

  predicate IsDecodeFailure(o: ParseOutcome) {
    o.Raised? && o.failure.DecodeFailure?
  }

  /** The tab read of a `.txt` file is kept only when it parsed into more than one column. */
  predicate KeepsTabRead(o: ParseOutcome) {
    o.Parsed? && o.frame.Width() > 1
  }

  /**
   * The body of the outer `try`: what it returns (`Parsed`) or raises
   * (`Raised`). In the `.txt` branch whatever the tab read raises is
   * swallowed by the bare `except`, and the comma read decides.
   */
  function TryBlock(path: string, parse: Parser): ParseOutcome {
    var ext := Extension(path);
    match KindOf(ext)
    case Csv => parse(path, CommaUtf8)
    case Tsv => parse(path, TabUtf8)
    case Txt =>
      var tab := parse(path, TabUtf8);
      if KeepsTabRead(tab) then tab else parse(path, CommaUtf8)
    case Unsupported => Raised(OtherFailure(UnsupportedPrefix + ext))
  }

  /** `read_delimited_file(path)` */
  function ReadDelimitedFile(path: string, parse: Parser): Result<Frame, ReadError> {
    match TryBlock(path, parse)
    case Parsed(frame) => Ok(frame)
    case Raised(DecodeFailure(_)) =>
      (match parse(path, CommaLatin1)
       case Parsed(frame) => Ok(frame)
       case Raised(failure) => Err(Escaped(failure)))
    case Raised(OtherFailure(message)) => Err(Wrapped(ReadErrorPrefix + message))
  }

  /** The `pd.read_csv` calls the body of the outer `try` makes, in order. */
  function TryAttempts(path: string, parse: Parser): seq<Attempt> {
    match KindOf(Extension(path))
    case Csv => [CommaUtf8]
    case Tsv => [TabUtf8]
    case Txt => if KeepsTabRead(parse(path, TabUtf8)) then [TabUtf8] else [TabUtf8, CommaUtf8]
    case Unsupported => []
  }

  /** Every `pd.read_csv` call `read_delimited_file` makes, in order: the plan followed. */
  function Attempts(path: string, parse: Parser): seq<Attempt> {
    TryAttempts(path, parse) + (if IsDecodeFailure(TryBlock(path, parse)) then [CommaLatin1] else [])
  }

  /** The body of the outer `try` reads in UTF-8 only. */
  lemma TryAttemptsAreUtf8(path: string, parse: Parser)
    ensures var tried := TryAttempts(path, parse);
      |tried| <= 2 && forall i :: 0 <= i < |tried| ==> tried[i].encoding == Utf8
  {
  }

  /** The body of the outer `try` returns or raises whatever its last read did. */
  lemma TryBlockIsLastTry(path: string, parse: Parser)
    ensures var tried := TryAttempts(path, parse);
      TryBlock(path, parse) ==
        if tried == [] then Raised(OtherFailure(UnsupportedPrefix + Extension(path)))
        else parse(path, tried[|tried| - 1])
  {
  }

  /**
   * The result of a read is the outcome of the last `pd.read_csv` call made:
   * a UTF-8 read that ends the plan never failed to decode, and its other
   * failures are wrapped; the `latin1` read's failure escapes as it is.
   * Nothing is read for an unsupported extension.
   */
  lemma {:induction false} ReadFollowsLastAttempt(path: string, parse: Parser)
    ensures var plan := Attempts(path, parse);
      var r := ReadDelimitedFile(path, parse);
      && (plan == [] <==> KindOf(Extension(path)) == Unsupported)
      && (plan != [] ==>
            var last := parse(path, plan[|plan| - 1]);
            && (plan[|plan| - 1].encoding == Latin1 ==>
                  r == if last.Parsed? then Ok(last.frame) else Err(Escaped(last.failure)))
            && (plan[|plan| - 1].encoding == Utf8 ==>
                  && !IsDecodeFailure(last)
                  && r == if last.Parsed? then Ok(last.frame)
                          else Err(Wrapped(ReadErrorPrefix + last.failure.message))))
  {
    TryBlockIsLastTry(path, parse);
    TryAttemptsAreUtf8(path, parse);
    var tried := TryAttempts(path, parse);
    var t := TryBlock(path, parse);
    var plan := Attempts(path, parse);
    var r := ReadDelimitedFile(path, parse);
    if IsDecodeFailure(t) {
      assert plan == tried + [CommaLatin1];
      assert plan[|plan| - 1] == CommaLatin1;
    } else {
      assert plan == tried;
      if tried != [] {
        assert t == parse(path, tried[|tried| - 1]);
        assert plan[|plan| - 1].encoding == Utf8;
      }
    }
  }

  /** An extension other than .csv, .tsv or .txt is refused before anything is read. */
  lemma UnsupportedRefused(path: string, parse: Parser)
    requires KindOf(Extension(path)) == Unsupported
    ensures Attempts(path, parse) == []
    ensures ReadDelimitedFile(path, parse) ==
      Err(Wrapped(ReadErrorPrefix + (UnsupportedPrefix + Extension(path))))
  {
  }

  /** A .csv file is read with commas first, and a .tsv file with tabs. */
  lemma FirstAttempt(path: string, parse: Parser)
    requires KindOf(Extension(path)) != Unsupported
    ensures |Attempts(path, parse)| >= 1
    ensures Attempts(path, parse)[0] == if KindOf(Extension(path)) == Csv then CommaUtf8 else TabUtf8
  {
  }

  /**
   * A .txt file: the tab read is returned exactly when it parsed into more
   * than one column; otherwise, whether it raised or found one column, the
   * comma read comes next and decides, with the `latin1` retry behind it.
   */
  lemma TxtPlan(path: string, parse: Parser)
    requires KindOf(Extension(path)) == Txt
    ensures var tab := parse(path, TabUtf8);
      var r := ReadDelimitedFile(path, parse);
      && (KeepsTabRead(tab) ==> Attempts(path, parse) == [TabUtf8] && r == Ok(tab.frame))
      && (!KeepsTabRead(tab) ==>
            var comma := parse(path, CommaUtf8);
            && Attempts(path, parse)[..2] == [TabUtf8, CommaUtf8]
            && (comma.Parsed? ==> r == Ok(comma.frame)))
  {
  }

  /**
   * The `latin1` read happens at most once, only as the last call, only as a
   * comma read, and exactly when a UTF-8 read's decode failure reached the
   * outer handler, whatever the extension; every other call is UTF-8.
   */
  lemma {:induction false} Latin1Fallback(path: string, parse: Parser)
    ensures var plan := Attempts(path, parse);
      && |plan| <= 3
      && (forall i :: 0 <= i < |plan| - 1 ==> plan[i].encoding == Utf8)
      && (plan != [] && plan[|plan| - 1].encoding == Latin1 <==> IsDecodeFailure(TryBlock(path, parse)))
      && (plan != [] && plan[|plan| - 1].encoding == Latin1 ==> plan[|plan| - 1] == CommaLatin1)
  {
    var tried := TryAttempts(path, parse);
    assert forall i :: 0 <= i < |tried| ==> tried[i].encoding == Utf8;
    if IsDecodeFailure(TryBlock(path, parse)) {
      TryBlockIsLastTry(path, parse);
      assert tried != [];
    }
  }

  /** The extension is compared after lower-casing: renaming X.CSV to x.csv changes nothing. */
  lemma ReadIgnoresExtensionCase(p: string, q: string, parse: Parser)
    requires Lower(Ext(p)) == Lower(Ext(q))
    requires forall a: Attempt :: parse(p, a) == parse(q, a)
    ensures ReadDelimitedFile(p, parse) == ReadDelimitedFile(q, parse)
    ensures Attempts(p, parse) == Attempts(q, parse)
  {
    assert Extension(p) == Extension(q);
    assert TryBlock(p, parse) == TryBlock(q, parse);
    assert TryAttempts(p, parse) == TryAttempts(q, parse);
  }

  /**
   * A file name whose stem has a character other than '.' and whose last four
   * characters are ".csv", ".tsv" or ".txt" in any mix of cases is handled
   * by that extension: X.CSV exactly as x.csv.
   */
  lemma ExtensionInAnyCase(stem: string, e: string)
    requires '/' !in stem && !AllDots(stem)
    requires Lower(e) == ".csv" || Lower(e) == ".tsv" || Lower(e) == ".txt"
    ensures Ext(stem + e) == e
    ensures Extension(stem + e) == Lower(e)
    ensures KindOf(Extension(stem + e)) != Unsupported
  {
    assert |e| == 4;
    assert e[0] == '.' by {
      assert LowerChar(e[0]) == '.';
    }
    forall k | 1 <= k < 4 ensures e[k] != '.' && e[k] != '/' {
      assert 'a' <= LowerChar(e[k]) <= 'z';
    }
    SplitExtOfName(stem, e);
  }
}
