/**
 * src/RunProgram.cs: one run of the program as the composition of the service
 * steps. The command-line arguments arrive already split into a path and a
 * separator, the file system is a map from existing paths to their contents,
 * and one console script feeds the three prompts in the order they are asked.
 */
module RunProgram {
  import opened Wrappers
  import opened Text
  import opened StringExtensions
  import opened Enrollments
  import opened CsvService
  import opened EnrollmentObjectService
  import opened UserFeedbackService
  import opened RunService

  // ---------------------------------------------------------------------------
  // How a run ends

  /**
   * The records a run writes, from the rows under an accepted header: every
   * row must have the header's width, then every row must parse, then the
   * versions of one enrollment collapse to one record.
   */
  function Records(headers: seq<string>, rows: seq<string>): Result<seq<Enrollment>> {
    if exists i :: 0 <= i < |rows| && WrongLength(rows[i], |headers|) then
      Err(RowLengthError(OffendingRows(rows, |headers|)))
    else
      var parsed := ParseAll(IndexMap(headers), rows);
      if parsed.Err? then Err(parsed.error) else Ok(GetEnrollmentOutput(parsed.value))
  }

  /**
   * The run once the path and the separator are known: the file must exist,
   * must not be blank and must hold the separator, and its first row must be
   * accepted as the header.
   */
  function FromFile(files: map<string, string>, path: string, separator: char, answers: seq<string>, newLine: string)
    : Result<seq<Enrollment>>
    requires |newLine| > 0
  {
    if path !in files then Err(FileNotFound)
    else
      var fileContents :- GetFileContents(files[path]);
      var enrollmentRows :- GetEnrollmentRows(fileContents, separator, newLine);
      var headers :- HeaderRow(enrollmentRows, answers);
      Records(headers, NonBlankRows(enrollmentRows[1..]))
  }

  /**
   * How a run ends: the path and then the separator come from the arguments
   * or from the script, and what is left of the script answers the header
   * question; a script that runs out first ends the run.
   */
  function Run(filePath: string, separator: char, files: map<string, string>, script: seq<string>, newLine: string)
    : Result<seq<Enrollment>>
    requires |newLine| > 0
  {
    match InputFilePath(filePath, files.Keys, script)
    case None => Err(InputExhausted)
    case Some((path, console)) =>
      match RowSeparator(separator, console)
      case None => Err(InputExhausted)
      case Some((sep, answers)) => FromFile(files, path, sep, answers, newLine)
  }

  // ---------------------------------------------------------------------------
  // Properties of a run

  /** The exceptions a run can end with. */
  predicate RunError(e: Error) {
    || e == ArgumentException(EmptyFileMessage)
    || e == ArgumentException(TooFewRowsMessage)
    || e == ArgumentException(InvalidHeaderMessage)
    || e == ArgumentException(NotAnIntegerMessage("Version"))
    || e == ArgumentException(UserFeedbackService.ExitMessage)
    || (e.ArgumentException? && StartsWith(e.message, RowLengthMessage))
    || e == FileNotFound
    || e == InputExhausted
  }

  /** With every mapped column inside every row, only the Version text can fail to parse. */
  lemma {:induction false} ParseAllInRangeError(indexes: map<Field, int>, rows: seq<string>)
    requires forall i :: 0 <= i < |rows| ==> InRange(indexes, SplitCsvRow(rows[i]))
    requires ParseAll(indexes, rows).Err?
    ensures ParseAll(indexes, rows).error == ArgumentException(NotAnIntegerMessage("Version"))
  {
    ParsedRowSpec(indexes, SplitCsvRow(rows[0]));
    if ParsedRow(indexes, SplitCsvRow(rows[0])).Ok? {
      assert forall i :: 0 <= i < |rows[1..]| ==> rows[1..][i] == rows[i + 1];
      ParseAllInRangeError(indexes, rows[1..]);
    }
  }

  /**
   * Rows under an accepted header fail only with the row-length error naming
   * the wrong rows or on a Version that is not an integer; the records that
   * come out have unique keys.
   */
  lemma RecordsOutcome(headers: seq<string>, rows: seq<string>)
    ensures Records(headers, rows).Err? ==>
      || Records(headers, rows).error == RowLengthError(OffendingRows(rows, |headers|))
      || Records(headers, rows).error == ArgumentException(NotAnIntegerMessage("Version"))
    ensures Records(headers, rows).Err? ==> RunError(Records(headers, rows).error)
    ensures Records(headers, rows).Ok? ==>
      forall i, j :: 0 <= i < j < |Records(headers, rows).value| ==>
        Key(Records(headers, rows).value[i]) != Key(Records(headers, rows).value[j])
  {
    var indexes := IndexMap(headers);
    if forall i :: 0 <= i < |rows| ==> !WrongLength(rows[i], |headers|) {
      ValidatedRowsInRange(headers, indexes, rows);
      if ParseAll(indexes, rows).Err? {
        ParseAllInRangeError(indexes, rows);
      } else {
        OutputKeysUnique(ParseAll(indexes, rows).value);
      }
    } else {
      RowLengthErrorMessage(OffendingRows(rows, |headers|));
    }
  }

  /** The row-length exception starts with its fixed message. */
  lemma RowLengthErrorMessage(errorList: seq<int>)
    ensures RowLengthError(errorList).ArgumentException?
    ensures StartsWith(RowLengthError(errorList).message, RowLengthMessage)
  {
    var m := RowLengthError(errorList).message;
    assert m[..|RowLengthMessage|] == RowLengthMessage;
  }

  /**
   * Each way a run that reaches the file ends, with its cause: a missing
   * file, a blank file, a file without the separator, a first row that is no
   * header, rows of the wrong width, or rows that do not parse; otherwise the
   * records are the parsed rows under the header, collapsed to one per key.
   */
  lemma FromFileCauses(files: map<string, string>, path: string, separator: char, answers: seq<string>,
                       newLine: string)
    requires |newLine| > 0
    ensures path !in files ==> FromFile(files, path, separator, answers, newLine) == Err(FileNotFound)
    ensures path in files && IsBlank(files[path]) ==>
      FromFile(files, path, separator, answers, newLine) == Err(ArgumentException(EmptyFileMessage))
    ensures path in files && !IsBlank(files[path]) && separator !in files[path] ==>
      FromFile(files, path, separator, answers, newLine) == Err(ArgumentException(TooFewRowsMessage))
    ensures path in files && !IsBlank(files[path]) && separator in files[path] ==>
      var enrollmentRows := SeparateIntoRows(files[path], separator, newLine);
      var headers := GetAssumedHeaderRow(enrollmentRows);
      var rows := NonBlankRows(enrollmentRows[1..]);
      && (!IsHeaderRow(headers) ==>
            FromFile(files, path, separator, answers, newLine) == Err(ArgumentException(InvalidHeaderMessage)))
      && (HeaderRow(enrollmentRows, answers).Err? ==>
            FromFile(files, path, separator, answers, newLine) == Err(HeaderRow(enrollmentRows, answers).error))
      && (HeaderRow(enrollmentRows, answers).Ok? ==>
            FromFile(files, path, separator, answers, newLine) == Records(headers, rows))
      && (HeaderRow(enrollmentRows, answers).Ok? && (exists i :: 0 <= i < |rows| && WrongLength(rows[i], |headers|)) ==>
            FromFile(files, path, separator, answers, newLine) == Err(RowLengthError(OffendingRows(rows, |headers|))))
    ensures FromFile(files, path, separator, answers, newLine).Ok? ==>
      && path in files
      && var enrollmentRows := SeparateIntoRows(files[path], separator, newLine);
         var headers := GetAssumedHeaderRow(enrollmentRows);
         var rows := NonBlankRows(enrollmentRows[1..]);
         && (forall i :: 0 <= i < |rows| ==> |Split(rows[i], ',')| == |headers|)
         && ParseAll(IndexMap(headers), rows).Ok?
         && FromFile(files, path, separator, answers, newLine).value ==
              GetEnrollmentOutput(ParseAll(IndexMap(headers), rows).value)
  {
  }

  /**
   * A run that reaches the file fails with one of the exceptions of the
   * services, or yields records with unique keys.
   */
  lemma FromFileOutcome(files: map<string, string>, path: string, separator: char, answers: seq<string>,
                        newLine: string)
    requires |newLine| > 0
    ensures FromFile(files, path, separator, answers, newLine).Err? ==>
      RunError(FromFile(files, path, separator, answers, newLine).error)
    ensures FromFile(files, path, separator, answers, newLine).Ok? ==>
      forall i, j :: 0 <= i < j < |FromFile(files, path, separator, answers, newLine).value| ==>
        Key(FromFile(files, path, separator, answers, newLine).value[i]) !=
        Key(FromFile(files, path, separator, answers, newLine).value[j])
  {
    if path in files && !IsBlank(files[path]) && separator in files[path] {
      var enrollmentRows := SeparateIntoRows(files[path], separator, newLine);
      var headers := HeaderRow(enrollmentRows, answers);
      if headers.Ok? {
        var body := NonBlankRows(enrollmentRows[1..]);
        RecordsOutcome(headers.value, body);
        assert FromFile(files, path, separator, answers, newLine) == Records(headers.value, body);
      } else {
        assert FromFile(files, path, separator, answers, newLine) == Err(headers.error);
      }
    }
  }

  /** Every run that fails, fails with one of the exceptions of the services; every record it writes has its own key. */
  lemma RunOutcome(filePath: string, separator: char, files: map<string, string>, script: seq<string>, newLine: string)
    requires |newLine| > 0
    ensures Run(filePath, separator, files, script, newLine).Err? ==>
      RunError(Run(filePath, separator, files, script, newLine).error)
    ensures Run(filePath, separator, files, script, newLine).Ok? ==>
      forall i, j :: 0 <= i < j < |Run(filePath, separator, files, script, newLine).value| ==>
        Key(Run(filePath, separator, files, script, newLine).value[i]) !=
        Key(Run(filePath, separator, files, script, newLine).value[j])
  {
    var pathRead := InputFilePath(filePath, files.Keys, script);
    if pathRead.Some? {
      var (path, console) := pathRead.value;
      var separatorRead := RowSeparator(separator, console);
      if separatorRead.Some? {
        var (sep, answers) := separatorRead.value;
        FromFileOutcome(files, path, sep, answers, newLine);
      }
    }
  }

  /**
   * With the path and the separator given as arguments, the console is read
   * only to confirm a header of the wrong width: a run that does not stop
   * for want of an answer ends the same whatever the script holds.
   */
  lemma RunWithArguments(filePath: string, separator: char, files: map<string, string>, script: seq<string>,
                         newLine: string)
    requires |newLine| > 0
    requires !IsBlank(filePath) && separator != '\0'
    ensures Run(filePath, separator, files, [], newLine) != Err(InputExhausted) ==>
      Run(filePath, separator, files, script, newLine) == Run(filePath, separator, files, [], newLine)
  {
  }

  // ---------------------------------------------------------------------------
  // The run

  /**
   * `RunAsync`: the steps of one run in order; every step can stop it with
   * its exception. A run that gets through issues one write per record, as
   * `CreateResponse` describes.
   */
  method RunAsync(filePath: string, separator: char, files: map<string, string>, script: seq<string>, newLine: string)
    returns (r: Result<seq<OutputFile>>)
    requires |newLine| > 0
    ensures var outcome := Run(filePath, separator, files, script, newLine);
      && (r.Ok? <==> outcome.Ok?)
      && (r.Err? ==> r.error == outcome.error)
      && (r.Ok? ==> |r.value| == |outcome.value|)
      && (r.Ok? ==> forall i :: 0 <= i < |r.value| ==> r.value[i] == WriteFor(outcome.value, i, newLine))
    ensures r.Err? ==> RunError(r.error)
  {
    RunOutcome(filePath, separator, files, script, newLine);
    var path, pathReads, _ := GetInputFilePath(filePath, script, files.Keys);
    if path.Err? {
      return Err(path.error);
    }
    var console := script[|pathReads|..];
    var rowSeparator, separatorReads, _ := GetRowSeperator(separator, console);
    if rowSeparator.Err? {
      return Err(rowSeparator.error);
    }
    console := console[|separatorReads|..];
    ghost var outcome := FromFile(files, path.value, rowSeparator.value, console, newLine);
    assert Run(filePath, separator, files, script, newLine) == outcome;
    r := RunFromFile(files, path.value, rowSeparator.value, console, newLine);
  }

  /** The steps of `RunAsync` after the two prompts. */
  method RunFromFile(files: map<string, string>, path: string, separator: char, console: seq<string>, newLine: string)
    returns (r: Result<seq<OutputFile>>)
    requires |newLine| > 0
    ensures var outcome := FromFile(files, path, separator, console, newLine);
      && (r.Ok? <==> outcome.Ok?)
      && (r.Err? ==> r.error == outcome.error)
      && (r.Ok? ==> |r.value| == |outcome.value|)
      && (r.Ok? ==> forall i :: 0 <= i < |r.value| ==> r.value[i] == WriteFor(outcome.value, i, newLine))
  {
    if path !in files {
      return Err(FileNotFound);
    }
    var fileContents := GetFileContents(files[path]);
    if fileContents.Err? {
      return Err(fileContents.error);
    }
    var enrollmentRows := GetEnrollmentRows(fileContents.value, separator, newLine);
    if enrollmentRows.Err? {
      return Err(enrollmentRows.error);
    }
    var headers, _, _ := GetHeaderRow(enrollmentRows.value, console);
    if headers.Err? {
      return Err(headers.error);
    }
    r := WriteRecords(headers.value, enrollmentRows.value, newLine);
  }

  /** The steps of `RunAsync` once the header row is accepted: clean, check, parse, collapse and write. */
  method WriteRecords(headers: seq<string>, enrollmentRows: seq<string>, newLine: string)
    returns (r: Result<seq<OutputFile>>)
    requires |enrollmentRows| > 0
    ensures var outcome := Records(headers, NonBlankRows(enrollmentRows[1..]));
      && (r.Ok? <==> outcome.Ok?)
      && (r.Err? ==> r.error == outcome.error)
      && (r.Ok? ==> |r.value| == |outcome.value|)
      && (r.Ok? ==> forall i :: 0 <= i < |r.value| ==> r.value[i] == WriteFor(outcome.value, i, newLine))
  {
    var rows := new RowList(enrollmentRows);
    CleanCsv(rows);
    var valid := ValidateRowLengths(rows.items, |headers|);
    if valid.Err? {
      return Err(valid.error);
    }
    var indexes := GetIndexValues(headers);
    var parsed := GetEnrollments(indexes, rows.items);
    if parsed.Err? {
      return Err(parsed.error);
    }
    var plan := CreateResponse(parsed.value, newLine);
    r := Ok(plan);
  }
}
