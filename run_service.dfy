/**
 * src/Services/RunService.cs: the steps of one run. Prompts go through the
 * scripted console of UserFeedbackService; file reading and writing are left
 * to the caller, so `CreateResponse` yields the list of writes it would issue.
 */
module RunService {
  import opened Wrappers
  import opened Text
  import opened StringExtensions
  import opened Enrollments
  import opened CsvService
  import opened EnrollmentObjectService
  import opened JsonService
  import opened UserFeedbackService

  const EmptyFileMessage := "Csv file cannot be empty."
  const TooFewRowsMessage := "Csv file must have more than 1 row."
  const InvalidHeaderMessage := "Fist row of CSV file must contain vaild headers."
  const RowLengthMessage :=
    "Header row cannot be different length than other rows. Rows which require fixing (with header row being 0): "

  // ---------------------------------------------------------------------------
  // User input

  /** `GetInputFilePath`: a path that is not blank is used as given; otherwise the user is asked. */
  method GetInputFilePath(filepath: string, script: seq<string>, existing: set<string>)
    returns (r: Result<string>, flags: seq<bool>, out: seq<ConsoleLine>)
    ensures !IsBlank(filepath) ==> r == Ok(filepath) && flags == [] && out == []
    ensures |flags| <= |script|
    ensures IsBlank(filepath) && r.Ok? ==>
      |flags| > 0 && r.value == script[|flags| - 1] && r.value != "" && r.value in existing
    ensures IsBlank(filepath) && r.Err? ==> r.error == InputExhausted && |flags| == |script|
    ensures IsBlank(filepath) ==>
      forall j :: 0 <= j < |flags| - (if r.Ok? then 1 else 0) ==> script[j] == "" || script[j] !in existing
    ensures r.Ok? <==> InputFilePath(filepath, existing, script).Some?
    ensures r.Ok? ==> InputFilePath(filepath, existing, script) == Some((r.value, script[|flags|..]))
  {
    if !IsBlank(filepath) {
      assert script[0..] == script;
      return Ok(filepath), [], [];
    }
    r, flags, out := GetInputFileLocation(script, existing);
  }

  /**
   * The path a run uses and the script left after reading it: the argument
   * when it is not blank, else the first response naming an existing file;
   * nothing when the script runs out first.
   */
  function InputFilePath(filepath: string, existing: set<string>, script: seq<string>): (r: Option<(string, seq<string>)>)
    ensures !IsBlank(filepath) ==> r == Some((filepath, script))
    ensures IsBlank(filepath) && r.Some? ==> r.value.0 != "" && r.value.0 in existing
    ensures IsBlank(filepath) ==> (r.None? <==> forall j :: 0 <= j < |script| ==> script[j] == "" || script[j] !in existing)
    ensures r.Some? ==> |r.value.1| <= |script| && r.value.1 == script[|script| - |r.value.1|..]
  {
    if !IsBlank(filepath) then Some((filepath, script))
    else
      var p := LocationAt(script, existing, 0);
      if p == |script| then None else Some((script[p], script[p + 1..]))
  }

  /** `GetRowSeperator`: any character but `'\0'` is used as given; otherwise the user is asked. */
  method GetRowSeperator(seperator: char, script: seq<string>)
    returns (r: Result<char>, flags: seq<bool>, out: seq<ConsoleLine>)
    ensures seperator != '\0' ==> r == Ok(seperator) && flags == [] && out == []
    ensures |flags| <= |script|
    ensures seperator == '\0' && r.Ok? ==>
      && |flags| > 0 && |script[|flags| - 1]| == 1
      && script[|flags| - 1][0] < '\U{10000}' && r.value == script[|flags| - 1][0]
    ensures seperator == '\0' && r.Err? ==> r.error == InputExhausted && |flags| == |script|
    ensures seperator == '\0' ==>
      forall j :: 0 <= j < |flags| - (if r.Ok? then 1 else 0) ==> !(|script[j]| == 1 && script[j][0] < '\U{10000}')
    ensures r.Ok? <==> RowSeparator(seperator, script).Some?
    ensures r.Ok? ==> RowSeparator(seperator, script) == Some((r.value, script[|flags|..]))
  {
    if seperator != '\0' {
      assert script[0..] == script;
      return Ok(seperator), [], [];
    }
    r, flags, out := GetRowSeparator(script);
  }

  /**
   * The separator a run uses and the script left after reading it: the
   * argument unless it is `'\0'`, else the first response that `char.TryParse`
   * accepts; nothing when the script runs out first.
   */
  function RowSeparator(seperator: char, script: seq<string>): (r: Option<(char, seq<string>)>)
    ensures seperator != '\0' ==> r == Some((seperator, script))
    ensures seperator == '\0' && r.Some? ==> r.value.0 < '\U{10000}' && exists j :: 0 <= j < |script| && script[j] == [r.value.0]
    ensures seperator == '\0' ==>
      (r.None? <==> forall j :: 0 <= j < |script| ==> !(|script[j]| == 1 && script[j][0] < '\U{10000}'))
    ensures r.Some? ==> |r.value.1| <= |script| && r.value.1 == script[|script| - |r.value.1|..]
  {
    if seperator != '\0' then Some((seperator, script))
    else
      var s := SeparatorAt(script, 0);
      if s == |script| then None else Some((script[s][0], script[s + 1..]))
  }

  // ---------------------------------------------------------------------------
  // Guards

  /** The emptiness check of `GetFileContents` on the text the file service read. */
  function GetFileContents(fileContents: string): (r: Result<string>)
    ensures r.Err? <==> IsBlank(fileContents)
    ensures r.Err? ==> r.error == ArgumentException(EmptyFileMessage)
    ensures r.Ok? ==> r.value == fileContents
  {
    if IsBlank(fileContents) then Err(ArgumentException(EmptyFileMessage)) else Ok(fileContents)
  }

  /**
   * `GetEnrollmentRows`: the rows of the file, which must be at least two, so
   * the contents must hold the separator at least once.
   */
  function GetEnrollmentRows(fileContents: string, rowSeparator: char, newLine: string): (r: Result<seq<string>>)
    requires |newLine| > 0
    ensures r.Ok? <==> rowSeparator in fileContents
    ensures r.Err? ==> r.error == ArgumentException(TooFewRowsMessage)
    ensures r.Ok? ==> r.value == SeparateIntoRows(fileContents, rowSeparator, newLine) && |r.value| >= 2
  {
    var enrollmentRows := SeparateIntoRows(fileContents, rowSeparator, newLine);
    CountPositive(fileContents, rowSeparator);
    if |enrollmentRows| <= 1 then Err(ArgumentException(TooFewRowsMessage)) else Ok(enrollmentRows)
  }

  /** A character occurs in a text exactly when it is counted there at least once. */
  lemma {:induction false} CountPositive(s: string, c: char)
    ensures Count(s, c) > 0 <==> c in s
  {
    if s != [] {
      CountPositive(s[1..], c);
      assert s == [s[0]] + s[1..];
    }
  }

  /**
   * `GetHeaderRow`: the fields of the first row, which must all be non-numeric.
   * When their number differs from the number of Enrollment properties the user
   * is asked whether to go on, and a "no" aborts the run.
   */
  method GetHeaderRow(enrollmentRows: seq<string>, script: seq<string>)
    returns (r: Result<seq<string>>, flags: seq<bool>, out: seq<ConsoleLine>)
    ensures var headers := GetAssumedHeaderRow(enrollmentRows);
      !IsHeaderRow(headers) ==> r == Err(ArgumentException(InvalidHeaderMessage)) && flags == [] && out == []
    ensures var headers := GetAssumedHeaderRow(enrollmentRows);
      IsHeaderRow(headers) && |headers| == |Schema| ==> r == Ok(headers) && flags == [] && out == []
    ensures |flags| <= |script|
    ensures var headers := GetAssumedHeaderRow(enrollmentRows);
      IsHeaderRow(headers) && |headers| != |Schema| ==>
        && |out| > 0 && out[0] == ContinuePrompt(|headers|, |Schema|)
        && (forall j :: 0 <= j < |flags| - (if r != Err(InputExhausted) then 1 else 0) ==>
              ParseContinueResponse(script[j]).None?)
        && (r.Ok? <==> |flags| > 0 && ParseContinueResponse(script[|flags| - 1]) == Some(true))
        && (r == Err(ArgumentException(ExitMessage)) <==>
              |flags| > 0 && ParseContinueResponse(script[|flags| - 1]) == Some(false))
        && (r.Ok? ==> r.value == headers)
        && (r.Err? ==> r.error == ArgumentException(ExitMessage) || r.error == InputExhausted)
        && (r != Err(InputExhausted) <==> AnswerAt(script, 0) < |script|)
        && (r != Err(InputExhausted) ==> |flags| == AnswerAt(script, 0) + 1)
    ensures r == HeaderRow(enrollmentRows, script)
  {
    var headers := GetAssumedHeaderRow(enrollmentRows);
    if !IsHeaderRow(headers) {
      return Err(ArgumentException(InvalidHeaderMessage)), [], [];
    }
    var propertyCount := |Schema|;
    flags, out := [], [];
    if |headers| != propertyCount {
      var answer;
      answer, flags, out := HeaderCountNotSameAsPropertyCount(|headers|, propertyCount, script);
      RoundsThenPrompt(ContinuePrompt(|headers|, propertyCount), InvalidResponse,
        |flags| - (if answer != Err(InputExhausted) then 1 else 0));
      if answer.Err? {
        return Err(answer.error), flags, out;
      }
    }
    r := Ok(headers);
  }

  /**
   * What `GetHeaderRow` returns: the first row's fields when they are a
   * header of the right width, or when the first recognised answer in the
   * script is yes.
   */
  function HeaderRow(enrollmentRows: seq<string>, script: seq<string>): (r: Result<seq<string>>)
    ensures r.Ok? ==> r.value == GetAssumedHeaderRow(enrollmentRows) && IsHeaderRow(r.value)
    ensures r.Err? ==>
      r.error == ArgumentException(InvalidHeaderMessage) || r.error == ArgumentException(ExitMessage) ||
      r.error == InputExhausted
    ensures r.Ok? <==>
      && IsHeaderRow(GetAssumedHeaderRow(enrollmentRows))
      && (|| |GetAssumedHeaderRow(enrollmentRows)| == |Schema|
          || exists k :: 0 <= k < |script| && ParseContinueResponse(script[k]) == Some(true) &&
               forall j :: 0 <= j < k ==> ParseContinueResponse(script[j]).None?)
  {
    var headers := GetAssumedHeaderRow(enrollmentRows);
    var k := AnswerAt(script, 0);
    if !IsHeaderRow(headers) then Err(ArgumentException(InvalidHeaderMessage))
    else if |headers| == |Schema| then Ok(headers)
    else if k == |script| then Err(InputExhausted)
    else if ParseContinueResponse(script[k]) == Some(false) then Err(ArgumentException(ExitMessage))
    else Ok(headers)
  }

  /** A run of rejected reads followed by the prompt starts with the prompt. */
  lemma RoundsThenPrompt(prompt: ConsoleLine, complaint: ConsoleLine, n: int)
    ensures n >= 0 ==> (Rounds(prompt, complaint, n) + [prompt])[0] == prompt
  {
    if n > 0 {
      assert Rounds(prompt, complaint, n)[0] == prompt;
    }
  }

  /** `CleanCsv`: the header row goes, then every blank row; the list is changed in place. */
  method CleanCsv(enrollmentRows: RowList)
    requires |enrollmentRows.items| > 0
    modifies enrollmentRows
    ensures enrollmentRows.items == NonBlankRows(old(enrollmentRows.items)[1..])
  {
    RemoveHeaderRow(enrollmentRows);
    RemoveEmptyRows(enrollmentRows);
  }

  // ---------------------------------------------------------------------------
  // Row lengths

  /** The row does not split on commas into `headerRowCount` pieces. */
  predicate WrongLength(row: string, headerRowCount: int) {
    |Split(row, ',')| != headerRowCount
  }

  /** The 1-based positions (the header row counting as 0) of the rows whose length differs from the header's. */
  function OffendingRows(rows: seq<string>, headerRowCount: int): seq<int> {
    if rows == [] then []
    else
      var errors := OffendingRows(rows[..|rows| - 1], headerRowCount);
      if WrongLength(rows[|rows| - 1], headerRowCount) then errors + [|rows|] else errors
  }

  /**
   * The wrong rows are listed in ascending order, every listed row is wrong,
   * and every wrong row is listed; so the list is empty exactly when no row is wrong.
   */
  lemma OffendingRowsSpec(rows: seq<string>, headerRowCount: int)
    ensures var errorList := OffendingRows(rows, headerRowCount);
      && (forall a, b :: 0 <= a < b < |errorList| ==> errorList[a] < errorList[b])
      && (forall a :: 0 <= a < |errorList| ==>
            1 <= errorList[a] <= |rows| && WrongLength(rows[errorList[a] - 1], headerRowCount))
      && (forall i :: 0 <= i < |rows| && WrongLength(rows[i], headerRowCount) ==> i + 1 in errorList)
      && (errorList == [] <==> forall i :: 0 <= i < |rows| ==> !WrongLength(rows[i], headerRowCount))
  {
    OffendingRowsAscending(rows, headerRowCount);
    OffendingRowsWrong(rows, headerRowCount);
    OffendingRowsComplete(rows, headerRowCount);
  }

  /** The listed positions ascend and lie between 1 and the number of rows. */
  lemma {:induction false} OffendingRowsAscending(rows: seq<string>, headerRowCount: int)
    ensures forall a, b :: 0 <= a < b < |OffendingRows(rows, headerRowCount)| ==>
      OffendingRows(rows, headerRowCount)[a] < OffendingRows(rows, headerRowCount)[b]
    ensures forall a :: 0 <= a < |OffendingRows(rows, headerRowCount)| ==>
      1 <= OffendingRows(rows, headerRowCount)[a] <= |rows|
  {
    if rows != [] {
      var front := rows[..|rows| - 1];
      OffendingRowsAscending(front, headerRowCount);
      var errors := OffendingRows(front, headerRowCount);
      if WrongLength(rows[|rows| - 1], headerRowCount) {
        var errorList := errors + [|rows|];
        assert OffendingRows(rows, headerRowCount) == errorList;
        assert forall a :: 0 <= a < |errors| ==> errorList[a] == errors[a] < |rows|;
        assert errorList[|errors|] == |rows|;
      } else {
        assert OffendingRows(rows, headerRowCount) == errors;
      }
    }
  }

  /** Every listed position names a row of the wrong length. */
  lemma {:induction false} OffendingRowsWrong(rows: seq<string>, headerRowCount: int)
    ensures forall a :: 0 <= a < |OffendingRows(rows, headerRowCount)| ==>
      1 <= OffendingRows(rows, headerRowCount)[a] <= |rows| &&
      WrongLength(rows[OffendingRows(rows, headerRowCount)[a] - 1], headerRowCount)
  {
    if rows != [] {
      var front := rows[..|rows| - 1];
      OffendingRowsWrong(front, headerRowCount);
      var errors := OffendingRows(front, headerRowCount);
      var errorList := OffendingRows(rows, headerRowCount);
      if WrongLength(rows[|rows| - 1], headerRowCount) {
        assert errorList == errors + [|rows|];
      } else {
        assert errorList == errors;
      }
      forall a | 0 <= a < |errorList|
        ensures 1 <= errorList[a] <= |rows| && WrongLength(rows[errorList[a] - 1], headerRowCount)
      {
        if a < |errors| {
          assert errorList[a] == errors[a];
          assert front[errors[a] - 1] == rows[errors[a] - 1];
        }
      }
    }
  }

  /** Every row of the wrong length is listed. */
  lemma {:induction false} OffendingRowsComplete(rows: seq<string>, headerRowCount: int)
    ensures forall i :: 0 <= i < |rows| && WrongLength(rows[i], headerRowCount) ==>
      i + 1 in OffendingRows(rows, headerRowCount)
  {
    if rows != [] {
      var front := rows[..|rows| - 1];
      OffendingRowsComplete(front, headerRowCount);
      assert forall i :: 0 <= i < |front| ==> front[i] == rows[i];
    }
  }

  /** `string.Join(", ", errorList)`. */
  function JoinInts(xs: seq<int>): string {
    Join(seq(|xs|, k requires 0 <= k < |xs| => IntToString(xs[k])), ", ")
  }

  /** The exception `ValidateRowLengths` throws for a list of wrong rows. */
  function RowLengthError(errorList: seq<int>): Error {
    ArgumentException(RowLengthMessage + JoinInts(errorList))
  }

  /**
   * `ValidateRowLengths`: every row must split into as many pieces as the
   * header has fields; otherwise one error names all the wrong rows.
   */
  method ValidateRowLengths(rows: seq<string>, headerRowCount: int) returns (r: Result<()>)
    ensures r.Ok? <==> forall i :: 0 <= i < |rows| ==> |Split(rows[i], ',')| == headerRowCount
    ensures r.Err? ==> r.error == RowLengthError(OffendingRows(rows, headerRowCount))
  {
    OffendingRowsSpec(rows, headerRowCount);
    var errorList: seq<int> := [];
    var i := 0;
    while i < |rows|
      invariant 0 <= i <= |rows|
      invariant errorList == OffendingRows(rows[..i], headerRowCount)
    {
      var rowLength := |Split(rows[i], ',')|;
      assert rows[..i + 1][..i] == rows[..i] && rows[..i + 1][i] == rows[i];
      if headerRowCount != rowLength {
        errorList := errorList + [i + 1];
      }
      i := i + 1;
    }
    assert rows[..i] == rows;
    if |errorList| > 0 {
      return Err(RowLengthError(errorList));
    }
    r := Ok(());
  }

  /** The unit test: a two-field row under a three-field header is reported as row 2. */
  lemma ShortRowReported()
    ensures OffendingRows(["1,2,3", "1,2"], 3) == [2]
    ensures RowLengthError(OffendingRows(["1,2,3", "1,2"], 3)) == ArgumentException(RowLengthMessage + "2")
    ensures OffendingRows(["1,2"], 5) == [1]
  {
    var rows := ["1,2,3", "1,2"];
    assert Join(["1", "2", "3"], ",") == "1,2,3" && Join(["1", "2"], ",") == "1,2";
    SplitJoin(["1", "2", "3"], ',');
    SplitJoin(["1", "2"], ',');
    assert rows[..1] == ["1,2,3"] && rows[..1][..0] == [];
    assert OffendingRows(rows[..1], 3) == [];
    assert OffendingRows(rows, 3) == [2];
    assert ["1,2"][..0] == [];
    assert IntToString(2) == "2";
    assert seq(1, k requires 0 <= k < 1 => IntToString([2][k])) == ["2"];
  }

  /** Rows of the header's length leave every mapped column inside the parsed row. */
  lemma ValidatedRowsInRange(headers: seq<string>, indexes: map<Field, int>, rows: seq<string>)
    requires forall f :: f in indexes ==> 0 <= indexes[f] < |headers|
    requires forall i :: 0 <= i < |rows| ==> |Split(rows[i], ',')| == |headers|
    ensures forall i :: 0 <= i < |rows| ==> InRange(indexes, SplitCsvRow(rows[i]))
  {
  }

  // ---------------------------------------------------------------------------
  // Records and output

  /**
   * `GetEnrollments`: the rows parsed, then collapsed to one record per
   * (UserId, InsuranceCompany); the first row that fails to parse fails the run.
   */
  method GetEnrollments(indexes: map<Field, int>, rows: seq<string>) returns (r: Result<seq<Enrollment>>)
    ensures ParseAll(indexes, rows).Err? ==> r == Err(ParseAll(indexes, rows).error)
    ensures ParseAll(indexes, rows).Ok? ==> r == Ok(GetEnrollmentOutput(ParseAll(indexes, rows).value))
    ensures r.Ok? ==> forall i, j :: 0 <= i < j < |r.value| ==> Key(r.value[i]) != Key(r.value[j])
  {
    var enrollments := ParseRows(indexes, rows);
    if enrollments.Err? {
      return Err(enrollments.error);
    }
    OutputKeysUnique(enrollments.value);
    r := Ok(GetEnrollmentOutput(enrollments.value));
  }

  /** One write: the text and the name of the file it goes to. */
  datatype OutputFile = OutputFile(fileName: string, text: string)

  /** The name of a company's file inside the output directory. */
  function FileName(companyName: string): string {
    companyName + ".json"
  }

  lemma FileNameInjective(a: string, b: string)
    requires FileName(a) == FileName(b)
    ensures a == b
  {
    assert |a| == |b|;
    assert a == FileName(a)[..|a|];
    assert b == FileName(b)[..|b|];
  }

  /** The write `CreateResponse` issues for the `i`th record: its company's sorted records, as JSON. */
  function WriteFor(enrollments: seq<Enrollment>, i: nat, newLine: string): OutputFile
    requires i < |enrollments|
  {
    var company := enrollments[i].insuranceCompany;
    OutputFile(FileName(company), JsonText(SortEnrollmentsForCompany(enrollments, company), newLine))
  }

  /** `CreateResponse`: one write per record, in record order (not one per company). */
  method CreateResponse(enrollments: seq<Enrollment>, newLine: string) returns (plan: seq<OutputFile>)
    ensures |plan| == |enrollments|
    ensures forall i :: 0 <= i < |plan| ==> plan[i] == WriteFor(enrollments, i, newLine)
  {
    plan := [];
    var i := 0;
    while i < |enrollments|
      invariant 0 <= i <= |enrollments| && |plan| == i
      invariant forall k :: 0 <= k < i ==> plan[k] == WriteFor(enrollments, k, newLine)
    {
      var enrollment := enrollments[i];
      var ouptutFilePath := FileName(enrollment.insuranceCompany);
      var companyEnrollments := SortEnrollmentsForCompany(enrollments, enrollment.insuranceCompany);
      var outputEnrollments := SerializeEnrollmentsToJson(companyEnrollments, newLine);
      ghost var before := plan;
      plan := plan + [OutputFile(ouptutFilePath, outputEnrollments)];
      NextWrite(enrollments, newLine, before, plan, i);
      i := i + 1;
    }
  }

  lemma NextWrite(enrollments: seq<Enrollment>, newLine: string, before: seq<OutputFile>, after: seq<OutputFile>, i: nat)
    requires i < |enrollments| && |before| == i
    requires forall k :: 0 <= k < i ==> before[k] == WriteFor(enrollments, k, newLine)
    requires after == before + [WriteFor(enrollments, i, newLine)]
    ensures forall k :: 0 <= k <= i ==> after[k] == WriteFor(enrollments, k, newLine)
  {
    forall k | 0 <= k <= i ensures after[k] == WriteFor(enrollments, k, newLine) {
      if k < i {
        assert after[k] == before[k];
      }
    }
  }

  /** The files after the writes, in order; a write replaces what its file held (`FileMode.Create`). */
  function Written(plan: seq<OutputFile>): map<string, string> {
    if plan == [] then map[]
    else
      var last := plan[|plan| - 1];
      Written(plan[..|plan| - 1])[last.fileName := last.text]
  }

  /**
   * Writes that agree on what each file holds leave every named file with that
   * text, and no other file.
   */
  lemma {:induction false} WrittenFiles(plan: seq<OutputFile>)
    requires forall i, j :: 0 <= i < |plan| && 0 <= j < |plan| && plan[i].fileName == plan[j].fileName ==>
      plan[i].text == plan[j].text
    ensures forall i :: 0 <= i < |plan| ==> plan[i].fileName in Written(plan) && Written(plan)[plan[i].fileName] == plan[i].text
    ensures forall n :: n in Written(plan) ==> exists i :: 0 <= i < |plan| && plan[i].fileName == n
  {
    if plan != [] {
      var front := plan[..|plan| - 1];
      assert forall i :: 0 <= i < |front| ==> front[i] == plan[i];
      WrittenFiles(front);
    }
  }

  /** Writes to the files of companies, one text per company, leave one file per company. */
  lemma WrittenNames(companies: seq<string>, plan: seq<OutputFile>)
    requires |plan| == |companies|
    requires forall i :: 0 <= i < |plan| ==> plan[i].fileName == FileName(companies[i])
    requires forall i, j :: 0 <= i < |plan| && 0 <= j < |plan| && companies[i] == companies[j] ==>
      plan[i].text == plan[j].text
    ensures forall n :: n in Written(plan) <==> exists i :: 0 <= i < |plan| && n == FileName(companies[i])
    ensures forall i :: 0 <= i < |plan| ==>
      FileName(companies[i]) in Written(plan) && Written(plan)[FileName(companies[i])] == plan[i].text
  {
    forall i, j | 0 <= i < |plan| && 0 <= j < |plan| && plan[i].fileName == plan[j].fileName
      ensures plan[i].text == plan[j].text
    {
      FileNameInjective(companies[i], companies[j]);
    }
    WrittenFiles(plan);
  }

  /**
   * After the writes of `CreateResponse` there is one file per company of the
   * records, and each holds the JSON of that company's records sorted by name.
   */
  lemma OneFilePerCompany(enrollments: seq<Enrollment>, newLine: string, plan: seq<OutputFile>)
    requires |plan| == |enrollments|
    requires forall i :: 0 <= i < |plan| ==> plan[i] == WriteFor(enrollments, i, newLine)
    ensures forall n :: n in Written(plan) <==>
      exists i :: 0 <= i < |enrollments| && n == FileName(enrollments[i].insuranceCompany)
    ensures forall i :: 0 <= i < |enrollments| ==>
      && FileName(enrollments[i].insuranceCompany) in Written(plan)
      && Written(plan)[FileName(enrollments[i].insuranceCompany)] ==
        JsonText(SortEnrollmentsForCompany(enrollments, enrollments[i].insuranceCompany), newLine)
  {
    var companies := seq(|enrollments|, i requires 0 <= i < |enrollments| => enrollments[i].insuranceCompany);
    WrittenNames(companies, plan);
  }
}
