# csv-parser core in Dafny

A model of the GardnerCsvParser services, with proofs about them. The program reads a CSV file of insurance enrollments, one enrollment per row. It then:

- checks the file: it must not be empty, must have at least two rows, and must start with a header row whose cells are not numbers;
- maps the header cells to the five `Enrollment` properties by their first four letters, ignoring case;
- requires every data row to be as wide as the header;
- parses each row into an `Enrollment`;
- keeps one record per (UserId, InsuranceCompany), the one with the highest Version;
- writes one JSON file per insurance company, holding that company's records sorted by last name and then first name.

Three prompts ask the user for input when the command line does not supply it:

- the input file's location;
- the row separator;
- whether to go on when the header's width differs from the number of properties.

The model has one module per source file:

| module | file | what it holds |
|---|---|---|
| `Wrappers` | `wrappers.dfy` | `Option`, `Result` and the exceptions the services throw |
| `Text` | `text.dfy` | the .NET string operations the services use: `IsNullOrWhiteSpace`, `ToLower`, `StartsWith`, `Split`, `Join`, `Trim`, `Replace`, and `int.TryParse` with the 32-bit range |
| `StringExtensions` | `string_extensions.dfy` | `GetFirstLetters` and `SplitCsvRow` |
| `Enrollments` | `enrollments.dfy` | the `Enrollment` record, plus a schema of its five properties in declaration order that replaces reflection |
| `CsvService` | `csv_service.dfy` | splitting the contents into rows; the header test; the in-place removal of the header row and of blank rows (the list is a `RowList` object); parsing rows into records |
| `EnrollmentObjectService` | `enrollment_object_service.dfy` | header matching and the field-to-column map; collapsing the versions of an enrollment; the per-company ordering |
| `JsonService` | `json_service.dfy` | the hand-written JSON layout, with the serializer's loops proved against a function that describes the document |
| `UserFeedbackService` | `user_feedback_service.dfy` | the three prompt loops over a scripted console |
| `RunService` | `run_service.dfy` | the steps of a run: the input guards, the row-length check, and the list of file writes `CreateResponse` issues |
| `RunProgram` | `run_program.dfy` | `Run`, how a run ends as a function of the arguments, the files and the console script; `RunAsync`, the composition of the steps, proved against it |

Exceptions are `Err` values. The console is a sequence of responses, read in order. Each prompt loop returns three things:

- its outcome;
- the `hasFailed` flag it passed to each read;
- the lines it wrote.

The file-exists check is a set of paths. The file system that `RunAsync` reads from is a map from paths to contents. The platform line terminator (`Environment.NewLine`) is a parameter.

Where the code differs from what its documentation and tests describe, the model follows the code:

- `GetEnrollmentOutput` keeps the earliest record among those of a key that share the highest Version. `OrderByDescending` is stable and `FirstOrDefault` takes the first. The description says the last one wins.
- `CreateResponse` writes once per record, not once per company. Each write of a company carries the same text, so the files that remain are one per company. `RunService.OneFilePerCompany` proves this.
- The service's tests expect `GetInputFilePath` to check that a given path exists. The code does not. A missing file surfaces only when `RunAsync` reads it (`FileNotFound`).
- The row numbers in the row-length error count data rows after blank rows have been removed. They are not file line numbers.

## Model

| member | source | states |
|---|---|---|
| `Text.JoinSplit` | src/Extensions/StringExtensions.cs:19-20 | joining the pieces of `Split(s, c)` with `c` gives `s` back |
| `Text.SplitJoin` | src/Extensions/StringExtensions.cs:19-20 | splitting the join of separator-free pieces gives exactly those pieces |
| `Text.TrimProperties` | src/Extensions/StringExtensions.cs:22 | `Trim` leaves no white space at either end, and the result is a contiguous slice of the input |
| `Text.TrimBlank` | src/Services/CsvService.cs:46 | a white-space-only string trims to the empty string |
| `Text.Split` | src/Extensions/StringExtensions.cs:20 | `s.Split(c)`: one piece per occurrence of `c` plus one, and no piece contains `c` |
| `Text.Replace` | src/Services/CsvService.cs:18 | every character of the result comes from the text or from the replacement; a replacement no longer than the pattern never lengthens the text |
| `Text.ReplaceCharRemoves` | src/Services/CsvService.cs:18 | removing a one-character pattern leaves no occurrence of it |
| `Text.ReplaceAbsent` | src/Services/CsvService.cs:18 | text without the pattern is left unchanged by `Replace` |
| `Text.TryParseInt32` | src/Services/CsvService.cs:84 | `int.TryParse` succeeds only with a value in the 32-bit range (the accepted forms are given by `Text.ParseSignedDigits` and `Text.ParseRendered`) |
| `Text.ParseRendered` | src/Services/CsvService.cs:84 | every 32-bit integer parses back from its decimal rendering |
| `Text.LettersDoNotParse` | src/Services/CsvService.cs:41 | text made only of letters never parses as an integer |
| `StringExtensions.GetFirstLetters` | src/Extensions/StringExtensions.cs:10-15 | the result has four characters, each the lower-cased counterpart of the input's; the input must have at least four (`Substring` throws otherwise) |
| `StringExtensions.MatchIgnoresCase` | src/Extensions/StringExtensions.cs:10-15 | a lower-cased header starts with a name's first letters iff its first four characters equal the name's, up to ASCII case |
| `StringExtensions.SplitCsvRow` | src/Extensions/StringExtensions.cs:17-24 | one field per comma plus one; no field has a comma or white space at either end |
| `StringExtensions.SplitCsvRowPieces` | src/Extensions/StringExtensions.cs:17-24 | field `k` is the trimmed `k`th comma-separated piece |
| `StringExtensions.SplitCsvRowRoundTrip` | src/Extensions/StringExtensions.cs:17-24 | when no piece has white space at its ends, joining the fields with commas gives the row back |
| `StringExtensions.JoinSplitCsvRow` | src/Extensions/StringExtensions.cs:17-24 | splitting the comma-join of comma-free, already-trimmed fields gives those fields back |
| `Enrollments.SchemaComplete` | src/Services/EnrollmentObjectService.cs:47-51 | the property list has five entries, names every field, and has no repeats |
| `Enrollments.SetString` | src/Services/CsvService.cs:75 | setting a string property changes that property and no other |
| `Enrollments.SetInt` | src/Services/CsvService.cs:70-71 | setting the integer property changes that property and no other |
| `Enrollments.GetDetermines` | src/Services/JsonService.cs:35 | two records that give the same value for every property are the same record |
| `Enrollments.PrefixValues` | src/Services/EnrollmentObjectService.cs:37 | the match keys are "user", "firs", "last", "vers" and "insu" |
| `Enrollments.PrefixesDistinct` | src/Services/EnrollmentObjectService.cs:37 | different properties have different match keys |
| `CsvService.SeparateIntoRows` | src/Services/CsvService.cs:15-20 | one row per separator plus one |
| `CsvService.SeparateIntoRowsPieces` | src/Services/CsvService.cs:15-20 | no row contains the separator; a piece without a line terminator is kept unchanged |
| `CsvService.NoLineTerminatorLeft` | src/Services/CsvService.cs:18 | with a one-character line terminator, no row contains it |
| `CsvService.CrLfCanSurvive` | src/Services/CsvService.cs:18 | with "\r\n", the single removal pass turns "a\r\r\n\nb" into a row that still holds "\r\n" |
| `CsvService.GetAssumedHeaderRow` | src/Services/CsvService.cs:22-32 | empty exactly when there are no rows; otherwise as many fields as the first row has commas, plus one |
| `CsvService.IsHeaderRow` | src/Services/CsvService.cs:39-42 | a row is a header iff none of its cells parses as an integer; its meaning is shown by `CsvService.NumbersAreNoHeader`, `CsvService.WordsAreHeader` and `Text.LettersDoNotParse` |
| `CsvService.NumbersAreNoHeader` | src/Services/CsvService.cs:39-42 | the row "1", "2" is not a header |
| `CsvService.WordsAreHeader` | src/Services/CsvService.cs:39-42 | a row of words is a header, and so is an empty row |
| `CsvService.NonBlankRowsKept` | src/Services/CsvService.cs:44-47 | exactly the non-blank rows remain, and no blank row does |
| `CsvService.NonBlankRowsAppend` | src/Services/CsvService.cs:44-47 | blank-row removal keeps order: it distributes over concatenation |
| `CsvService.RemoveHeaderRow` | src/Services/CsvService.cs:34-37 | the list loses exactly its first row; an empty list is refused, as `RemoveAt(0)` throws on it |
| `CsvService.RemoveEmptyRows` | src/Services/CsvService.cs:44-47 | the list becomes its non-blank rows, in order |
| `CsvService.ParseIntProperty` | src/Services/CsvService.cs:82-92 | succeeds iff `int.TryParse` does, with the parsed 32-bit value; otherwise the error "CSV File invalid. <name> must be an integer" |
| `CsvService.ParseIntPropertyRendered` | src/Services/CsvService.cs:82-92 | the rendering of any 32-bit integer parses to that integer |
| `CsvService.FillRow` | src/Services/CsvService.cs:62-80 | the loop over the properties as a function of the properties still to visit; `CsvService.FillRowFails`, `CsvService.FillRowValues` and `CsvService.FillRowError` state what it yields |
| `CsvService.ParsedRow` | src/Services/CsvService.cs:62-80 | the record of one row, starting from the default record; `CsvService.ParsedRowSpec` states it in full |
| `CsvService.FillRowFails` | src/Services/CsvService.cs:62-80 | a row fails iff some visited mapped integer field does not parse |
| `CsvService.FillRowValues` | src/Services/CsvService.cs:62-80 | a successful row carries every visited mapped field's value and leaves the other fields unchanged |
| `CsvService.ParsedRowSpec` | src/Services/CsvService.cs:62-80 | with all mapped indices inside the row: the row fails iff the mapped Version text is not an integer, with the message naming Version; otherwise mapped strings are copied verbatim, Version holds the parsed value, and unmapped fields keep their defaults |
| `CsvService.ParsedRowOutOfRange` | src/Services/CsvService.cs:70 | a mapped index past the end of the row makes the row fail (`IndexOutOfRange`, or an earlier parse error) |
| `CsvService.ParseRow` | src/Services/CsvService.cs:62-80 | the loop over the index map yields exactly the record `ParsedRow` describes |
| `CsvService.ParseAll` | src/Services/CsvService.cs:49-60 | succeeds iff every row parses, with one record per row in row order |
| `CsvService.ParseAllFirstFailure` | src/Services/CsvService.cs:49-60 | the error of the list is the error of its first failing row |
| `CsvService.ParseRows` | src/Services/CsvService.cs:49-60 | the loop yields exactly `ParseAll`'s result |
| `EnrollmentObjectService.IndexOf` | src/Services/EnrollmentObjectService.cs:27 | the first position holding the value, or -1 exactly when it is absent |
| `EnrollmentObjectService.GetMatchingHeader` | src/Services/EnrollmentObjectService.cs:35-40 | null iff no header matches; otherwise a matching header with no match before it |
| `EnrollmentObjectService.OneFieldPerHeader` | src/Services/EnrollmentObjectService.cs:35-40 | a header matches at most one property |
| `EnrollmentObjectService.MatchingHeaderAt` | src/Services/EnrollmentObjectService.cs:35-40 | the header chosen is the one at the first matching position |
| `EnrollmentObjectService.GetIndexValues` | src/Services/EnrollmentObjectService.cs:13-33 | a property is mapped iff some header matches it; its index is the first matching column; different properties get different columns |
| `EnrollmentObjectService.IndexMap` | src/Services/EnrollmentObjectService.cs:13-33 | the map `GetIndexValues` builds: a property is in it iff some header matches it, at the first matching column |
| `EnrollmentObjectService.IndexMapUnique` | src/Services/EnrollmentObjectService.cs:13-33 | a map holding exactly the matched properties at their first matching columns is `IndexMap` |
| `EnrollmentObjectService.IsRowValidLength` | src/Services/EnrollmentObjectService.cs:42-45 | a row is valid iff it has exactly `propertyAmount` fields; no service calls it, and `RunService.ValidateRowLengths` makes the same test on comma-split pieces |
| `EnrollmentObjectService.ColumnsInSchemaOrder` | src/Services/EnrollmentObjectService.cs:13-33 | five distinct headers that match the properties in declaration order map each property to its own column |
| `EnrollmentObjectService.CanonicalHeaderMatches` | test/ServicesTests/EnrollmentObjectServiceTests.cs:25-50 | "user_id, first_name, last_name, version, insurance_company" maps the five properties to columns 0 to 4 |
| `EnrollmentObjectService.IdHeaderLeavesOutUserId` | test/ServicesTests/EnrollmentObjectServiceTests.cs:52-66 | with the header "id", UserId is unmatched and the other four properties are matched |
| `EnrollmentObjectService.FirstColumnUnmatched` | src/Services/EnrollmentObjectService.cs:13-33 | when the first column matches nothing, exactly UserId is left out of the map |
| `EnrollmentObjectService.GetEnrollmentOutput` | src/Services/EnrollmentObjectService.cs:59-67 | one record per distinct (UserId, InsuranceCompany) key of the input, in the order the keys first appear |
| `EnrollmentObjectService.KeysInOrder` | src/Services/EnrollmentObjectService.cs:62-63 | the distinct (UserId, InsuranceCompany) keys of the input, each once |
| `EnrollmentObjectService.BestIndex` | src/Services/EnrollmentObjectService.cs:64-66 | a record of the key with the highest Version, and the first such record |
| `EnrollmentObjectService.OutputKeysUnique` | src/Services/EnrollmentObjectService.cs:59-67 | no two output records share a key, and the output has exactly the input's keys |
| `EnrollmentObjectService.OutputKeepsHighestVersion` | src/Services/EnrollmentObjectService.cs:59-67 | each output record is an input record carrying its key's highest Version, with no earlier record of that key at that Version |
| `EnrollmentObjectService.OutputInFirstSeenOrder` | src/Services/EnrollmentObjectService.cs:59-67 | output records follow the order in which their keys first appear |
| `EnrollmentObjectService.OutputOfDistinct` | src/Services/EnrollmentObjectService.cs:59-67 | a list whose keys are already distinct comes back unchanged |
| `EnrollmentObjectService.OutputIdempotent` | src/Services/EnrollmentObjectService.cs:59-67 | deduplicating twice gives the same as deduplicating once |
| `EnrollmentObjectService.OutputKeepsNewerVersion` | test/ServicesTests/EnrollmentObjectServiceTests.cs:131-162 | two versions of one key and an unrelated record give the newer version and the unrelated record |
| `EnrollmentObjectService.NameLeTotal` | src/Services/EnrollmentObjectService.cs:73-74 | any two records are ordered one way or the other by (LastName, FirstName) |
| `EnrollmentObjectService.NameLeTransitive` | src/Services/EnrollmentObjectService.cs:73-74 | the (LastName, FirstName) order is transitive |
| `EnrollmentObjectService.NameLeAntisymmetric` | src/Services/EnrollmentObjectService.cs:73-74 | records ordered both ways have the same names |
| `EnrollmentObjectService.SortByName` | src/Services/EnrollmentObjectService.cs:73-75 | `OrderBy(LastName).ThenBy(FirstName)` as a stable insertion sort; `EnrollmentObjectService.SortByNameCorrect` states what it yields |
| `EnrollmentObjectService.SortByNameCorrect` | src/Services/EnrollmentObjectService.cs:73-75 | the sort yields a sorted permutation of its input; records with equal names keep their input order (stable) |
| `EnrollmentObjectService.OfCompany` | src/Services/EnrollmentObjectService.cs:72 | exactly the input records of the named company |
| `EnrollmentObjectService.SortEnrollmentsForCompany` | src/Services/EnrollmentObjectService.cs:69-76 | the company's records sorted by name; `EnrollmentObjectService.SortEnrollmentsForCompanyCorrect` states what it yields |
| `EnrollmentObjectService.SortEnrollmentsForCompanyCorrect` | src/Services/EnrollmentObjectService.cs:69-76 | the company's records and no others, each as often as in the input, sorted by last then first name, with ties in input order |
| `EnrollmentObjectService.SortExample` | test/ServicesTests/EnrollmentObjectServiceTests.cs:200-239 | records named (a, a), (b, a) and (b, b), given in reverse, come out in that order |
| `JsonService.GetPropertyValueLine` | src/Services/JsonService.cs:48-56 | integers and booleans pass unchanged; a string comes back between double quotes, otherwise unchanged |
| `JsonService.GetJsonLineEnd` | src/Services/JsonService.cs:58-61 | ",\n" after every property line but the last, "\n" after the last |
| `JsonService.GetClosingBracketLine` | src/Services/JsonService.cs:63-66 | "}," after every record but the last, "}" after the last |
| `JsonService.JsonText` | src/Services/JsonService.cs:19-46 | the document for a list of records: the wrapper lines around one block per record; its layout is stated by `JsonService.JsonWrapped`, `JsonService.JsonEmpty`, `JsonService.BlockLayout` and `JsonService.FieldLinesInOrder` |
| `JsonService.SerializeEnrollmentsToJson` | src/Services/JsonService.cs:19-46 | the nested loops build exactly the document `JsonText` describes |
| `JsonService.AppendProperties` | src/Services/JsonService.cs:31-37 | the inner loop appends the five property lines of one record |
| `JsonService.JsonWrapped` | src/Services/JsonService.cs:24-25 | every document opens with "{" and "\"data\": [" and ends with "]" and "}", each on its own line |
| `JsonService.JsonEmpty` | src/Services/JsonService.cs:19-46 | no records give the wrapper lines alone |
| `JsonService.StringFieldLine` | src/Services/JsonService.cs:34-36 | a string property's line is its quoted name, its quoted value and the line end |
| `JsonService.VersionLine` | src/Services/JsonService.cs:34-36 | the Version line holds the unquoted decimal value |
| `JsonService.FieldLinesInOrder` | src/Services/JsonService.cs:31-37 | a record's lines list UserId, FirstName, LastName, Version and InsuranceCompany in that order; only the last has no comma |
| `JsonService.BlockLayout` | src/Services/JsonService.cs:27-40 | each record gives an opening brace line, its five property lines and a closing brace line that ends in a comma except for the last record |
| `JsonSample.SampleDocument` | test/ServicesTests/JsonServiceTests.cs:29-64 | the unit test's two records, with "\r\n" as line terminator, give exactly the expected document |
| `UserFeedbackService.ParseContinueResponse` | src/Services/UserFeedbackService.cs:91-99 | yes, no or no answer from the lower-cased response; `UserFeedbackService.ParseContinueFirstLetter` states it by the first character |
| `UserFeedbackService.ParseContinueFirstLetter` | src/Services/UserFeedbackService.cs:91-99 | yes iff the first character is y or Y; no iff it is n or N; no answer otherwise, including for the empty string |
| `UserFeedbackService.ParseContinueExamples` | test/ServicesTests/UserFeedbackServiceTests.cs:201-212 | "y" is yes, "n" is no, "k" is no answer |
| `UserFeedbackService.ParseContinueIgnoresCase` | src/Services/UserFeedbackService.cs:93 | lower-casing the answer first changes nothing |
| `UserFeedbackService.GetInputFileLocation` | src/Services/UserFeedbackService.cs:17-36 | returns the first response that is non-empty and names an existing file, after exactly `LocationAt` + 1 reads; every earlier response was empty or missing; `hasFailed` is true on a read iff an earlier response named no existing file; each rejected round writes the prompt and then the complaint |
| `UserFeedbackService.TryParseChar` | src/Services/UserFeedbackService.cs:49 | succeeds iff the text is exactly one UTF-16 code unit (one character below U+10000), giving that character |
| `UserFeedbackService.LocationAt` | src/Services/UserFeedbackService.cs:22-33 | the position of the first response from a given one on that is non-empty and names an existing file, or the end of the script |
| `UserFeedbackService.SeparatorAt` | src/Services/UserFeedbackService.cs:44-56 | the position of the first response from a given one on that `char.TryParse` accepts, or the end of the script |
| `UserFeedbackService.AnswerAt` | src/Services/UserFeedbackService.cs:67-86 | the position of the first response from a given one on that is a yes or a no, or the end of the script |
| `UserFeedbackService.GetRowSeparator` | src/Services/UserFeedbackService.cs:38-59 | returns the character of the first response that is a single character below U+10000, after exactly `SeparatorAt` + 1 reads; every earlier response was not; `hasFailed` is false on the first read only; the console shows prompt and complaint per rejected round |
| `UserFeedbackService.HeaderCountNotSameAsPropertyCount` | src/Services/UserFeedbackService.cs:61-89 | returns iff the first recognised answer is yes; throws the exit message iff it is no; the console runs out iff no answer is recognised; unrecognised answers are asked again, each with a complaint |
| `RunService.GetInputFilePath` | src/Services/RunService.cs:44-52 | a non-blank path is returned as given, without prompting; otherwise the prompt's result; the path and the script left unread are those of `RunService.InputFilePath` |
| `RunService.InputFilePath` | src/Services/RunService.cs:44-52 | the path of a run: the argument when it is not blank, else a non-empty response naming an existing file; none iff the path is blank and no response names an existing file; the rest of the script is a suffix |
| `RunService.GetRowSeperator` | src/Services/RunService.cs:54-62 | any character but '\0' is returned as given, without prompting; otherwise the prompt's result; the character and the script left unread are those of `RunService.RowSeparator` |
| `RunService.RowSeparator` | src/Services/RunService.cs:54-62 | the separator of a run: the argument unless it is '\0', else a character below U+10000 given alone as a response; none iff the argument is '\0' and no response is such a character; the rest of the script is a suffix |
| `RunService.GetFileContents` | src/Services/RunService.cs:64-74 | fails with "Csv file cannot be empty." iff the contents are blank; otherwise returns them unchanged |
| `RunService.GetEnrollmentRows` | src/Services/RunService.cs:76-86 | succeeds iff the contents contain the separator, yielding the (at least two) rows; otherwise "Csv file must have more than 1 row." |
| `RunService.GetHeaderRow` | src/Services/RunService.cs:88-105 | a first row with a numeric cell fails with the header message; a five-cell header is returned without prompting; any other width asks the user: every answer before the last read was unrecognised, a yes returns the header, a no throws the exit message, and no recognised answer exhausts the console; the result is `RunService.HeaderRow`'s |
| `RunService.HeaderRow` | src/Services/RunService.cs:88-105 | the header is accepted iff no cell is numeric and it has five cells or the first recognised answer is yes |
| `RunService.CleanCsv` | src/Services/RunService.cs:107-111 | the list becomes its rows after the first with the blank ones removed, in order |
| `RunService.OffendingRowsSpec` | src/Services/RunService.cs:113-131 | the reported row numbers ascend; each names a row of the wrong width; every such row is reported; none are reported iff every row has the header's width |
| `RunService.ValidateRowLengths` | src/Services/RunService.cs:113-131 | succeeds iff every row splits into as many pieces as the header; otherwise one error lists all the wrong rows |
| `RunService.ShortRowReported` | test/ServicesTests/RunServiceTests.cs:273-290 | a two-field row under a three-field header is reported as row 2, with the test's exact message |
| `RunService.ValidatedRowsInRange` | src/Services/RunService.cs:113-131 | after the check, every column mapped from the header lies inside every row |
| `RunService.GetEnrollments` | src/Services/RunService.cs:133-138 | the first row that fails to parse fails the call; otherwise the parsed records collapsed to one per key, with keys unique |
| `RunService.FileNameInjective` | src/Services/RunService.cs:144 | different companies get different output file names |
| `RunService.CreateResponse` | src/Services/RunService.cs:140-149 | one write per record, in order; each write is the record's company file holding the company's sorted records as JSON |
| `RunService.Written` | src/Services/RunService.cs:147 | the files after a list of writes, each write replacing what its file held; `RunService.WrittenFiles` states what they hold |
| `RunService.WrittenFiles` | src/Services/RunService.cs:147 | writes that agree on each file's text leave each named file with that text, and no other file |
| `RunService.OneFilePerCompany` | src/Services/RunService.cs:140-149 | after the writes there is exactly one file name per company, and the file of that name holds the JSON of that company's records sorted by name |
| `RunProgram.Records` | src/RunProgram.cs:34-37 | the records under an accepted header: every row must have the header's width, then every row must parse, then the versions collapse to one record per key |
| `RunProgram.FromFile` | src/RunProgram.cs:31-37 | the run once the path and separator are known, through the step functions `GetFileContents`, `GetEnrollmentRows`, `HeaderRow` and `Records`; `RunProgram.FromFileCauses` states each outcome |
| `RunProgram.Run` | src/RunProgram.cs:19-39 | how a run ends: the path and then the separator come from the arguments or the script, and what is left of the script answers the header question |
| `RunProgram.ParseAllInRangeError` | src/Services/CsvService.cs:49-92 | once every mapped column is inside every row, a parse failure can only be a non-integer Version |
| `RunProgram.RecordsOutcome` | src/RunProgram.cs:35-37 | rows under an accepted header fail only with the row-length error naming the wrong rows or with the non-integer Version message; the records that come out have unique keys |
| `RunProgram.RowLengthErrorMessage` | src/Services/RunService.cs:127-130 | the row-length exception starts with its fixed message |
| `RunProgram.FromFileCauses` | src/RunProgram.cs:31-37 | a missing file gives `FileNotFound`, a blank one the empty-file message, one without the separator the too-few-rows message, a first row with a numeric cell the header message, rows of the wrong width the row-length error; a success means every row has the header's width and parses, and the records are `GetEnrollmentOutput` of the parsed rows under `IndexMap` of the header |
| `RunProgram.FromFileOutcome` | src/RunProgram.cs:31-37 | a run that reaches the file fails only with an exception of the services, or yields records with unique keys |
| `RunProgram.RunOutcome` | src/RunProgram.cs:19-39 | every run fails only with an exception of the services, or yields records with unique keys |
| `RunProgram.RunWithArguments` | src/RunProgram.cs:24-30 | with a path and a separator given as arguments, a run that does not stop for want of a header answer ends the same whatever the console script holds |
| `RunProgram.RunAsync` | src/RunProgram.cs:19-39 | the run succeeds iff `Run` does and fails with `Run`'s error; a success issues one write per record of `Run`, each as `CreateResponse` describes |
| `RunProgram.RunFromFile` | src/RunProgram.cs:31-37 | the steps after the prompts end as `FromFile` says, with one write per record on success |
| `RunProgram.WriteRecords` | src/RunProgram.cs:34-38 | the steps after the header row end as `Records` says, with one write per record on success |

## Left out

- File I/O (`FileService`): reading is a lookup in a map of paths, and writing is the list of writes `CreateResponse` returns. `GetOutputDirectory`, `GetOuputFilePath` and `Path.Combine` are not modelled, so a write names only the company's file (`<company>.json`), without the directory. FileService.cs is not part of this model.
- `GetUserInputValues`: its three calls are made in that order inside `RunProgram.RunAsync`. The output directory it also computes is left out, with the file paths above.
- `Program.cs`: dependency injection, the console host, exception reporting and exit codes are not modelled.
- `RunAsync` argument handling: the path and the separator arrive already split. The source reads `args[1]` whenever `args` is non-empty, which throws when only one argument is given. That crash is not modelled.
- `async`, `await` and `CancellationToken` are not modelled. The steps run in sequence.
- Console I/O is a script of responses. The source prompts forever; a script that runs out ends the loop with `InputExhausted`. The `hasFailed` argument goes to a console implementation that is not part of this model. The model records the value passed on each read.
- Reflection (`GetProperties`, `PropertyInfo.GetValue`/`SetValue`) is replaced by the fixed schema of the five `Enrollment` properties in declaration order. `GetEnrollmentPropertyNames` is the schema's names and has no separate member.
- `Enrollment` has no bool property, so `GetPropertyValueLine`'s bool branch is modelled but never reached.
- Culture-sensitive `ToLower`, `StartsWith` and `OrderBy` on strings are modelled as ASCII lower-casing and ordinal (code point) comparison.
- `int.TryParse` is modelled for the invariant culture: surrounding ASCII white space, an optional sign, decimal digits, 32-bit range. Thousands separators and other culture forms are not, and neither are the trailing '\0' characters .NET also accepts ("12\0" parses as 12 there and not in the model).
- `null` strings are not modelled: every string is a value. An unmapped string property keeps the empty string. Enrollment.cs is not part of this model; if its properties start as `null`, the JSON writer's `GetType()` call would throw on one.
- `Environment.NewLine` is a parameter (`newLine` / `nl`).
- The output text is written with `Encoding.ASCII`, which turns each non-ASCII character into '?'. The model keeps the text as characters.
- CsvService.NoLineTerminatorLeft: the "no row holds a line terminator" property is proved only for a one-character terminator. With "\r\n" the source's single `Replace` pass can leave a terminator in a row, as `CsvService.CrLfCanSurvive` shows, so no stronger claim holds.
- RunService.OneFilePerCompany: file names are compared as exact strings. This assumes a case-sensitive file system and company names without path characters. On a case-insensitive file system "Acme" and "ACME" share one file, and a '/' or a rooted path in a company name moves the file.
- RunService.FileNameInjective: different companies give different file names, compared as exact strings. The same file-system assumptions as for `RunService.OneFilePerCompany` apply.
- RunService.CreateResponse: the writes are returned as a list. Their effect on the file system is `RunService.Written`, where a later write to the same file replaces an earlier one (`FileMode.Create`).
