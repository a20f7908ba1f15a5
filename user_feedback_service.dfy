/**
 * src/Services/UserFeedbackService.cs: the console prompts. The console is a
 * script of responses read in order; each loop also returns the `hasFailed`
 * flag it passed to every read and the lines it wrote. The source prompts
 * forever; a script that runs out ends the loop with `InputExhausted`.
 */
module UserFeedbackService {
  import opened Wrappers
  import opened Text

  /** A line the services write to the console. */
  datatype ConsoleLine =
    | FileLocationPrompt
    | FileMissing
    | SeparatorPrompt
    | InvalidCharacter
    | ContinuePrompt(headerCount: int, propertyCount: int)
    | InvalidResponse

  /** The text of each console line. */
  function LineText(line: ConsoleLine): string {
    match line
    case FileLocationPrompt => "Please type the location of the file you'd like to parse."
    case FileMissing => "Please select a valid file. File does not exist."
    case SeparatorPrompt => "Please type the character that separates the rows (eg. ';' or '\\n'"
    case InvalidCharacter => "Not a valid character. Please try again."
    case ContinuePrompt(headerCount, propertyCount) =>
      "The amount of properties that will be mapped are not equal to the amount of properties in the headers line of the CSV file. Properties to be mapped: "
        + IntToString(propertyCount) + "; Properties in header: " + IntToString(headerCount)
        + ". Would you like to continue? y/N"
    case InvalidResponse => "Not a valid response. Please try again."
  }

  const ExitMessage := "You have chosen to exit the program and fix the CSV File."

  /** `n` rejected reads: each writes the prompt, then the complaint. */
  function Rounds(prompt: ConsoleLine, complaint: ConsoleLine, n: nat): (r: seq<ConsoleLine>)
    ensures |r| == 2 * n
    ensures forall k :: 0 <= k < |r| ==> r[k] == if k % 2 == 0 then prompt else complaint
  {
    if n == 0 then [] else Rounds(prompt, complaint, n - 1) + [prompt, complaint]
  }

  /** `ParseContinueResponse`: yes or no by the first letter, either case; anything else is no answer. */
  function ParseContinueResponse(result: string): Option<bool> {
    var a := ToLower(result);
    if StartsWith(a, "y") then Some(true)
    else if StartsWith(a, "n") then Some(false)
    else None
  }

  /** Only the first character counts: y or Y is yes, n or N is no, anything else (or nothing) no answer. */
  lemma ParseContinueFirstLetter(result: string)
    ensures ParseContinueResponse(result) == Some(true) <==> |result| > 0 && (result[0] == 'y' || result[0] == 'Y')
    ensures ParseContinueResponse(result) == Some(false) <==> |result| > 0 && (result[0] == 'n' || result[0] == 'N')
    ensures ParseContinueResponse(result).None? <==> result == [] || result[0] !in {'y', 'Y', 'n', 'N'}
  {
    if |result| > 0 {
      assert ToLower(result)[..1] == [LowerChar(result[0])];
    }
  }

  /** The answers of the unit tests, and a few longer ones. */
  lemma ParseContinueExamples()
    ensures ParseContinueResponse("y") == Some(true) && ParseContinueResponse("Yes") == Some(true)
    ensures ParseContinueResponse("n") == Some(false) && ParseContinueResponse("NO") == Some(false)
    ensures ParseContinueResponse("k") == None && ParseContinueResponse("") == None
  {
    ParseContinueFirstLetter("y");
    ParseContinueFirstLetter("Yes");
    ParseContinueFirstLetter("n");
    ParseContinueFirstLetter("NO");
    ParseContinueFirstLetter("k");
    ParseContinueFirstLetter("");
    assert "Yes"[0] == 'Y' && "NO"[0] == 'N' && "k"[0] == 'k';
  }

  /** Lower-casing the answer first changes nothing. */
  lemma ParseContinueIgnoresCase(result: string)
    ensures ParseContinueResponse(ToLower(result)) == ParseContinueResponse(result)
  {
    ParseContinueFirstLetter(result);
    ParseContinueFirstLetter(ToLower(result));
  }

  /**
   * `GetInputFileLocation`: reads until a non-empty response names an existing
   * file (`existing` stands for the file system) and returns it.
   */
  method GetInputFileLocation(script: seq<string>, existing: set<string>)
    returns (r: Result<string>, flags: seq<bool>, out: seq<ConsoleLine>)
    ensures |flags| <= |script|
    ensures r.Ok? ==> |flags| > 0 && r.value == script[|flags| - 1] && r.value != "" && r.value in existing
    ensures r.Err? ==> r.error == InputExhausted && |flags| == |script|
    ensures forall j :: 0 <= j < |flags| - (if r.Ok? then 1 else 0) ==> script[j] == "" || script[j] !in existing
    ensures forall k :: 0 <= k < |flags| ==> flags[k] == exists j :: 0 <= j < k && script[j] !in existing
    ensures "" !in existing ==> forall k :: 0 <= k < |flags| ==> flags[k] == (k > 0)
    ensures "" !in existing ==>
      out == Rounds(FileLocationPrompt, FileMissing, |flags| - (if r.Ok? then 1 else 0)) + [FileLocationPrompt]
    ensures r.Ok? <==> LocationAt(script, existing, 0) < |script|
    ensures r.Ok? ==> |flags| == LocationAt(script, existing, 0) + 1
  {
    var response := "";
    var hasFailed := false;
    var i := 0;
    flags, out := [], [];
    while response == ""
      invariant 0 <= i <= |script| && |flags| == i
      invariant response == "" ==> forall j :: 0 <= j < i ==> script[j] == "" || script[j] !in existing
      invariant response != "" ==> i > 0 && response == script[i - 1] && response in existing
      invariant response != "" ==> forall j :: 0 <= j < i - 1 ==> script[j] == "" || script[j] !in existing
      invariant hasFailed == exists j :: 0 <= j < i && script[j] !in existing
      invariant forall k :: 0 <= k < i ==> flags[k] == exists j :: 0 <= j < k && script[j] !in existing
      invariant "" !in existing && response == "" ==> out == Rounds(FileLocationPrompt, FileMissing, i)
      invariant "" !in existing && response != "" ==>
        out == Rounds(FileLocationPrompt, FileMissing, i - 1) + [FileLocationPrompt]
      decreases |script| - i
    {
      out := out + [FileLocationPrompt];
      if i == |script| {
        r := Err(InputExhausted);
        // with no file named "", the first read already failed
        assert "" !in existing && i > 0 ==> script[0] !in existing;
        assert !(LocationAt(script, existing, 0) < i);
        return;
      }
      response := script[i];
      flags := flags + [hasFailed];
      i := i + 1;
      if response !in existing {
        out := out + [FileMissing];
        response := "";
        hasFailed := true;
      }
    }
    r := Ok(response);
    assert "" !in existing && i > 1 ==> script[0] !in existing;
    ghost var k := LocationAt(script, existing, 0);
    assert !(k < i - 1) && !(i - 1 < k);
  }

  /**
   * `char.TryParse`: a string of exactly one UTF-16 code unit. A character at
   * or above U+10000 takes two code units, so on its own it is no `char`.
   */
  function TryParseChar(s: string): (r: Option<char>)
    ensures r.Some? <==> |s| == 1 && s[0] < '\U{10000}'
    ensures r.Some? ==> r.value == s[0]
  {
    if |s| == 1 && s[0] < '\U{10000}' then Some(s[0]) else None
  }

  /** The position of the first response, from `i` on, naming an existing file; `|script|` when none does. */
  function LocationAt(script: seq<string>, existing: set<string>, i: nat): (k: nat)
    requires i <= |script|
    ensures i <= k <= |script|
    ensures k < |script| ==> script[k] != "" && script[k] in existing
    ensures forall j :: i <= j < k ==> script[j] == "" || script[j] !in existing
    decreases |script| - i
  {
    if i == |script| || (script[i] != "" && script[i] in existing) then i
    else LocationAt(script, existing, i + 1)
  }

  /** The position of the first response, from `i` on, that parses as a character; `|script|` when none does. */
  function SeparatorAt(script: seq<string>, i: nat): (k: nat)
    requires i <= |script|
    ensures i <= k <= |script|
    ensures k < |script| ==> TryParseChar(script[k]).Some?
    ensures forall j :: i <= j < k ==> TryParseChar(script[j]).None?
    decreases |script| - i
  {
    if i == |script| || TryParseChar(script[i]).Some? then i else SeparatorAt(script, i + 1)
  }

  /** The position of the first response, from `i` on, that answers yes or no; `|script|` when none does. */
  function AnswerAt(script: seq<string>, i: nat): (k: nat)
    requires i <= |script|
    ensures i <= k <= |script|
    ensures k < |script| ==> ParseContinueResponse(script[k]).Some?
    ensures forall j :: i <= j < k ==> ParseContinueResponse(script[j]).None?
    decreases |script| - i
  {
    if i == |script| || ParseContinueResponse(script[i]).Some? then i else AnswerAt(script, i + 1)
  }

  /**
   * `GetRowSeparator`: reads until a response is a single character below
   * U+10000 and returns that character.
   */
  method GetRowSeparator(script: seq<string>) returns (r: Result<char>, flags: seq<bool>, out: seq<ConsoleLine>)
    ensures |flags| <= |script|
    ensures r.Ok? ==> && |flags| > 0 && |script[|flags| - 1]| == 1
                      && script[|flags| - 1][0] < '\U{10000}' && r.value == script[|flags| - 1][0]
    ensures r.Err? ==> r.error == InputExhausted && |flags| == |script|
    ensures forall j :: 0 <= j < |flags| - (if r.Ok? then 1 else 0) ==>
      !(|script[j]| == 1 && script[j][0] < '\U{10000}')
    ensures forall k :: 0 <= k < |flags| ==> flags[k] == (k > 0)
    ensures out == Rounds(SeparatorPrompt, InvalidCharacter, |flags| - (if r.Ok? then 1 else 0)) + [SeparatorPrompt]
    ensures r.Ok? <==> SeparatorAt(script, 0) < |script|
    ensures r.Ok? ==> |flags| == SeparatorAt(script, 0) + 1
  {
    var success := false;
    var response := '\0';
    var hasFailed := false;
    var i := 0;
    flags, out := [], [];
    while !success
      invariant 0 <= i <= |script| && |flags| == i
      invariant !success ==> forall j :: 0 <= j < i ==> TryParseChar(script[j]).None?
      invariant success ==> i > 0 && TryParseChar(script[i - 1]) == Some(response)
      invariant success ==> forall j :: 0 <= j < i - 1 ==> TryParseChar(script[j]).None?
      invariant !success ==> hasFailed == (i > 0)
      invariant forall k :: 0 <= k < i ==> flags[k] == (k > 0)
      invariant !success ==> out == Rounds(SeparatorPrompt, InvalidCharacter, i)
      invariant success ==> out == Rounds(SeparatorPrompt, InvalidCharacter, i - 1) + [SeparatorPrompt]
      decreases |script| - i
    {
      out := out + [SeparatorPrompt];
      if i == |script| {
        r := Err(InputExhausted);
        assert !(SeparatorAt(script, 0) < i);
        return;
      }
      var result := script[i];
      flags := flags + [hasFailed];
      i := i + 1;
      var parsed := TryParseChar(result);
      success := parsed.Some?;
      if success {
        response := parsed.value;
      } else {
        out := out + [InvalidCharacter];
        hasFailed := true;
      }
    }
    r := Ok(response);
    ghost var k := SeparatorAt(script, 0);
    assert !(k < i - 1) && !(i - 1 < k);
  }

  /**
   * `HeaderCountNotSameAsPropertyCount`: asks until an answer is recognised;
   * yes returns, no throws the exit message, anything else asks again.
   */
  method HeaderCountNotSameAsPropertyCount(headerCount: int, propertyCount: int, script: seq<string>)
    returns (r: Result<()>, flags: seq<bool>, out: seq<ConsoleLine>)
    ensures |flags| <= |script|
    ensures r != Err(InputExhausted) ==> |flags| > 0
    ensures forall j :: 0 <= j < |flags| - (if r != Err(InputExhausted) then 1 else 0) ==>
      ParseContinueResponse(script[j]).None?
    ensures r.Ok? <==> |flags| > 0 && ParseContinueResponse(script[|flags| - 1]) == Some(true)
    ensures r == Err(ArgumentException(ExitMessage)) <==>
      |flags| > 0 && ParseContinueResponse(script[|flags| - 1]) == Some(false)
    ensures r == Err(InputExhausted) <==> |flags| == |script| && forall j :: 0 <= j < |script| ==> ParseContinueResponse(script[j]).None?
    ensures r.Err? ==> r.error == ArgumentException(ExitMessage) || r.error == InputExhausted
    ensures forall k :: 0 <= k < |flags| ==> flags[k] == (k > 0)
    ensures var prompt := ContinuePrompt(headerCount, propertyCount);
      out == Rounds(prompt, InvalidResponse, |flags| - (if r != Err(InputExhausted) then 1 else 0)) + [prompt]
    ensures r != Err(InputExhausted) <==> AnswerAt(script, 0) < |script|
    ensures r != Err(InputExhausted) ==> |flags| == AnswerAt(script, 0) + 1
  {
    var prompt := ContinuePrompt(headerCount, propertyCount);
    var success := false;
    var hasFailed := false;
    var i := 0;
    flags, out := [], [];
    while !success
      invariant 0 <= i <= |script| && |flags| == i
      invariant !success ==> forall j :: 0 <= j < i ==> ParseContinueResponse(script[j]).None?
      invariant !success ==> hasFailed == (i > 0)
      invariant success ==> i > 0 && ParseContinueResponse(script[i - 1]) == Some(true)
      invariant success ==> forall j :: 0 <= j < i - 1 ==> ParseContinueResponse(script[j]).None?
      invariant forall k :: 0 <= k < i ==> flags[k] == (k > 0)
      invariant !success ==> out == Rounds(prompt, InvalidResponse, i)
      invariant success ==> out == Rounds(prompt, InvalidResponse, i - 1) + [prompt]
      decreases |script| - i
    {
      out := out + [prompt];
      if i == |script| {
        r := Err(InputExhausted);
        assert !(AnswerAt(script, 0) < i);
        return;
      }
      var result := script[i];
      flags := flags + [hasFailed];
      i := i + 1;
      var response := ParseContinueResponse(result);
      if response.None? {
        out := out + [InvalidResponse];
        hasFailed := true;
        continue;
      }
      if !response.value {
        r := Err(ArgumentException(ExitMessage));
        ghost var k := AnswerAt(script, 0);
        assert !(k < i - 1) && !(i - 1 < k);
        return;
      }
      success := true;
    }
    r := Ok(());
    ghost var k := AnswerAt(script, 0);
    assert !(k < i - 1) && !(i - 1 < k);
  }
}
