/** The two string helpers of src/Extensions/StringExtensions.cs. */
module StringExtensions {
  import opened Text

  /** How many leading letters of a property name take part in header matching. */
  const AmountOfLettersToGet: nat := 4

  /** `str.Substring(0, 4).ToLower()`; `Substring` throws on a shorter string. */
  function GetFirstLetters(str: string): (r: string)
    requires |str| >= AmountOfLettersToGet
    ensures |r| == AmountOfLettersToGet
    ensures forall i :: 0 <= i < AmountOfLettersToGet ==> r[i] == LowerChar(str[i])
  {
    ToLower(str[..AmountOfLettersToGet])
  }

  /**
   * A header matches a name when its lower-cased form starts with the name's
   * first letters: the match ignores the case of the ASCII letters of both.
   */
  lemma MatchIgnoresCase(header: string, name: string)
    requires |name| >= AmountOfLettersToGet
    ensures StartsWith(ToLower(header), GetFirstLetters(name)) <==>
      (|header| >= AmountOfLettersToGet &&
       forall i :: 0 <= i < AmountOfLettersToGet ==> LowerChar(header[i]) == LowerChar(name[i]))
  {
    var p := GetFirstLetters(name);
    var h := ToLower(header);
    if |header| >= AmountOfLettersToGet && forall i :: 0 <= i < AmountOfLettersToGet ==> LowerChar(header[i]) == LowerChar(name[i]) {
      assert h[..AmountOfLettersToGet] == p;
    }
    if StartsWith(h, p) {
      forall i | 0 <= i < AmountOfLettersToGet
        ensures LowerChar(header[i]) == LowerChar(name[i])
      {
        assert h[..AmountOfLettersToGet][i] == p[i];
      }
    }
  }

  /** `row.Split(',').Select(item => item.Trim()).ToList()`. */
  function SplitCsvRow(row: string): (r: seq<string>)
    ensures |r| == Count(row, ',') + 1
    ensures forall k :: 0 <= k < |r| ==> ',' !in r[k]
    ensures forall k :: 0 <= k < |r| ==> r[k] == [] || (r[k][0] !in WhiteSpace && r[k][|r[k]| - 1] !in WhiteSpace)
  {
    var pieces := Split(row, ',');
    var r := seq(|pieces|, k requires 0 <= k < |pieces| => Trim(pieces[k]));
    forall k | 0 <= k < |r|
      ensures ',' !in r[k]
      ensures r[k] == [] || (r[k][0] !in WhiteSpace && r[k][|r[k]| - 1] !in WhiteSpace)
    {
      assert r[k] == Trim(pieces[k]);
      TrimmedPiece(pieces[k]);
    }
    r
  }

  /** A trimmed comma-free piece has no comma and no white space at its ends. */
  lemma TrimmedPiece(piece: string)
    requires ',' !in piece
    ensures var t := Trim(piece);
      ',' !in t && (t == [] || (t[0] !in WhiteSpace && t[|t| - 1] !in WhiteSpace))
  {
    TrimSubset(piece, ',');
    TrimProperties(piece);
  }

  /** Each field is the trimmed piece between the commas around it. */
  lemma SplitCsvRowPieces(row: string)
    ensures |SplitCsvRow(row)| == |Split(row, ',')|
    ensures forall k :: 0 <= k < |SplitCsvRow(row)| ==> SplitCsvRow(row)[k] == Trim(Split(row, ',')[k])
  {
  }

  /**
   * When no comma-delimited piece has white space at its ends, joining the
   * fields with commas gives the row back.
   */
  lemma {:induction false} SplitCsvRowRoundTrip(row: string)
    requires forall k :: 0 <= k < |Split(row, ',')| ==> Trim(Split(row, ',')[k]) == Split(row, ',')[k]
    ensures Join(SplitCsvRow(row), ",") == row
  {
    assert SplitCsvRow(row) == Split(row, ',');
    JoinSplit(row, ',');
  }

  /** A row of fields without commas and without white space at their ends survives join-then-split. */
  lemma {:induction false} JoinSplitCsvRow(fields: seq<string>)
    requires |fields| > 0
    requires forall k :: 0 <= k < |fields| ==> ',' !in fields[k]
    requires forall k :: 0 <= k < |fields| ==> fields[k] == [] || (fields[k][0] !in WhiteSpace && fields[k][|fields[k]| - 1] !in WhiteSpace)
    ensures SplitCsvRow(Join(fields, ",")) == fields
  {
    SplitJoin(fields, ',');
    forall k | 0 <= k < |fields| ensures Trim(fields[k]) == fields[k] {
      TrimUnchanged(fields[k]);
    }
  }
}
