/**
 * src/Services/CsvService.cs: cutting the file contents into rows, the header
 * test, removing the header and blank rows from the row list in place, and
 * turning rows into Enrollment records.
 */
module CsvService {
  import opened Wrappers
  import opened Text
  import opened StringExtensions
  import opened Enrollments

  // ---------------------------------------------------------------------------
  // Rows

  /**
   * `csv.Split(separator)` with every occurrence of the platform line
   * terminator `newLine` (`Environment.NewLine`) removed from each row.
   */
  function SeparateIntoRows(csv: string, separator: char, newLine: string): (rows: seq<string>)
    requires |newLine| > 0
    ensures |rows| == Count(csv, separator) + 1
  {
    var pieces := Split(csv, separator);
    seq(|pieces|, k requires 0 <= k < |pieces| => Replace(pieces[k], newLine, []))
  }

  /** Each row is the text between two separators, line terminators removed; a row without one is kept as it is. */
  lemma SeparateIntoRowsPieces(csv: string, separator: char, newLine: string, k: nat)
    requires |newLine| > 0 && k < Count(csv, separator) + 1
    ensures separator !in SeparateIntoRows(csv, separator, newLine)[k]
    ensures !Contains(Split(csv, separator)[k], newLine) ==>
      SeparateIntoRows(csv, separator, newLine)[k] == Split(csv, separator)[k]
  {
    var piece := Split(csv, separator)[k];
    if !Contains(piece, newLine) {
      ReplaceAbsent(piece, newLine, []);
    }
  }

  /** With a one-character line terminator (a Unix platform), no row contains it. */
  lemma NoLineTerminatorLeft(csv: string, separator: char, newLine: char)
    ensures forall k :: 0 <= k < |SeparateIntoRows(csv, separator, [newLine])| ==>
      newLine !in SeparateIntoRows(csv, separator, [newLine])[k]
  {
    var rows := SeparateIntoRows(csv, separator, [newLine]);
    forall k | 0 <= k < |rows| ensures newLine !in rows[k] {
      ReplaceCharRemoves(Split(csv, separator)[k], newLine);
    }
  }

  /**
   * With a two-character terminator the single removal pass can join a stray
   * carriage return to a following line feed: "\r\r\n\n" becomes "\r\n".
   */
  lemma CrLfCanSurvive()
    ensures SeparateIntoRows("a\r\r\n\nb", ';', "\r\n") == ["a\r\nb"]
  {
    var s := "a\r\r\n\nb";
    var nl := "\r\n";
    assert ';' !in s;
    SplitNoSeparator(s, ';');
    assert Replace("b", nl, []) == "b";
    assert "\nb"[..2] != nl && "\nb"[1..] == "b";
    assert Replace("\nb", nl, []) == "\nb";
    assert "\r\n\nb"[..2] == nl && "\r\n\nb"[2..] == "\nb";
    assert Replace("\r\n\nb", nl, []) == "\nb";
    assert "\r\r\n\nb"[..2] != nl && "\r\r\n\nb"[1..] == "\r\n\nb";
    assert Replace("\r\r\n\nb", nl, []) == "\r\nb";
    assert s[..2] != nl && s[1..] == "\r\r\n\nb";
    assert Replace(s, nl, []) == "a\r\nb";
  }

  /** `GetAssumedHeaderRow`: the fields of the first row, or nothing when there is no row. */
  function GetAssumedHeaderRow(rows: seq<string>): (headers: seq<string>)
    ensures headers == [] <==> rows == []
    ensures rows != [] ==> |headers| == Count(rows[0], ',') + 1
  {
    if rows == [] then [] else SplitCsvRow(rows[0])
  }

  /** `IsHeaderRow`: no field of the row parses as a 32-bit integer. */
  predicate IsHeaderRow(rowItems: seq<string>) {
    forall i :: 0 <= i < |rowItems| ==> TryParseInt32(rowItems[i]).None?
  }

  /** A row of numbers is not a header. */
  lemma NumbersAreNoHeader()
    ensures !IsHeaderRow(["1", "2"])
  {
    ParseRendered(1);
    assert IntToString(1) == "1";
    assert ["1", "2"][0] == "1";
    assert TryParseInt32(["1", "2"][0]).Some?;
  }

  /** A row of words is a header, and so is an empty row. */
  lemma WordsAreHeader(w1: string, w2: string)
    requires |w1| > 0 && forall i :: 0 <= i < |w1| ==> 'a' <= w1[i] <= 'z' || 'A' <= w1[i] <= 'Z'
    requires |w2| > 0 && forall i :: 0 <= i < |w2| ==> 'a' <= w2[i] <= 'z' || 'A' <= w2[i] <= 'Z'
    ensures IsHeaderRow([w1, w2])
    ensures IsHeaderRow([])
  {
    LettersDoNotParse(w1);
    LettersDoNotParse(w2);
    var row := [w1, w2];
    assert row[0] == w1 && row[1] == w2;
    assert forall i :: 0 <= i < |row| ==> TryParseInt32(row[i]).None? by {
      forall i | 0 <= i < |row| ensures TryParseInt32(row[i]).None? {
        if i == 0 { assert row[i] == w1; } else { assert row[i] == w2; }
      }
    }
  }

  /** `rows.RemoveAll(row => string.IsNullOrWhiteSpace(row))` as a function of the list. */
  function NonBlankRows(rows: seq<string>): (r: seq<string>)
    ensures |r| <= |rows|
  {
    if rows == [] then []
    else (if IsBlank(rows[0]) then [] else [rows[0]]) + NonBlankRows(rows[1..])
  }

  /** Exactly the rows that are not blank are kept. */
  lemma {:induction false} NonBlankRowsKept(rows: seq<string>)
    ensures forall k :: 0 <= k < |NonBlankRows(rows)| ==> !IsBlank(NonBlankRows(rows)[k])
    ensures forall x :: x in NonBlankRows(rows) <==> x in rows && !IsBlank(x)
  {
    if rows != [] {
      NonBlankRowsKept(rows[1..]);
      assert rows == [rows[0]] + rows[1..];
    }
  }

  /**
   * Removing blank rows keeps the order: the rows kept from a concatenation
   * are the rows kept from each part, one part after the other.
   */
  lemma {:induction false} NonBlankRowsAppend(a: seq<string>, b: seq<string>)
    ensures NonBlankRows(a + b) == NonBlankRows(a) + NonBlankRows(b)
  {
    if a == [] {
      assert a + b == b;
    } else {
      NonBlankRowsAppend(a[1..], b);
      assert (a + b)[0] == a[0];
      assert (a + b)[1..] == a[1..] + b;
      var head := if IsBlank(a[0]) then [] else [a[0]];
      assert NonBlankRows(a + b) == head + NonBlankRows(a[1..] + b);
      assert NonBlankRows(a) == head + NonBlankRows(a[1..]);
      ConcatAssoc(head, NonBlankRows(a[1..]), NonBlankRows(b));
    }
  }

  lemma ConcatAssoc(x: seq<string>, y: seq<string>, z: seq<string>)
    ensures x + (y + z) == x + y + z
  {
  }

  /** The list the source mutates in place (`List<string>`). */
  class RowList {
    var items: seq<string>

    constructor (rows: seq<string>)
      ensures items == rows
    {
      items := rows;
    }
  }

  /** `rows.RemoveAt(0)`, which throws on an empty list. */
  method RemoveHeaderRow(rows: RowList)
    requires |rows.items| > 0
    modifies rows
    ensures rows.items == old(rows.items)[1..]
  {
    rows.items := rows.items[1..];
  }

  /** Drops every empty or white-space row, in place. */
  method RemoveEmptyRows(rows: RowList)
    modifies rows
    ensures rows.items == NonBlankRows(old(rows.items))
  {
    rows.items := NonBlankRows(rows.items);
  }

  // ---------------------------------------------------------------------------
  // Records

  /** The message of the exception a non-integer value raises. */
  function NotAnIntegerMessage(propertyName: string): string {
    "CSV File invalid. " + propertyName + " must be an integer"
  }

  /** `ParseIntProperty`: the parsed value, or an ArgumentException naming the property. */
  function ParseIntProperty(str: string, propertyName: string): (r: Result<int>)
    ensures r.Ok? <==> TryParseInt32(str).Some?
    ensures r.Ok? ==> IsInt32(r.value) && r.value == TryParseInt32(str).value
    ensures r.Err? ==> r.error == ArgumentException(NotAnIntegerMessage(propertyName))
  {
    match TryParseInt32(str)
    case Some(n) => Ok(n)
    case None => Err(ArgumentException(NotAnIntegerMessage(propertyName)))
  }

  /** The rendering of any 32-bit integer parses back to that integer. */
  lemma ParseIntPropertyRendered(n: int, propertyName: string)
    requires IsInt32(n)
    ensures ParseIntProperty(IntToString(n), propertyName) == Ok(n)
  {
    ParseRendered(n);
  }

  /**
   * The fields of one row copied into `e`, visiting `fields` in order: the
   * first mapped index outside the row or the first integer that does not
   * parse stops the row with that error.
   */
  function FillRow(indexes: map<Field, int>, rowItems: seq<string>, fields: seq<Field>, e: Enrollment): Result<Enrollment>
  {
    if fields == [] then Ok(e)
    else
      var f := fields[0];
      if f !in indexes then FillRow(indexes, rowItems, fields[1..], e)
      else if !(0 <= indexes[f] < |rowItems|) then Err(IndexOutOfRange)
      else if TypeOf(f) == IntType then
        match ParseIntProperty(rowItems[indexes[f]], Name(f))
        case Err(x) => Err(x)
        case Ok(n) => FillRow(indexes, rowItems, fields[1..], SetInt(e, f, n))
      else FillRow(indexes, rowItems, fields[1..], SetString(e, f, rowItems[indexes[f]]))
  }

  /** What `ParseRow` yields: a new Enrollment with the mapped fields filled in schema order. */
  function ParsedRow(indexes: map<Field, int>, rowItems: seq<string>): Result<Enrollment> {
    FillRow(indexes, rowItems, Schema, Default)
  }

  /** The row holds every mapped index. */
  predicate InRange(indexes: map<Field, int>, rowItems: seq<string>) {
    forall f :: f in indexes ==> 0 <= indexes[f] < |rowItems|
  }

  /** The value the row gives field `f` when `f` is mapped. */
  predicate Carries(indexes: map<Field, int>, rowItems: seq<string>, r: Enrollment, f: Field)
    requires f in indexes && 0 <= indexes[f] < |rowItems|
  {
    if TypeOf(f) == IntType then
      TryParseInt32(rowItems[indexes[f]]).Some? && Get(r, f) == IntValue(TryParseInt32(rowItems[indexes[f]]).value)
    else Get(r, f) == StrValue(rowItems[indexes[f]])
  }

  /** A mapped integer field whose text does not parse. */
  predicate BadInt(indexes: map<Field, int>, rowItems: seq<string>, f: Field)
    requires InRange(indexes, rowItems)
  {
    f in indexes && TypeOf(f) == IntType && TryParseInt32(rowItems[indexes[f]]).None?
  }

  /** A row fails exactly when one of the visited fields is a mapped integer that does not parse. */
  lemma {:induction false} FillRowFails(indexes: map<Field, int>, rowItems: seq<string>, fields: seq<Field>, e: Enrollment)
    requires InRange(indexes, rowItems)
    ensures FillRow(indexes, rowItems, fields, e).Ok? <==> forall f :: f in fields ==> !BadInt(indexes, rowItems, f)
  {
    if fields != [] {
      var f := fields[0];
      if f !in indexes {
        FillRowFails(indexes, rowItems, fields[1..], e);
      } else if TypeOf(f) == IntType {
        if TryParseInt32(rowItems[indexes[f]]).Some? {
          var n := TryParseInt32(rowItems[indexes[f]]).value;
          assert ParseIntProperty(rowItems[indexes[f]], Name(f)) == Ok(n);
          assert FillRow(indexes, rowItems, fields, e) == FillRow(indexes, rowItems, fields[1..], SetInt(e, f, n));
          assert !BadInt(indexes, rowItems, f);
          assert forall g :: g in fields <==> g == f || g in fields[1..];
          FillRowFails(indexes, rowItems, fields[1..], SetInt(e, f, n));
        } else {
          assert BadInt(indexes, rowItems, fields[0]);
        }
      } else {
        FillRowFails(indexes, rowItems, fields[1..], SetString(e, f, rowItems[indexes[f]]));
      }
    }
  }

  /** A failing row fails with the message of a mapped integer field that does not parse. */
  lemma {:induction false} FillRowError(indexes: map<Field, int>, rowItems: seq<string>, fields: seq<Field>, e: Enrollment)
    requires InRange(indexes, rowItems)
    requires FillRow(indexes, rowItems, fields, e).Err?
    ensures exists f :: (f in fields && BadInt(indexes, rowItems, f) &&
      FillRow(indexes, rowItems, fields, e).error == ArgumentException(NotAnIntegerMessage(Name(f))))
  {
    var f := fields[0];
    var r := FillRow(indexes, rowItems, fields, e);
    if f !in indexes {
      FillRowError(indexes, rowItems, fields[1..], e);
      var g :| g in fields[1..] && BadInt(indexes, rowItems, g) && r.error == ArgumentException(NotAnIntegerMessage(Name(g)));
      assert g in fields;
    } else if TypeOf(f) == IntType {
      if TryParseInt32(rowItems[indexes[f]]).Some? {
        var n := TryParseInt32(rowItems[indexes[f]]).value;
        // Version, the one integer field, parses, so nothing after it can fail
        FillRowError(indexes, rowItems, fields[1..], SetInt(e, f, n));
        assert false;
      } else {
        assert BadInt(indexes, rowItems, f);
      }
    } else {
      FillRowError(indexes, rowItems, fields[1..], SetString(e, f, rowItems[indexes[f]]));
      var g :| g in fields[1..] && BadInt(indexes, rowItems, g) && r.error == ArgumentException(NotAnIntegerMessage(Name(g)));
      assert g in fields;
    }
  }

  /**
   * A row that succeeds carries every visited mapped field and leaves every
   * other field as it found it; fields are visited at most once.
   */
  lemma {:induction false} FillRowValues(indexes: map<Field, int>, rowItems: seq<string>, fields: seq<Field>, e: Enrollment)
    requires InRange(indexes, rowItems)
    requires forall i, j :: 0 <= i < j < |fields| ==> fields[i] != fields[j]
    requires FillRow(indexes, rowItems, fields, e).Ok?
    ensures var r := FillRow(indexes, rowItems, fields, e).value;
      && (forall f :: f in fields && f in indexes ==> Carries(indexes, rowItems, r, f))
      && (forall f :: f !in fields || f !in indexes ==> Get(r, f) == Get(e, f))
  {
    if fields != [] {
      var f := fields[0];
      var rest := fields[1..];
      assert forall g :: g in fields <==> g == f || g in rest;
      assert forall i, j :: 0 <= i < j < |rest| ==> rest[i] != rest[j] by {
        forall i, j | 0 <= i < j < |rest| ensures rest[i] != rest[j] {
          assert rest[i] == fields[i + 1] && rest[j] == fields[j + 1];
        }
      }
      assert f !in rest by {
        assert forall j :: 0 <= j < |rest| ==> rest[j] == fields[j + 1];
      }
      if f !in indexes {
        FillRowValues(indexes, rowItems, rest, e);
      } else if TypeOf(f) == IntType {
        var n := ParseIntProperty(rowItems[indexes[f]], Name(f)).value;
        FillRowValues(indexes, rowItems, rest, SetInt(e, f, n));
      } else {
        FillRowValues(indexes, rowItems, rest, SetString(e, f, rowItems[indexes[f]]));
      }
    }
  }

  /**
   * With every mapped index inside the row: the row fails exactly when the
   * mapped Version text is not an integer, with the message naming Version;
   * otherwise each mapped string field holds its text verbatim, the mapped
   * Version holds the parsed value, and every unmapped field keeps its default.
   */
  lemma ParsedRowSpec(indexes: map<Field, int>, rowItems: seq<string>)
    requires InRange(indexes, rowItems)
    ensures var r := ParsedRow(indexes, rowItems);
      && (r.Ok? <==> !BadInt(indexes, rowItems, Version))
      && (r.Err? ==> r.error == ArgumentException(NotAnIntegerMessage("Version")))
      && (r.Ok? ==> forall f :: f in indexes ==> Carries(indexes, rowItems, r.value, f))
      && (r.Ok? ==> forall f :: f !in indexes ==> Get(r.value, f) == Get(Default, f))
  {
    var r := ParsedRow(indexes, rowItems);
    ParsedRowSucceeds(indexes, rowItems);
    if r.Ok? {
      ParsedRowFields(indexes, rowItems);
    } else {
      ParsedRowMessage(indexes, rowItems);
    }
  }

  lemma ParsedRowSucceeds(indexes: map<Field, int>, rowItems: seq<string>)
    requires InRange(indexes, rowItems)
    ensures ParsedRow(indexes, rowItems).Ok? <==> !BadInt(indexes, rowItems, Version)
  {
    SchemaComplete();
    FillRowFails(indexes, rowItems, Schema, Default);
    assert forall f :: BadInt(indexes, rowItems, f) ==> f == Version;
  }

  lemma ParsedRowFields(indexes: map<Field, int>, rowItems: seq<string>)
    requires InRange(indexes, rowItems) && ParsedRow(indexes, rowItems).Ok?
    ensures forall f :: f in indexes ==> Carries(indexes, rowItems, ParsedRow(indexes, rowItems).value, f)
    ensures forall f :: f !in indexes ==> Get(ParsedRow(indexes, rowItems).value, f) == Get(Default, f)
  {
    SchemaComplete();
    FillRowValues(indexes, rowItems, Schema, Default);
  }

  lemma ParsedRowMessage(indexes: map<Field, int>, rowItems: seq<string>)
    requires InRange(indexes, rowItems) && ParsedRow(indexes, rowItems).Err?
    ensures ParsedRow(indexes, rowItems).error == ArgumentException(NotAnIntegerMessage("Version"))
  {
    var r := ParsedRow(indexes, rowItems);
    FillRowError(indexes, rowItems, Schema, Default);
    var g :| g in Schema && BadInt(indexes, rowItems, g) && r.error == ArgumentException(NotAnIntegerMessage(Name(g)));
    assert g == Version;
  }

  /** A mapped index past the end of the row makes the row fail. */
  lemma {:induction false} ParsedRowOutOfRange(indexes: map<Field, int>, rowItems: seq<string>, fields: seq<Field>, e: Enrollment, g: Field)
    requires g in fields && g in indexes && !(0 <= indexes[g] < |rowItems|)
    ensures FillRow(indexes, rowItems, fields, e).Err?
  {
    var f := fields[0];
    if f == g {
    } else {
      assert g in fields[1..];
      if f in indexes && 0 <= indexes[f] < |rowItems| {
        if TypeOf(f) == IntType {
          match ParseIntProperty(rowItems[indexes[f]], Name(f))
          case Err(x) =>
          case Ok(n) => ParsedRowOutOfRange(indexes, rowItems, fields[1..], SetInt(e, f, n), g);
        } else {
          ParsedRowOutOfRange(indexes, rowItems, fields[1..], SetString(e, f, rowItems[indexes[f]]), g);
        }
      } else if f !in indexes {
        ParsedRowOutOfRange(indexes, rowItems, fields[1..], e, g);
      }
    }
  }

  /**
   * `ParseRow`: a new Enrollment, then one assignment per entry of the index
   * map (entries are visited in schema order, the order they were added in).
   */
  method ParseRow(indexes: map<Field, int>, rowItems: seq<string>) returns (r: Result<Enrollment>)
    ensures r == ParsedRow(indexes, rowItems)
  {
    var enrollment := Default;
    var i := 0;
    while i < |Schema|
      invariant 0 <= i <= |Schema|
      invariant FillRow(indexes, rowItems, Schema[i..], enrollment) == ParsedRow(indexes, rowItems)
    {
      var f := Schema[i];
      assert Schema[i..][1..] == Schema[i + 1..];
      if f in indexes {
        var k := indexes[f];
        if !(0 <= k < |rowItems|) {
          return Err(IndexOutOfRange);
        }
        if TypeOf(f) == IntType {
          var value := ParseIntProperty(rowItems[k], Name(f));
          if value.Err? {
            return Err(value.error);
          }
          enrollment := SetInt(enrollment, f, value.value);
        } else {
          enrollment := SetString(enrollment, f, rowItems[k]);
        }
      }
      i := i + 1;
    }
    r := Ok(enrollment);
  }

  /** All rows parsed in order; the first row that fails fails the whole list. */
  function ParseAll(indexes: map<Field, int>, rows: seq<string>): (r: Result<seq<Enrollment>>)
    ensures r.Ok? <==> forall i :: 0 <= i < |rows| ==> ParsedRow(indexes, SplitCsvRow(rows[i])).Ok?
    ensures r.Ok? ==> |r.value| == |rows|
    ensures r.Ok? ==> forall i :: 0 <= i < |rows| ==> ParsedRow(indexes, SplitCsvRow(rows[i])) == Ok(r.value[i])
  {
    if rows == [] then Ok([])
    else
      match ParsedRow(indexes, SplitCsvRow(rows[0]))
      case Err(x) => Err(x)
      case Ok(e) =>
        match ParseAll(indexes, rows[1..])
        case Err(x) => Err(x)
        case Ok(es) =>
          assert forall i :: 0 < i < |rows| ==> rows[i] == rows[1..][i - 1];
          Ok([e] + es)
  }

  /** The error of the whole list is the error of its first failing row. */
  lemma {:induction false} ParseAllFirstFailure(indexes: map<Field, int>, rows: seq<string>, i: nat)
    requires i < |rows|
    requires forall j :: 0 <= j < i ==> ParsedRow(indexes, SplitCsvRow(rows[j])).Ok?
    requires ParsedRow(indexes, SplitCsvRow(rows[i])).Err?
    ensures ParseAll(indexes, rows) == Err(ParsedRow(indexes, SplitCsvRow(rows[i])).error)
  {
    if i > 0 {
      assert rows[1..][i - 1] == rows[i];
      assert forall j :: 0 <= j < i - 1 ==> rows[1..][j] == rows[j + 1];
      ParseAllFirstFailure(indexes, rows[1..], i - 1);
    }
  }

  /** `ParseRows`: each row split into fields and parsed, appended to a fresh list. */
  method ParseRows(indexes: map<Field, int>, rows: seq<string>) returns (r: Result<seq<Enrollment>>)
    ensures r == ParseAll(indexes, rows)
  {
    var enrollments: seq<Enrollment> := [];
    var i := 0;
    while i < |rows|
      invariant 0 <= i <= |rows| && |enrollments| == i
      invariant forall j :: 0 <= j < i ==> ParsedRow(indexes, SplitCsvRow(rows[j])) == Ok(enrollments[j])
    {
      var rowItems := SplitCsvRow(rows[i]);
      var enrollment := ParseRow(indexes, rowItems);
      if enrollment.Err? {
        ParseAllFirstFailure(indexes, rows, i);
        return Err(enrollment.error);
      }
      enrollments := enrollments + [enrollment.value];
      i := i + 1;
    }
    r := Ok(enrollments);
    if ParseAll(indexes, rows).Ok? {
      assert ParseAll(indexes, rows).value == enrollments;
    }
  }
}
