/**
 * src/Services/JsonService.cs: the hand-written JSON layout. The wrapper lines
 * end in the platform line terminator `nl` (what `AppendLine` appends); the
 * field lines end in a bare "\n".
 */
module JsonService {
  import opened Text
  import opened Enrollments

  /** `GetPropertyValueLine`: integers and booleans pass through, anything else is quoted (no escaping). */
  function GetPropertyValueLine(v: Value): (r: Value)
    ensures !v.StrValue? ==> r == v
    ensures v.StrValue? ==> r.StrValue? && |r.s| == |v.s| + 2
    ensures v.StrValue? ==> r.s[0] == '"' && r.s[|r.s| - 1] == '"' && r.s[1..|r.s| - 1] == v.s
  {
    match v
    case StrValue(s) => StrValue("\"" + s + "\"")
    case _ => v
  }

  /** The text `StringBuilder.Append(object)` writes for a value. */
  function Render(v: Value): string {
    match v
    case IntValue(i) => IntToString(i)
    case BoolValue(b) => if b then "True" else "False"
    case StrValue(s) => s
  }

  /** `GetJsonLineEnd`: a comma after every field line but the last. */
  function GetJsonLineEnd(propertyCount: int, iteration: int): (r: string)
    ensures iteration < propertyCount - 1 ==> r == ",\n"
    ensures iteration >= propertyCount - 1 ==> r == "\n"
  {
    if iteration < propertyCount - 1 then ",\n" else "\n"
  }

  /** `GetClosingBracketLine`: a comma after every record but the last. */
  function GetClosingBracketLine(enrollmentCount: int, iteration: int): (r: string)
    ensures iteration < enrollmentCount - 1 ==> r == "},"
    ensures iteration >= enrollmentCount - 1 ==> r == "}"
  {
    if iteration < enrollmentCount - 1 then "}," else "}"
  }

  /** The interpolated key text written before a property's value. */
  function PropertyKey(f: Field): string {
    "\"" + Name(f) + "\": "
  }

  /** The line for property `j` of the schema. */
  function FieldLine(e: Enrollment, j: nat): string
    requires j < |Schema|
  {
    PropertyKey(Schema[j]) + Render(GetPropertyValueLine(Get(e, Schema[j]))) + GetJsonLineEnd(|Schema|, j)
  }

  /** The first `m` field lines of a record. */
  function FieldLines(e: Enrollment, m: nat): string
    requires m <= |Schema|
  {
    if m == 0 then [] else FieldLines(e, m - 1) + FieldLine(e, m - 1)
  }

  /** The block of record `i`: an opening brace line, the five field lines, the closing brace line. */
  function Block(es: seq<Enrollment>, i: nat, nl: string): string
    requires i < |es|
  {
    ("{" + nl) + FieldLines(es[i], |Schema|) + (GetClosingBracketLine(|es|, i) + nl)
  }

  /** The blocks of the first `n` records. */
  function Blocks(es: seq<Enrollment>, n: nat, nl: string): string
    requires n <= |es|
  {
    if n == 0 then [] else Blocks(es, n - 1, nl) + Block(es, n - 1, nl)
  }

  function Opening(nl: string): string {
    "{" + nl + "\"data\": [" + nl
  }

  function Closing(nl: string): string {
    "]" + nl + "}" + nl
  }

  /** The whole document for a list of records. */
  function JsonText(es: seq<Enrollment>, nl: string): string {
    Opening(nl) + Blocks(es, |es|, nl) + Closing(nl)
  }

  /** `SerializeEnrollmentsToJson`: the nested loops append exactly the document `JsonText` describes. */
  method SerializeEnrollmentsToJson(enrollments: seq<Enrollment>, nl: string) returns (text: string)
    ensures text == JsonText(enrollments, nl)
  {
    var builder := "{" + nl;
    builder := builder + "\"data\": [" + nl;
    assert Blocks(enrollments, 0, nl) == [];
    assert builder == Opening(nl) + [];
    var i := 0;
    while i < |enrollments|
      invariant 0 <= i <= |enrollments|
      invariant builder == Opening(nl) + Blocks(enrollments, i, nl)
    {
      builder := builder + ("{" + nl);
      builder := AppendProperties(builder, enrollments[i]);
      builder := builder + (GetClosingBracketLine(|enrollments|, i) + nl);
      Regroup4(Opening(nl), Blocks(enrollments, i, nl), "{" + nl, FieldLines(enrollments[i], |Schema|),
        GetClosingBracketLine(|enrollments|, i) + nl);
      i := i + 1;
    }
    ghost var all := builder;
    builder := builder + "]" + nl;
    builder := builder + "}" + nl;
    Regroup4(all, "]", nl, "}", nl);
    text := builder;
  }

  /** The inner loop of `SerializeEnrollmentsToJson`: one line per property of one record. */
  method AppendProperties(builder: string, e: Enrollment) returns (r: string)
    ensures r == builder + FieldLines(e, |Schema|)
  {
    var properties := Schema;
    r := builder;
    var j := 0;
    while j < |properties|
      invariant 0 <= j <= |properties|
      invariant r == builder + FieldLines(e, j)
    {
      var property := properties[j];
      ghost var before := r;
      r := r + PropertyKey(property);
      r := r + Render(GetPropertyValueLine(Get(e, property)));
      r := r + GetJsonLineEnd(|properties|, j);
      NextFieldLine(builder, before, e, j);
      j := j + 1;
    }
  }

  /** Appending the three parts of line `j` extends the text by that field line. */
  lemma NextFieldLine(builder: string, r: string, e: Enrollment, j: nat)
    requires j < |Schema| && r == builder + FieldLines(e, j)
    ensures r + PropertyKey(Schema[j]) + Render(GetPropertyValueLine(Get(e, Schema[j]))) + GetJsonLineEnd(|Schema|, j)
      == builder + FieldLines(e, j + 1)
  {
    var key := PropertyKey(Schema[j]);
    var value := Render(GetPropertyValueLine(Get(e, Schema[j])));
    var end := GetJsonLineEnd(|Schema|, j);
    assert FieldLines(e, j + 1) == FieldLines(e, j) + (key + value + end);
    Append3(builder, FieldLines(e, j), key, value, end);
  }

  lemma Append3(b: string, p: string, x: string, y: string, z: string)
    ensures b + p + x + y + z == b + (p + (x + y + z))
  {
  }

  lemma Flatten2(x: string, p: string, q: string)
    ensures x + p + q == x + (p + q)
  {
  }

  lemma Regroup4(a: string, b: string, c: string, d: string, f: string)
    ensures a + b + c + d + f == a + (b + (c + d + f))
    ensures a + b + c + d + f == a + (b + c + d + f)
  {
  }

  /** Whatever the records, the document opens with the data array and closes it. */
  lemma JsonWrapped(es: seq<Enrollment>, nl: string)
    ensures var t := JsonText(es, nl);
      && |Opening(nl)| + |Closing(nl)| <= |t|
      && t[..|Opening(nl)|] == "{" + nl + "\"data\": [" + nl
      && t[|t| - |Closing(nl)|..] == "]" + nl + "}" + nl
  {
    var t := JsonText(es, nl);
    assert t == Opening(nl) + Blocks(es, |es|, nl) + Closing(nl);
  }

  /** An empty list gives the wrapper alone. */
  lemma JsonEmpty(nl: string)
    ensures JsonText([], nl) == "{" + nl + "\"data\": [" + nl + "]" + nl + "}" + nl
  {
  }

  /** The line of a string field: its quoted name, then its quoted value, then the line end. */
  lemma StringFieldLine(e: Enrollment, j: nat)
    requires j < |Schema| && TypeOf(Schema[j]) == StringType
    ensures FieldLine(e, j) == "\"" + Name(Schema[j]) + "\": \"" + Get(e, Schema[j]).s + "\"" + GetJsonLineEnd(|Schema|, j)
  {
    var v := Get(e, Schema[j]).s;
    assert GetPropertyValueLine(Get(e, Schema[j])) == StrValue("\"" + v + "\"");
    QuotedValue(Name(Schema[j]), v, GetJsonLineEnd(|Schema|, j));
  }

  lemma QuotedValue(n: string, v: string, z: string)
    ensures "\"" + n + "\": " + ("\"" + v + "\"") + z == "\"" + n + "\": \"" + v + "\"" + z
  {
  }

  lemma QuoteComma(p: string, v: string)
    ensures p + v + "\"" + ",\n" == p + v + "\",\n"
  {
  }

  lemma QuoteNewline(p: string, v: string)
    ensures p + v + "\"" + "\n" == p + v + "\"\n"
  {
  }

  lemma UserIdKey()
    ensures "\"" + "UserId" + "\": \"" == "\"UserId\": \""
  {
  }

  lemma FirstNameKey()
    ensures "\"" + "FirstName" + "\": \"" == "\"FirstName\": \""
  {
  }

  lemma LastNameKey()
    ensures "\"" + "LastName" + "\": \"" == "\"LastName\": \""
  {
  }

  lemma VersionKey()
    ensures "\"" + "Version" + "\": " == "\"Version\": "
  {
  }

  lemma InsuranceCompanyKey()
    ensures "\"" + "InsuranceCompany" + "\": \"" == "\"InsuranceCompany\": \""
  {
  }

  lemma UserIdLine(e: Enrollment)
    ensures FieldLine(e, 0) == "\"UserId\": \"" + e.userId + "\",\n"
  {
    StringFieldLine(e, 0);
    UserIdKey();
    QuoteComma("\"UserId\": \"", e.userId);
  }

  lemma FirstNameLine(e: Enrollment)
    ensures FieldLine(e, 1) == "\"FirstName\": \"" + e.firstName + "\",\n"
  {
    StringFieldLine(e, 1);
    FirstNameKey();
    QuoteComma("\"FirstName\": \"", e.firstName);
  }

  lemma LastNameLine(e: Enrollment)
    ensures FieldLine(e, 2) == "\"LastName\": \"" + e.lastName + "\",\n"
  {
    StringFieldLine(e, 2);
    LastNameKey();
    QuoteComma("\"LastName\": \"", e.lastName);
  }

  lemma VersionLine(e: Enrollment)
    ensures FieldLine(e, 3) == "\"Version\": " + IntToString(e.version) + ",\n"
  {
    assert FieldLine(e, 3) == "\"" + "Version" + "\": " + IntToString(e.version) + ",\n";
    VersionKey();
  }

  lemma InsuranceCompanyLine(e: Enrollment)
    ensures FieldLine(e, 4) == "\"InsuranceCompany\": \"" + e.insuranceCompany + "\"\n"
  {
    StringFieldLine(e, 4);
    InsuranceCompanyKey();
    QuoteNewline("\"InsuranceCompany\": \"", e.insuranceCompany);
  }

  /** The field lines of a record are the five lines, in schema order. */
  lemma FieldLinesInOrder(e: Enrollment)
    ensures FieldLines(e, |Schema|)
      == FieldLine(e, 0) + FieldLine(e, 1) + FieldLine(e, 2) + FieldLine(e, 3) + FieldLine(e, 4)
  {
    assert FieldLines(e, 1) == FieldLine(e, 0);
    assert FieldLines(e, 2) == FieldLines(e, 1) + FieldLine(e, 1);
    assert FieldLines(e, 3) == FieldLines(e, 2) + FieldLine(e, 2);
    assert FieldLines(e, 4) == FieldLines(e, 3) + FieldLine(e, 3);
    assert FieldLines(e, 5) == FieldLines(e, 4) + FieldLine(e, 4);
  }

  /**
   * Every record gives one block listing the five fields in schema order, the
   * first four lines ending in ",\n" and the last in "\n"; every block but the
   * last closes with "},".
   */
  lemma BlockLayout(es: seq<Enrollment>, i: nat, nl: string)
    requires i < |es|
    ensures var e := es[i];
      Block(es, i, nl) ==
        "{" + nl
        + (("\"UserId\": \"" + e.userId + "\",\n")
          + ("\"FirstName\": \"" + e.firstName + "\",\n")
          + ("\"LastName\": \"" + e.lastName + "\",\n")
          + ("\"Version\": " + IntToString(e.version) + ",\n")
          + ("\"InsuranceCompany\": \"" + e.insuranceCompany + "\"\n"))
        + (if i < |es| - 1 then "}," else "}") + nl
  {
    var e := es[i];
    UserIdLine(e);
    FirstNameLine(e);
    LastNameLine(e);
    VersionLine(e);
    InsuranceCompanyLine(e);
    FieldLinesInOrder(e);
    var close := GetClosingBracketLine(|es|, i);
    assert close == if i < |es| - 1 then "}," else "}";
    var x := FieldLine(e, 0) + FieldLine(e, 1) + FieldLine(e, 2) + FieldLine(e, 3) + FieldLine(e, 4);
    assert Block(es, i, nl) == "{" + nl + x + close + nl;
  }
}

module JsonSample {
  import opened Text
  import opened Enrollments
  import opened JsonService

  /** The two records of the serializer's unit test. */
  const Sample: seq<Enrollment> := [
    Enrollment("Guid2", "AExpectedFirst", "AExpectedLast", 4, "company2"),
    Enrollment("Guid", "ExpectedFirst", "ExpectedLast", 4, "company")
  ]

  lemma SampleFirstBlock()
    ensures Block(Sample, 0, "\r\n") ==
      "{\r\n" + "\"UserId\": \"Guid2\",\n" + "\"FirstName\": \"AExpectedFirst\",\n"
      + "\"LastName\": \"AExpectedLast\",\n" + "\"Version\": 4,\n"
      + "\"InsuranceCompany\": \"company2\"\n" + "},\r\n"
  {
    BlockLayout(Sample, 0, "\r\n");
    VersionFour();
    FirstUserId();
    FirstFirstName();
    FirstLastName();
    FirstCompany();
    Brackets();
  }

  lemma SampleSecondBlock()
    ensures Block(Sample, 1, "\r\n") ==
      "{\r\n" + "\"UserId\": \"Guid\",\n" + "\"FirstName\": \"ExpectedFirst\",\n"
      + "\"LastName\": \"ExpectedLast\",\n" + "\"Version\": 4,\n"
      + "\"InsuranceCompany\": \"company\"\n" + "}\r\n"
  {
    BlockLayout(Sample, 1, "\r\n");
    VersionFour();
    SecondUserId();
    SecondFirstName();
    SecondLastName();
    SecondCompany();
    Brackets();
  }

  lemma VersionFour()
    ensures "\"Version\": " + IntToString(4) + ",\n" == "\"Version\": 4,\n"
  {
    assert IntToString(4) == "4";
  }

  lemma Brackets()
    ensures "{" + "\r\n" == "{\r\n" && "}," + "\r\n" == "},\r\n" && "}" + "\r\n" == "}\r\n"
  {
  }

  lemma FirstUserId()
    ensures "\"UserId\": \"" + "Guid2" + "\",\n" == "\"UserId\": \"Guid2\",\n"
  {
  }

  lemma FirstFirstName()
    ensures "\"FirstName\": \"" + "AExpectedFirst" + "\",\n" == "\"FirstName\": \"AExpectedFirst\",\n"
  {
  }

  lemma FirstLastName()
    ensures "\"LastName\": \"" + "AExpectedLast" + "\",\n" == "\"LastName\": \"AExpectedLast\",\n"
  {
  }

  lemma FirstCompany()
    ensures "\"InsuranceCompany\": \"" + "company2" + "\"\n" == "\"InsuranceCompany\": \"company2\"\n"
  {
  }

  lemma SecondUserId()
    ensures "\"UserId\": \"" + "Guid" + "\",\n" == "\"UserId\": \"Guid\",\n"
  {
  }

  lemma SecondFirstName()
    ensures "\"FirstName\": \"" + "ExpectedFirst" + "\",\n" == "\"FirstName\": \"ExpectedFirst\",\n"
  {
  }

  lemma SecondLastName()
    ensures "\"LastName\": \"" + "ExpectedLast" + "\",\n" == "\"LastName\": \"ExpectedLast\",\n"
  {
  }

  lemma SecondCompany()
    ensures "\"InsuranceCompany\": \"" + "company" + "\"\n" == "\"InsuranceCompany\": \"company\"\n"
  {
  }

  /**
   * The serializer's unit test: two records with the Windows line terminator
   * give the expected document, written here one line per literal.
   */
  lemma SampleDocument()
    ensures JsonText(Sample, "\r\n") ==
      "{\r\n" + "\"data\": [\r\n"
      + "{\r\n" + "\"UserId\": \"Guid2\",\n" + "\"FirstName\": \"AExpectedFirst\",\n"
      + "\"LastName\": \"AExpectedLast\",\n" + "\"Version\": 4,\n"
      + "\"InsuranceCompany\": \"company2\"\n" + "},\r\n"
      + "{\r\n" + "\"UserId\": \"Guid\",\n" + "\"FirstName\": \"ExpectedFirst\",\n"
      + "\"LastName\": \"ExpectedLast\",\n" + "\"Version\": 4,\n"
      + "\"InsuranceCompany\": \"company\"\n" + "}\r\n"
      + "]\r\n" + "}\r\n"
  {
    SampleFirstBlock();
    SampleSecondBlock();
    var o := "{\r\n" + "\"data\": [\r\n";
    var b0 := Block(Sample, 0, "\r\n");
    var b1 := Block(Sample, 1, "\r\n");
    BlocksOfTwo(Sample, "\r\n");
    assert Opening("\r\n") == o;
    assert Closing("\r\n") == "]\r\n" + "}\r\n";
    Flatten2(o, b0, b1);
    Flatten7(o, "{\r\n", "\"UserId\": \"Guid2\",\n", "\"FirstName\": \"AExpectedFirst\",\n",
      "\"LastName\": \"AExpectedLast\",\n", "\"Version\": 4,\n",
      "\"InsuranceCompany\": \"company2\"\n", "},\r\n");
    var ob0 := o + "{\r\n" + "\"UserId\": \"Guid2\",\n" + "\"FirstName\": \"AExpectedFirst\",\n"
      + "\"LastName\": \"AExpectedLast\",\n" + "\"Version\": 4,\n"
      + "\"InsuranceCompany\": \"company2\"\n" + "},\r\n";
    Flatten7(ob0, "{\r\n", "\"UserId\": \"Guid\",\n", "\"FirstName\": \"ExpectedFirst\",\n",
      "\"LastName\": \"ExpectedLast\",\n", "\"Version\": 4,\n",
      "\"InsuranceCompany\": \"company\"\n", "}\r\n");
    var ob1 := ob0 + "{\r\n" + "\"UserId\": \"Guid\",\n" + "\"FirstName\": \"ExpectedFirst\",\n"
      + "\"LastName\": \"ExpectedLast\",\n" + "\"Version\": 4,\n"
      + "\"InsuranceCompany\": \"company\"\n" + "}\r\n";
    Flatten2(ob1, "]\r\n", "}\r\n");
  }

  lemma BlocksOfTwo(es: seq<Enrollment>, nl: string)
    requires |es| == 2
    ensures Blocks(es, 2, nl) == Block(es, 0, nl) + Block(es, 1, nl)
  {
    var b0 := Block(es, 0, nl);
    EmptyPrefix(b0);
    assert Blocks(es, 1, nl) == [] + b0;
  }

  lemma EmptyPrefix(x: string)
    ensures [] + x == x
  {
  }

  lemma Flatten7(x: string, p1: string, p2: string, p3: string, p4: string, p5: string, p6: string, p7: string)
    ensures x + (p1 + p2 + p3 + p4 + p5 + p6 + p7) == x + p1 + p2 + p3 + p4 + p5 + p6 + p7
  {
  }
}
