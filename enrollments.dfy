/**
 * The Enrollment record and the static schema that stands in for reflection
 * over its properties: the five fields in declaration order, each with its
 * name and its type.
 */
module Enrollments {
  import opened Text
  import opened StringExtensions

  datatype Field = UserId | FirstName | LastName | Version | InsuranceCompany

  datatype FieldType = StringType | IntType

  /** The properties of Enrollment in declaration order (what `GetProperties` yields). */
  const Schema: seq<Field> := [UserId, FirstName, LastName, Version, InsuranceCompany]

  function Name(f: Field): (r: string)
    ensures |r| >= AmountOfLettersToGet
  {
    match f
    case UserId => "UserId"
    case FirstName => "FirstName"
    case LastName => "LastName"
    case Version => "Version"
    case InsuranceCompany => "InsuranceCompany"
  }

  function TypeOf(f: Field): FieldType {
    if f == Version then IntType else StringType
  }

  /** The record one CSV row becomes. `Version` is a 32-bit integer in the source. */
  datatype Enrollment = Enrollment(
    userId: string,
    firstName: string,
    lastName: string,
    version: int,
    insuranceCompany: string)

  /** A fresh `new Enrollment()`: every string empty and the version zero. */
  const Default: Enrollment := Enrollment("", "", "", 0, "")

  /** The boxed value of a property, as `PropertyInfo.GetValue` returns it. */
  datatype Value = IntValue(i: int) | BoolValue(b: bool) | StrValue(s: string)

  function Get(e: Enrollment, f: Field): (v: Value)
    ensures TypeOf(f) == IntType <==> v.IntValue?
    ensures TypeOf(f) == StringType <==> v.StrValue?
  {
    match f
    case UserId => StrValue(e.userId)
    case FirstName => StrValue(e.firstName)
    case LastName => StrValue(e.lastName)
    case Version => IntValue(e.version)
    case InsuranceCompany => StrValue(e.insuranceCompany)
  }

  /** `PropertyInfo.SetValue` of a string property. */
  function SetString(e: Enrollment, f: Field, s: string): (r: Enrollment)
    requires TypeOf(f) == StringType
    ensures Get(r, f) == StrValue(s)
    ensures forall g :: g != f ==> Get(r, g) == Get(e, g)
  {
    match f
    case UserId => e.(userId := s)
    case FirstName => e.(firstName := s)
    case LastName => e.(lastName := s)
    case InsuranceCompany => e.(insuranceCompany := s)
  }

  /** `PropertyInfo.SetValue` of an integer property. */
  function SetInt(e: Enrollment, f: Field, n: int): (r: Enrollment)
    requires TypeOf(f) == IntType
    ensures Get(r, f) == IntValue(n)
    ensures forall g :: g != f ==> Get(r, g) == Get(e, g)
  {
    e.(version := n)
  }

  /** The key the lower-cased headers are matched against. */
  function Prefix(f: Field): string {
    GetFirstLetters(Name(f))
  }

  /** The schema names every field exactly once. */
  lemma SchemaComplete()
    ensures |Schema| == 5
    ensures forall f :: f in Schema
    ensures forall i, j :: 0 <= i < j < |Schema| ==> Schema[i] != Schema[j]
  {
    forall f ensures f in Schema {
      match f
      case UserId => assert Schema[0] == f;
      case FirstName => assert Schema[1] == f;
      case LastName => assert Schema[2] == f;
      case Version => assert Schema[3] == f;
      case InsuranceCompany => assert Schema[4] == f;
    }
  }

  /** Two records that agree on every schema field are the same record. */
  lemma {:induction false} GetDetermines(a: Enrollment, b: Enrollment)
    requires forall f :: Get(a, f) == Get(b, f)
    ensures a == b
  {
    assert Get(a, UserId) == Get(b, UserId);
    assert Get(a, FirstName) == Get(b, FirstName);
    assert Get(a, LastName) == Get(b, LastName);
    assert Get(a, Version) == Get(b, Version);
    assert Get(a, InsuranceCompany) == Get(b, InsuranceCompany);
  }

  /** The match keys are user, firs, last, vers and insu. */
  lemma PrefixValues()
    ensures Prefix(UserId) == "user" && Prefix(FirstName) == "firs" && Prefix(LastName) == "last"
    ensures Prefix(Version) == "vers" && Prefix(InsuranceCompany) == "insu"
  {
    assert Name(UserId)[..4] == "User";
    assert Name(FirstName)[..4] == "Firs";
    assert Name(LastName)[..4] == "Last";
    assert Name(Version)[..4] == "Vers";
    assert Name(InsuranceCompany)[..4] == "Insu";
  }

  /** Different fields have different match keys. */
  lemma PrefixesDistinct(f: Field, g: Field)
    requires f != g
    ensures Prefix(f) != Prefix(g)
  {
    PrefixValues();
  }
}
