/**
 * src/Services/EnrollmentObjectService.cs: matching header names to schema
 * fields, the field-to-column map, collapsing versions of one enrollment, and
 * the per-company ordering.
 */
module EnrollmentObjectService {
  import opened Wrappers
  import opened Text
  import opened StringExtensions
  import opened Enrollments

  // ---------------------------------------------------------------------------
  // Header matching

  /** The lower-cased header starts with the field's four-letter key. */
  predicate Matches(header: string, f: Field) {
    StartsWith(ToLower(header), Prefix(f))
  }

  /** `List<string>.IndexOf`: the first position holding `x`, or -1. */
  function IndexOf(xs: seq<string>, x: string): (k: int)
    ensures -1 <= k < |xs|
    ensures k >= 0 ==> xs[k] == x && forall j :: 0 <= j < k ==> xs[j] != x
    ensures k == -1 <==> x !in xs
  {
    if xs == [] then -1
    else if xs[0] == x then 0
    else
      var k := IndexOf(xs[1..], x);
      if k == -1 then -1 else k + 1
  }

  /** `GetMatchingHeader`: the first header matching the field, or null. */
  function GetMatchingHeader(headers: seq<string>, f: Field): (r: Option<string>)
    ensures r.None? <==> forall j :: 0 <= j < |headers| ==> !Matches(headers[j], f)
    ensures r.Some? ==> Matches(r.value, f) && 0 <= IndexOf(headers, r.value)
    ensures r.Some? ==> forall j :: 0 <= j < IndexOf(headers, r.value) ==> !Matches(headers[j], f)
  {
    if headers == [] then None
    else if Matches(headers[0], f) then Some(headers[0])
    else
      var r := GetMatchingHeader(headers[1..], f);
      assert forall j :: 0 < j < |headers| ==> headers[j] == headers[1..][j - 1];
      r
  }

  /** One header can match at most one field: the five keys differ and all have four letters. */
  lemma OneFieldPerHeader(header: string, f: Field, g: Field)
    requires Matches(header, f) && Matches(header, g)
    ensures f == g
  {
    if f != g {
      PrefixesDistinct(f, g);
      assert false;
    }
  }

  /** `headers[k]` is the first header matching `f`. */
  predicate FirstMatchAt(headers: seq<string>, f: Field, k: int) {
    0 <= k < |headers| && Matches(headers[k], f) && forall j :: 0 <= j < k ==> !Matches(headers[j], f)
  }

  /** The header chosen for a field is the one at its first matching position. */
  lemma MatchingHeaderAt(headers: seq<string>, f: Field, k: int)
    requires FirstMatchAt(headers, f, k)
    ensures GetMatchingHeader(headers, f) == Some(headers[k])
  {
    var r := GetMatchingHeader(headers, f);
    var m := IndexOf(headers, r.value);
    assert !(m < k) && !(k < m);
  }

  /**
   * `GetIndexValues`: for each property in declaration order, the position of
   * its matching header, when there is one. Every column is claimed by at most
   * one field.
   */
  method GetIndexValues(headers: seq<string>) returns (indexes: map<Field, int>)
    ensures forall f :: f in indexes <==> GetMatchingHeader(headers, f).Some?
    ensures forall f :: f in indexes ==> FirstMatchAt(headers, f, indexes[f])
    ensures forall f, g :: f in indexes && g in indexes && f != g ==> indexes[f] != indexes[g]
    ensures indexes == IndexMap(headers)
  {
    SchemaComplete();
    indexes := map[];
    var i := 0;
    while i < |Schema|
      invariant 0 <= i <= |Schema|
      invariant forall f :: f in indexes <==> f in Schema[..i] && GetMatchingHeader(headers, f).Some?
      invariant forall f :: f in indexes ==> FirstMatchAt(headers, f, indexes[f])
    {
      var property := Schema[i];
      var item := GetMatchingHeader(headers, property);
      if item.Some? {
        var index := IndexOf(headers, item.value);
        assert property !in indexes;  // Dictionary.Add would throw on a second entry
        indexes := indexes[property := index];
      }
      assert Schema[..i + 1] == Schema[..i] + [property];
      i := i + 1;
    }
    assert Schema[..i] == Schema;
    forall f, g | f in indexes && g in indexes && f != g ensures indexes[f] != indexes[g] {
      if indexes[f] == indexes[g] {
        OneFieldPerHeader(headers[indexes[f]], f, g);
      }
    }
    IndexMapUnique(headers, indexes);
  }

  /**
   * The map `GetIndexValues` builds: every field with a matching header, to
   * the position of its first match.
   */
  function IndexMap(headers: seq<string>): (m: map<Field, int>)
    ensures forall f :: f in m <==> GetMatchingHeader(headers, f).Some?
    ensures forall f :: f in m ==> FirstMatchAt(headers, f, m[f])
  {
    SchemaComplete();
    map f | f in Schema && GetMatchingHeader(headers, f).Some? :: IndexOf(headers, GetMatchingHeader(headers, f).value)
  }

  /** `IndexMap` is the only map holding the matched fields at their first matches. */
  lemma IndexMapUnique(headers: seq<string>, indexes: map<Field, int>)
    requires forall f :: f in indexes <==> GetMatchingHeader(headers, f).Some?
    requires forall f :: f in indexes ==> FirstMatchAt(headers, f, indexes[f])
    ensures indexes == IndexMap(headers)
  {
  }

  /** A header whose first letters, lower-cased, spell `p` starts with `p` once lower-cased. */
  lemma LowerStartsWith(h: string, p: string)
    requires |p| <= |h| && forall i :: 0 <= i < |p| ==> LowerChar(h[i]) == p[i]
    ensures StartsWith(ToLower(h), p)
  {
  }

  /** Headers where column `j` matches `Schema[j]`, for every `j` in `cols`. */
  lemma FieldsByColumn(headers: seq<string>, cols: set<int>)
    requires |headers| == 5 && forall j :: j in cols ==> 0 <= j < 5 && Matches(headers[j], Schema[j])
    ensures forall i, j :: j in cols && 0 <= i < 5 && i != j ==> !Matches(headers[j], Schema[i])
  {
    SchemaComplete();
    forall i, j | j in cols && 0 <= i < 5 && i != j ensures !Matches(headers[j], Schema[i]) {
      if Matches(headers[j], Schema[i]) {
        OneFieldPerHeader(headers[j], Schema[i], Schema[j]);
      }
    }
  }

  /**
   * Five distinct headers where column `j` matches `Schema[j]`: every field
   * takes its own column.
   */
  lemma ColumnsInSchemaOrder(headers: seq<string>)
    requires |headers| == 5 && Matches(headers[0], UserId) && Matches(headers[1], FirstName)
    requires Matches(headers[2], LastName) && Matches(headers[3], Version) && Matches(headers[4], InsuranceCompany)
    requires forall i, j :: 0 <= i < j < 5 ==> headers[i] != headers[j]
    ensures forall i :: 0 <= i < 5 ==>
      GetMatchingHeader(headers, Schema[i]) == Some(headers[i]) && IndexOf(headers, headers[i]) == i
  {
    assert forall j :: 0 <= j < 5 ==> Matches(headers[j], Schema[j]);
    forall i | 0 <= i < 5
      ensures GetMatchingHeader(headers, Schema[i]) == Some(headers[i]) && IndexOf(headers, headers[i]) == i
    {
      forall j | 0 <= j < i ensures !Matches(headers[j], Schema[i]) {
        if Matches(headers[j], Schema[i]) {
          OneFieldPerHeader(headers[j], Schema[i], Schema[j]);
          SchemaComplete();
          assert false;
        }
      }
      assert FirstMatchAt(headers, Schema[i], i);
      MatchingHeaderAt(headers, Schema[i], i);
      FirstOccurrence(headers, i);
    }
  }

  /** An element that differs from everything before it is found at its own position. */
  lemma FirstOccurrence(xs: seq<string>, i: int)
    requires 0 <= i < |xs| && forall j :: 0 <= j < i ==> xs[j] != xs[i]
    ensures IndexOf(xs, xs[i]) == i
  {
    var k := IndexOf(xs, xs[i]);
    assert !(k < i) && !(i < k);
  }

  /** The header row the program's own sample uses maps the five fields to columns 0 to 4. */
  lemma CanonicalHeaderMatches()
    ensures var headers := ["user_id", "first_name", "last_name", "version", "insurance_company"];
      forall i :: 0 <= i < 5 ==>
        GetMatchingHeader(headers, Schema[i]) == Some(headers[i]) && IndexOf(headers, headers[i]) == i
  {
    var headers := ["user_id", "first_name", "last_name", "version", "insurance_company"];
    SampleHeadersMatch("user_id", headers);
    assert headers[0][0] == 'u' && headers[1][0] == 'f' && headers[2][0] == 'l';
    assert headers[3][0] == 'v' && headers[4][0] == 'i';
    ColumnsInSchemaOrder(headers);
  }

  /** The last four sample headers match Version's neighbours in schema order. */
  lemma SampleHeadersMatch(first: string, headers: seq<string>)
    requires headers == [first, "first_name", "last_name", "version", "insurance_company"]
    requires first == "user_id" || first == "id"
    ensures Matches(headers[1], FirstName) && Matches(headers[2], LastName)
    ensures Matches(headers[3], Version) && Matches(headers[4], InsuranceCompany)
    ensures first == "user_id" ==> Matches(headers[0], UserId)
  {
    PrefixValues();
    assert headers[1] == "first_name" && headers[2] == "last_name";
    assert headers[3] == "version" && headers[4] == "insurance_company";
    if headers[0] == "user_id" {
      LowerStartsWith(headers[0], "user");
    }
    LowerStartsWith(headers[1], "firs");
    LowerStartsWith(headers[2], "last");
    LowerStartsWith(headers[3], "vers");
    LowerStartsWith(headers[4], "insu");
  }

  /** A header "id" matches no field, so UserId is left out of the map and the others are kept. */
  lemma IdHeaderLeavesOutUserId()
    ensures GetMatchingHeader(["id", "first_name", "last_name", "version", "insurance_company"], UserId).None?
    ensures forall f :: f != UserId ==>
      GetMatchingHeader(["id", "first_name", "last_name", "version", "insurance_company"], f).Some?
  {
    var headers := ["id", "first_name", "last_name", "version", "insurance_company"];
    SampleHeadersMatch("id", headers);
    PrefixValues();
    assert !Matches(headers[0], UserId);
    FirstColumnUnmatched(headers);
  }

  /**
   * When the first header matches no UserId key and the other four match the
   * other fields in schema order, only UserId goes without a column.
   */
  lemma FirstColumnUnmatched(headers: seq<string>)
    requires |headers| == 5 && !Matches(headers[0], UserId) && Matches(headers[1], FirstName)
    requires Matches(headers[2], LastName) && Matches(headers[3], Version) && Matches(headers[4], InsuranceCompany)
    ensures GetMatchingHeader(headers, UserId).None?
    ensures forall f :: f != UserId ==> GetMatchingHeader(headers, f).Some?
  {
    forall j | 0 <= j < |headers| ensures !Matches(headers[j], UserId) {
      if j > 0 && Matches(headers[j], UserId) {
        var g := if j == 1 then FirstName else if j == 2 then LastName else if j == 3 then Version else InsuranceCompany;
        OneFieldPerHeader(headers[j], UserId, g);
        assert false;
      }
    }
    forall f | f != UserId ensures GetMatchingHeader(headers, f).Some? {
      var j := if f == FirstName then 1 else if f == LastName then 2 else if f == Version then 3 else 4;
      assert Matches(headers[j], f);
    }
  }

  /** `IsRowValidLength`. */
  predicate IsRowValidLength(row: seq<string>, propertyAmount: int) {
    |row| == propertyAmount
  }

  // ---------------------------------------------------------------------------
  // Deduplication

  /** The natural key of an enrollment. */
  function Key(e: Enrollment): (string, string) {
    (e.userId, e.insuranceCompany)
  }

  /** Some record of `es` carries key `k`. */
  predicate HasKey(es: seq<Enrollment>, k: (string, string)) {
    exists m :: 0 <= m < |es| && Key(es[m]) == k
  }

  /** The keys of `es` in the order they first appear (the order GroupBy yields its groups in). */
  function KeysInOrder(es: seq<Enrollment>): (ks: seq<(string, string)>)
    ensures forall i, j :: 0 <= i < j < |ks| ==> ks[i] != ks[j]
    ensures forall k :: k in ks <==> HasKey(es, k)
    ensures forall i :: 0 <= i < |ks| ==> HasKey(es, ks[i])
  {
    if es == [] then []
    else
      var front := es[..|es| - 1];
      var ks := KeysInOrder(front);
      assert forall m :: 0 <= m < |front| ==> front[m] == es[m];
      assert HasKey(es, Key(es[|es| - 1]));
      if Key(es[|es| - 1]) in ks then ks else ks + [Key(es[|es| - 1])]
  }

  /** The first position holding key `k`. */
  function FirstIndex(es: seq<Enrollment>, k: (string, string)): (m: int)
    requires HasKey(es, k)
    ensures 0 <= m < |es| && Key(es[m]) == k
    ensures forall j :: 0 <= j < m ==> Key(es[j]) != k
  {
    if Key(es[0]) == k then 0
    else
      assert HasKey(es[1..], k) by {
        var j :| 0 <= j < |es| && Key(es[j]) == k;
        assert es[1..][j - 1] == es[j];
      }
      var m := FirstIndex(es[1..], k);
      assert forall j :: 1 <= j < |es| ==> es[j] == es[1..][j - 1];
      m + 1
  }

  /**
   * The position of the record a group keeps: `OrderByDescending(Version)` is
   * stable, so its first element is the earliest record with the highest version.
   */
  function BestIndex(es: seq<Enrollment>, k: (string, string)): (m: int)
    requires HasKey(es, k)
    ensures 0 <= m < |es| && Key(es[m]) == k
    ensures forall j :: 0 <= j < |es| && Key(es[j]) == k ==> es[j].version <= es[m].version
    ensures forall j :: 0 <= j < m && Key(es[j]) == k ==> es[j].version < es[m].version
  {
    var n := |es| - 1;
    var front := es[..n];
    assert forall j :: 0 <= j < n ==> front[j] == es[j];
    if Key(es[n]) != k then
      assert HasKey(front, k) by {
        var j :| 0 <= j < |es| && Key(es[j]) == k;
        assert j < n && front[j] == es[j];
      }
      BestIndex(front, k)
    else if !HasKey(front, k) then
      n
    else
      var b := BestIndex(front, k);
      if es[n].version > es[b].version then n else b
  }

  /** `GetEnrollmentOutput`: one record per key, in first-seen key order. */
  function GetEnrollmentOutput(es: seq<Enrollment>): (r: seq<Enrollment>)
    ensures |r| == |KeysInOrder(es)|
    ensures forall i :: 0 <= i < |r| ==> Key(r[i]) == KeysInOrder(es)[i]
  {
    var ks := KeysInOrder(es);
    seq(|ks|, i requires 0 <= i < |ks| => es[BestIndex(es, ks[i])])
  }

  /** No two records of the output share a key, and the output has exactly the keys of the input. */
  lemma OutputKeysUnique(es: seq<Enrollment>)
    ensures var r := GetEnrollmentOutput(es);
      && (forall i, j :: 0 <= i < j < |r| ==> Key(r[i]) != Key(r[j]))
      && (forall k :: HasKey(r, k) <==> HasKey(es, k))
  {
    var r := GetEnrollmentOutput(es);
    var ks := KeysInOrder(es);
    forall k ensures HasKey(r, k) <==> HasKey(es, k) {
      if HasKey(es, k) {
        assert k in ks;
        var i :| 0 <= i < |ks| && ks[i] == k;
        assert Key(r[i]) == k;
      }
      if HasKey(r, k) {
        var i :| 0 <= i < |r| && Key(r[i]) == k;
        assert ks[i] in ks;
      }
    }
  }

  /**
   * Each record of the output is a record of the input carrying the highest
   * version of its key, and no earlier record of that key has that version.
   */
  lemma OutputKeepsHighestVersion(es: seq<Enrollment>, i: int)
    requires 0 <= i < |GetEnrollmentOutput(es)|
    ensures var o := GetEnrollmentOutput(es)[i];
      exists m :: 0 <= m < |es| && es[m] == o
        && (forall j :: 0 <= j < |es| && Key(es[j]) == Key(o) ==> es[j].version <= o.version)
        && (forall j :: 0 <= j < m && Key(es[j]) == Key(o) ==> es[j].version < o.version)
  {
    var ks := KeysInOrder(es);
    var m := BestIndex(es, ks[i]);
    assert GetEnrollmentOutput(es)[i] == es[m];
  }

  /** The output follows the order in which the keys first appear in the input. */
  lemma OutputInFirstSeenOrder(es: seq<Enrollment>, i: int, j: int)
    requires 0 <= i < j < |GetEnrollmentOutput(es)|
    ensures var r := GetEnrollmentOutput(es);
      FirstIndex(es, Key(r[i])) < FirstIndex(es, Key(r[j]))
  {
    KeysFirstSeen(es, i, j);
  }

  lemma {:induction false} KeysFirstSeen(es: seq<Enrollment>, i: int, j: int)
    requires 0 <= i < j < |KeysInOrder(es)|
    ensures FirstIndex(es, KeysInOrder(es)[i]) < FirstIndex(es, KeysInOrder(es)[j])
  {
    var n := |es| - 1;
    var front := es[..n];
    var ks := KeysInOrder(front);
    assert forall m :: 0 <= m < n ==> front[m] == es[m];
    var ki := KeysInOrder(es)[i];
    var kj := KeysInOrder(es)[j];
    assert ki == ks[i] && ki in ks;
    FirstIndexPrefix(es, ki);
    if j < |ks| {
      KeysFirstSeen(front, i, j);
      assert kj == ks[j] && kj in ks;
      FirstIndexPrefix(es, kj);
    } else {
      // kj is the key of the last record and appears nowhere before it
      assert kj == Key(es[n]) && kj !in ks;
      assert !HasKey(front, kj);
      assert FirstIndex(es, kj) == n;
    }
  }

  /** A key present before the last record has the same first position without it. */
  lemma FirstIndexPrefix(es: seq<Enrollment>, k: (string, string))
    requires |es| > 0 && HasKey(es[..|es| - 1], k)
    ensures HasKey(es, k)
    ensures FirstIndex(es, k) == FirstIndex(es[..|es| - 1], k)
  {
    var front := es[..|es| - 1];
    assert forall m :: 0 <= m < |front| ==> front[m] == es[m];
    var j :| 0 <= j < |front| && Key(front[j]) == k;
    assert Key(es[j]) == k;
    var a := FirstIndex(es, k);
    var b := FirstIndex(front, k);
    assert !(a < b) && !(b < a);
  }

  /** A list whose keys are already distinct is its own deduplication. */
  lemma {:induction false} OutputOfDistinct(es: seq<Enrollment>)
    requires forall i, j :: 0 <= i < j < |es| ==> Key(es[i]) != Key(es[j])
    ensures GetEnrollmentOutput(es) == es
  {
    KeysOfDistinct(es);
    var r := GetEnrollmentOutput(es);
    assert |r| == |es|;
    forall i | 0 <= i < |es| ensures r[i] == es[i] {
      BestIndexOfDistinct(es, i);
    }
  }

  /** With distinct keys, the record a key keeps is the only one carrying it. */
  lemma BestIndexOfDistinct(es: seq<Enrollment>, i: int)
    requires forall i, j :: 0 <= i < j < |es| ==> Key(es[i]) != Key(es[j])
    requires 0 <= i < |es|
    ensures HasKey(es, Key(es[i])) && BestIndex(es, Key(es[i])) == i
  {
    assert HasKey(es, Key(es[i]));
    var m := BestIndex(es, Key(es[i]));
    assert !(m < i) && !(i < m);
  }

  lemma {:induction false} KeysOfDistinct(es: seq<Enrollment>)
    requires forall i, j :: 0 <= i < j < |es| ==> Key(es[i]) != Key(es[j])
    ensures |KeysInOrder(es)| == |es|
    ensures forall i :: 0 <= i < |es| ==> KeysInOrder(es)[i] == Key(es[i])
  {
    if es != [] {
      var front := es[..|es| - 1];
      assert forall m :: 0 <= m < |front| ==> front[m] == es[m];
      KeysOfDistinct(front);
      assert Key(es[|es| - 1]) !in KeysInOrder(front);
    }
  }

  /** Deduplicating twice gives what deduplicating once gives. */
  lemma OutputIdempotent(es: seq<Enrollment>)
    ensures GetEnrollmentOutput(GetEnrollmentOutput(es)) == GetEnrollmentOutput(es)
  {
    OutputKeysUnique(es);
    OutputOfDistinct(GetEnrollmentOutput(es));
  }

  /**
   * Two versions of one enrollment and an unrelated record: the later, higher
   * version replaces the first in its place, and the unrelated record follows.
   */
  lemma OutputKeepsNewerVersion(e1: Enrollment, e2: Enrollment, e3: Enrollment)
    requires Key(e1) == Key(e2) && e2.version == e1.version + 1 && Key(e3) != Key(e1)
    ensures GetEnrollmentOutput([e1, e2, e3]) == [e2, e3]
  {
    var es := [e1, e2, e3];
    assert KeysInOrder(es[..1]) == [Key(e1)];
    assert es[..2][..1] == es[..1];
    assert KeysInOrder(es[..2]) == [Key(e1)];
    assert es[..3] == es;
    assert KeysInOrder(es) == [Key(e1), Key(e3)];
    var b := BestIndex(es, Key(e1));
    assert b == 1;
    var c := BestIndex(es, Key(e3));
    assert c == 2;
  }

  // ---------------------------------------------------------------------------
  // Ordering

  /** Ordinal (code point by code point) string order. */
  predicate StrLe(a: string, b: string) {
    a == [] || (b != [] && (a[0] < b[0] || (a[0] == b[0] && StrLe(a[1..], b[1..]))))
  }

  lemma {:induction false} StrLeTotal(a: string, b: string)
    ensures StrLe(a, b) || StrLe(b, a)
  {
    if a != [] && b != [] && a[0] == b[0] {
      StrLeTotal(a[1..], b[1..]);
    }
  }

  lemma {:induction false} StrLeAntisymmetric(a: string, b: string)
    requires StrLe(a, b) && StrLe(b, a)
    ensures a == b
  {
    if a != [] && b != [] {
      StrLeAntisymmetric(a[1..], b[1..]);
      assert a == [a[0]] + a[1..] && b == [b[0]] + b[1..];
    }
  }

  lemma {:induction false} StrLeTransitive(a: string, b: string, c: string)
    requires StrLe(a, b) && StrLe(b, c)
    ensures StrLe(a, c)
  {
    if a != [] && b != [] && c != [] && a[0] == b[0] && b[0] == c[0] {
      StrLeTransitive(a[1..], b[1..], c[1..]);
    }
  }

  /** `OrderBy(LastName).ThenBy(FirstName)`: last names first, first names on a tie. */
  predicate NameLe(x: Enrollment, y: Enrollment) {
    if x.lastName == y.lastName then StrLe(x.firstName, y.firstName) else StrLe(x.lastName, y.lastName)
  }

  function NameKey(e: Enrollment): (string, string) {
    (e.lastName, e.firstName)
  }

  lemma NameLeTotal(x: Enrollment, y: Enrollment)
    ensures NameLe(x, y) || NameLe(y, x)
  {
    StrLeTotal(x.lastName, y.lastName);
    StrLeTotal(x.firstName, y.firstName);
  }

  lemma NameLeAntisymmetric(x: Enrollment, y: Enrollment)
    requires NameLe(x, y) && NameLe(y, x)
    ensures NameKey(x) == NameKey(y)
  {
    if x.lastName == y.lastName {
      StrLeAntisymmetric(x.firstName, y.firstName);
    } else {
      StrLeAntisymmetric(x.lastName, y.lastName);
    }
  }

  lemma NameLeTransitive(x: Enrollment, y: Enrollment, z: Enrollment)
    requires NameLe(x, y) && NameLe(y, z)
    ensures NameLe(x, z)
  {
    if x.lastName == y.lastName && y.lastName == z.lastName {
      StrLeTransitive(x.firstName, y.firstName, z.firstName);
    } else if x.lastName == y.lastName {
      assert StrLe(y.lastName, z.lastName);
    } else if y.lastName == z.lastName {
      assert StrLe(x.lastName, y.lastName);
    } else {
      StrLeTransitive(x.lastName, y.lastName, z.lastName);
      if x.lastName == z.lastName {
        StrLeAntisymmetric(x.lastName, y.lastName);
      }
    }
  }

  predicate SortedByName(s: seq<Enrollment>) {
    forall i, j :: 0 <= i < j < |s| ==> NameLe(s[i], s[j])
  }

  /** The records of `s` with the given (LastName, FirstName), in their order in `s`. */
  function WithName(s: seq<Enrollment>, n: (string, string)): seq<Enrollment> {
    if s == [] then [] else (if NameKey(s[0]) == n then [s[0]] else []) + WithName(s[1..], n)
  }

  /** `x` placed before the first record of `s` that does not sort below it. */
  function Insert(x: Enrollment, s: seq<Enrollment>): seq<Enrollment> {
    if s == [] then [x]
    else if NameLe(x, s[0]) then [x] + s
    else [s[0]] + Insert(x, s[1..])
  }

  /** A stable sort by (LastName, FirstName): each record is inserted ahead of its equals. */
  function SortByName(s: seq<Enrollment>): seq<Enrollment> {
    if s == [] then [] else Insert(s[0], SortByName(s[1..]))
  }

  /** Inserting adds exactly the one record. */
  lemma {:induction false} InsertPermutes(x: Enrollment, s: seq<Enrollment>)
    ensures multiset(Insert(x, s)) == multiset(s) + multiset{x}
  {
    if s != [] {
      HeadMultiset(s);
      if NameLe(x, s[0]) {
        HeadMultiset([x] + s);
      } else {
        InsertPermutes(x, s[1..]);
        HeadMultiset([s[0]] + Insert(x, s[1..]));
      }
    }
  }

  lemma HeadMultiset(s: seq<Enrollment>)
    requires s != []
    ensures multiset(s) == multiset(s[1..]) + multiset{s[0]}
  {
    assert s == [s[0]] + s[1..];
  }

  /** No record of `s` sorts below `y`. */
  predicate LowerBound(y: Enrollment, s: seq<Enrollment>) {
    forall j :: 0 <= j < |s| ==> NameLe(y, s[j])
  }

  /** A sorted list stays sorted under a record that bounds it from below. */
  lemma ConsSorted(x: Enrollment, s: seq<Enrollment>)
    requires SortedByName(s) && LowerBound(x, s)
    ensures SortedByName([x] + s)
  {
    var r := [x] + s;
    forall i, j | 0 <= i < j < |r| ensures NameLe(r[i], r[j]) {
      assert r[j] == s[j - 1];
      if i > 0 {
        assert r[i] == s[i - 1];
      }
    }
  }

  /** The tail of a sorted list is sorted and bounded below by the head. */
  lemma SortedTail(s: seq<Enrollment>)
    requires SortedByName(s) && s != []
    ensures SortedByName(s[1..]) && LowerBound(s[0], s[1..])
  {
    var t := s[1..];
    forall i, j | 0 <= i < j < |t| ensures NameLe(t[i], t[j]) {
      assert t[i] == s[i + 1] && t[j] == s[j + 1];
    }
    forall j | 0 <= j < |t| ensures NameLe(s[0], t[j]) {
      assert t[j] == s[j + 1];
    }
  }

  /** Inserting a record above a lower bound keeps the bound. */
  lemma {:induction false} InsertLowerBound(y: Enrollment, x: Enrollment, s: seq<Enrollment>)
    requires NameLe(y, x) && LowerBound(y, s)
    ensures LowerBound(y, Insert(x, s))
  {
    if s != [] && !NameLe(x, s[0]) {
      assert LowerBound(y, s[1..]) by {
        forall j | 0 <= j < |s[1..]| ensures NameLe(y, s[1..][j]) {
          assert s[1..][j] == s[j + 1];
        }
      }
      InsertLowerBound(y, x, s[1..]);
      var r := [s[0]] + Insert(x, s[1..]);
      forall j | 0 <= j < |r| ensures NameLe(y, r[j]) {
        if j > 0 {
          assert r[j] == Insert(x, s[1..])[j - 1];
        }
      }
    } else if s != [] {
      var r := [x] + s;
      forall j | 0 <= j < |r| ensures NameLe(y, r[j]) {
        if j > 0 {
          assert r[j] == s[j - 1];
        }
      }
    }
  }

  lemma {:induction false} InsertSorted(x: Enrollment, s: seq<Enrollment>)
    requires SortedByName(s)
    ensures SortedByName(Insert(x, s))
  {
    if s == [] {
      assert Insert(x, s) == [x];
    } else if NameLe(x, s[0]) {
      forall j | 0 <= j < |s| ensures NameLe(x, s[j]) {
        if j > 0 {
          NameLeTransitive(x, s[0], s[j]);
        }
      }
      ConsSorted(x, s);
    } else {
      SortedTail(s);
      InsertSorted(x, s[1..]);
      NameLeTotal(x, s[0]);
      InsertLowerBound(s[0], x, s[1..]);
      ConsSorted(s[0], Insert(x, s[1..]));
    }
  }

  lemma {:induction false} InsertWithName(x: Enrollment, s: seq<Enrollment>, n: (string, string))
    requires SortedByName(s)
    ensures WithName(Insert(x, s), n) == (if NameKey(x) == n then [x] else []) + WithName(s, n)
  {
    if s != [] && !NameLe(x, s[0]) {
      InsertWithName(x, s[1..], n);
      NameLeTotal(x, s[0]);
      // s[0] sorts strictly below x, so the two do not share a name
      assert NameKey(s[0]) != NameKey(x);
      var t := Insert(x, s[1..]);
      assert ([s[0]] + t)[1..] == t;
    } else if s != [] {
      assert ([x] + s)[1..] == s;
    } else {
      assert [x][1..] == [];
    }
  }

  /**
   * The sort orders by name, rearranges without adding or losing records, and
   * keeps records with equal names in their input order.
   */
  lemma {:induction false} SortByNameCorrect(s: seq<Enrollment>)
    ensures SortedByName(SortByName(s))
    ensures multiset(SortByName(s)) == multiset(s)
    ensures forall n :: WithName(SortByName(s), n) == WithName(s, n)
  {
    if s != [] {
      SortByNameCorrect(s[1..]);
      InsertSorted(s[0], SortByName(s[1..]));
      InsertPermutes(s[0], SortByName(s[1..]));
      forall n ensures WithName(SortByName(s), n) == WithName(s, n) {
        InsertWithName(s[0], SortByName(s[1..]), n);
      }
      assert s == [s[0]] + s[1..];
    }
  }

  /** `Where(e => e.InsuranceCompany == companyName)`. */
  function OfCompany(es: seq<Enrollment>, companyName: string): (r: seq<Enrollment>)
    ensures forall x :: x in r <==> x in es && x.insuranceCompany == companyName
  {
    if es == [] then []
    else (if es[0].insuranceCompany == companyName then [es[0]] else []) + OfCompany(es[1..], companyName)
  }

  /** `SortEnrollmentsForCompany`. */
  function SortEnrollmentsForCompany(es: seq<Enrollment>, companyName: string): seq<Enrollment> {
    SortByName(OfCompany(es, companyName))
  }

  /**
   * The company's records and nothing else, each as often as in the input,
   * sorted by last then first name, with equal names in input order.
   */
  lemma SortEnrollmentsForCompanyCorrect(es: seq<Enrollment>, companyName: string)
    ensures var r := SortEnrollmentsForCompany(es, companyName);
      && multiset(r) == multiset(OfCompany(es, companyName))
      && (forall x :: x in r ==> x.insuranceCompany == companyName)
      && SortedByName(r)
      && (forall n :: WithName(r, n) == WithName(OfCompany(es, companyName), n))
  {
    var s := OfCompany(es, companyName);
    SortByNameCorrect(s);
    var r := SortByName(s);
    forall x | x in r ensures x.insuranceCompany == companyName {
      assert x in multiset(r);
    }
  }

  /** The records of names "a a", "b a" and "b b", given in reverse, come out as "a a", "b a", "b b". */
  lemma SortExample(e1: Enrollment, e2: Enrollment, e3: Enrollment, companyName: string)
    requires e1.lastName == "a" && e1.firstName == "a" && e1.insuranceCompany == companyName
    requires e2.lastName == "b" && e2.firstName == "a" && e2.insuranceCompany == companyName
    requires e3.lastName == "b" && e3.firstName == "b" && e3.insuranceCompany == companyName
    ensures SortEnrollmentsForCompany([e3, e2, e1], companyName) == [e1, e2, e3]
  {
    var es := [e3, e2, e1];
    assert es[1..] == [e2, e1] && es[1..][1..] == [e1] && [e1][1..] == [];
    assert OfCompany([e1], companyName) == [e1];
    assert OfCompany([e2, e1], companyName) == [e2, e1];
    assert OfCompany(es, companyName) == es;
    assert StrLe("a", "b") && !StrLe("b", "a");
    assert SortByName([e1]) == [e1];
    assert SortByName([e2, e1]) == Insert(e2, [e1]) == [e1, e2];
    assert Insert(e3, [e1, e2]) == [e1] + Insert(e3, [e2]);
    assert Insert(e3, [e2]) == [e2, e3];
  }
}
