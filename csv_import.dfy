/**
 * The checks the CSV importers make before anything is imported: the file's header row
 * must name exactly the expected columns, and every field of every row must have the
 * type of the matching field of the importer's sample object, a numeric field also
 * accepting text that `parseInt` reads as an integer.
 */
module CsvImport {
  import opened Wrappers
  import opened Sequences
  import opened Strings

  /** What `typeof` reports. */
  datatype JsType = TString | TNumber | TBoolean | TUndefined | TObject | TFunction | TBigInt | TSymbol

  /** A parsed CSV row: its columns in order, each with its text. */
  type Row = seq<(string, string)>

  /** The importer's sample object: the type of each of its fields. */
  type Mock = map<string, JsType>

  /** The set of elements of a sequence. */
  function Elems<T>(s: seq<T>): set<T>
  {
    set x | x in s
  }

  /** `Array.from(new Set(value))`: the first occurrence of each header, in order. */
  function Unique(value: seq<string>): (r: seq<string>)
    ensures NoDups(r)
    ensures forall x :: x in r <==> x in value
    ensures |r| <= |value|
  {
    if value == [] then []
    else
      var n := |value| - 1;
      var d := Unique(value[..n]);
      if value[n] in d then d else d + [value[n]]
  }

  /** `validateKeys`: as many distinct headers as expected keys, and every expected key among them. */
  predicate ValidateKeys(expected: seq<string>, value: seq<string>)
  {
    var uniqueHeaders := Unique(value);
    |uniqueHeaders| == |expected| && forall eh :: eh in expected ==> FindIndex(uniqueHeaders, eh) > -1
  }

  lemma {:induction false} NoDupsCard<T>(s: seq<T>)
    requires NoDups(s)
    ensures |Elems(s)| == |s|
  {
    if s != [] {
      var n := |s| - 1;
      NoDupsCard(s[..n]);
      assert Elems(s) == Elems(s[..n]) + {s[n]};
      assert s[n] !in Elems(s[..n]);
    }
  }

  lemma SubsetSameSize<T>(a: set<T>, b: set<T>)
    requires a <= b && |a| == |b|
    ensures a == b
  {
    assert a * b == a && a + b == b;
    assert |b - a| == 0;
    assert b == a + (b - a);
  }

  /**
   * With distinct expected keys (as the keys of an object are), the header check holds
   * exactly when the headers, repeats collapsed, are the expected keys.
   */
  lemma ValidateKeysSameSet(expected: seq<string>, value: seq<string>)
    requires NoDups(expected)
    ensures ValidateKeys(expected, value) <==> Elems(value) == Elems(expected)
  {
    var u := Unique(value);
    NoDupsCard(u);
    NoDupsCard(expected);
    assert Elems(u) == Elems(value);
    if ValidateKeys(expected, value) {
      assert Elems(expected) <= Elems(u);
      SubsetSameSize(Elems(expected), Elems(u));
    }
    if Elems(value) == Elems(expected) {
      forall eh | eh in expected
        ensures FindIndex(u, eh) > -1
      {
        assert eh in Elems(expected);
        assert eh in u;
      }
    }
  }

  /** Repeated headers do not matter: a header row and its duplicate-free form are judged alike. */
  lemma ValidateKeysIgnoresRepeats(expected: seq<string>, value: seq<string>)
    ensures ValidateKeys(expected, value) <==> ValidateKeys(expected, Unique(value))
  {
    UniqueOfUnique(value);
  }

  lemma {:induction false} UniqueOfUnique(value: seq<string>)
    ensures Unique(Unique(value)) == Unique(value)
  {
    UniqueOfNoDups(Unique(value));
  }

  lemma {:induction false} UniqueOfNoDups(s: seq<string>)
    requires NoDups(s)
    ensures Unique(s) == s
  {
    if s != [] {
      var n := |s| - 1;
      UniqueOfNoDups(s[..n]);
      assert s[..n] + [s[n]] == s;
    }
  }

  // ---------------------------------------------------------------- parseInt

  predicate IsDecimalDigit(c: char)
  {
    '0' <= c <= '9'
  }

  predicate IsHexDigit(c: char)
  {
    IsDecimalDigit(c) || 'a' <= c <= 'f' || 'A' <= c <= 'F'
  }

  /**
   * `Number.isInteger(parseInt(s))`: after leading white space and one optional sign,
   * a "0x" or "0X" prefix must be followed by a hexadecimal digit, and anything else
   * must start with a decimal digit; what follows the digits is ignored.
   */
  predicate ParsesAsInteger(s: string)
  {
    var t := TrimStart(s);
    var u := if t != [] && (t[0] == '+' || t[0] == '-') then t[1..] else t;
    if |u| >= 2 && u[0] == '0' && (u[1] == 'x' || u[1] == 'X') then |u| >= 3 && IsHexDigit(u[2])
    else u != [] && IsDecimalDigit(u[0])
  }

  /** Text without a decimal digit is never read as an integer. */
  lemma NoDigitNoInteger(s: string)
    requires forall i :: 0 <= i < |s| ==> !IsDecimalDigit(s[i])
    ensures !ParsesAsInteger(s)
  {
    var t := TrimStart(s);
    var k := |s| - |t|;
    if t != [] {
      assert t[0] == s[k];
    }
    if |t| >= 2 {
      assert t[1] == s[k + 1];
    }
  }

  /** Any text made of one decimal digit after white space is read as an integer. */
  lemma DigitAfterSpacesParses(spaces: string, d: char, rest: string)
    requires forall i :: 0 <= i < |spaces| ==> IsJsSpace(spaces[i])
    requires IsDecimalDigit(d) && d != '0'
    ensures ParsesAsInteger(spaces + [d] + rest)
  {
    TrimSpaces(spaces, [d] + rest);
    assert spaces + [d] + rest == spaces + ([d] + rest);
  }

  lemma {:induction false} TrimSpaces(spaces: string, s: string)
    requires forall i :: 0 <= i < |spaces| ==> IsJsSpace(spaces[i])
    requires s != [] && !IsJsSpace(s[0])
    ensures TrimStart(spaces + s) == s
  {
    if spaces != [] {
      assert (spaces + s)[1..] == spaces[1..] + s;
      TrimSpaces(spaces[1..], s);
    }
  }

  // ---------------------------------------------------------------- validateTypes

  /** The type of the sample's field; a field the sample lacks reads as `undefined`. */
  function MockType(mock: Mock, key: string): JsType
  {
    if key in mock then mock[key] else TUndefined
  }

  /**
   * One field of a row passes when the sample's field is a string too, or when the
   * sample's field is a number and the text reads as an integer.
   */
  predicate FieldAccepted(field: (string, string), mock: Mock)
  {
    MockType(mock, field.0) == TString
    || (MockType(mock, field.0) == TNumber && ParsesAsInteger(field.1))
  }

  predicate RowValid(row: Row, mock: Mock)
  {
    forall i :: 0 <= i < |row| ==> FieldAccepted(row[i], mock)
  }

  /**
   * `validateTypes`: the fields are visited in order and the first one whose type
   * differs from the sample's, without the numeric exception, rejects the row.
   * Every field of a parsed CSV row is a string.
   */
  method ValidateTypes(row: Row, mock: Mock) returns (ok: bool)
    ensures ok <==> RowValid(row, mock)
    ensures !ok ==> exists i :: 0 <= i < |row| && !FieldAccepted(row[i], mock)
  {
    var i := 0;
    while i < |row|
      invariant 0 <= i <= |row|
      invariant forall j :: 0 <= j < i ==> FieldAccepted(row[j], mock)
    {
      var (key, element) := row[i];
      if MockType(mock, key) != TString {
        if MockType(mock, key) == TNumber && ParsesAsInteger(element) {
          i := i + 1;
          continue;
        }
        return false;
      }
      i := i + 1;
    }
    return true;
  }

  /** A sample whose fields are all strings accepts any row over its keys. */
  lemma StringMockAcceptsAll(row: Row, mock: Mock)
    requires forall i :: 0 <= i < |row| ==> row[i].0 in mock && mock[row[i].0] == TString
    ensures RowValid(row, mock)
  {
  }

  /** A row with a field the sample does not have is rejected. */
  lemma UnknownFieldRejected(row: Row, mock: Mock, i: nat)
    requires i < |row| && row[i].0 !in mock
    ensures !RowValid(row, mock)
  {
    assert !FieldAccepted(row[i], mock);
  }

  // ---------------------------------------------------------------- reading a file

  const ImportError: string := "The was an error importing file"

  /** `import` up to the mapping: every row must pass `validateTypes`, or the file is rejected. */
  function ImportRows(rows: seq<Row>, mock: Mock): (r: Result<seq<Row>, string>)
    ensures r.Ok? <==> forall k :: 0 <= k < |rows| ==> RowValid(rows[k], mock)
    ensures r.Ok? ==> r.value == rows
    ensures r.Err? ==> r.error == ImportError
  {
    if forall k :: 0 <= k < |rows| ==> RowValid(rows[k], mock) then Ok(rows) else Err(ImportError)
  }

  datatype ImportMetadata = ImportMetadata(filePath: string, size: nat)

  /**
   * `getMetadata`: nothing when the dialog is cancelled; a rejection when the header
   * row fails `validateKeys`; otherwise the chosen file and its number of rows.
   * `headers` is `None` when the parser emits no `'headers'` event (a file without a
   * first line); the key check then never runs and the file resolves.
   */
  function GetMetadata(canceled: bool, filePath: string, expected: seq<string>, headers: Option<seq<string>>,
                       rows: seq<Row>): (r: Option<Result<ImportMetadata, string>>)
    ensures canceled <==> r.None?
    ensures r.Some? && headers.Some? ==> (r.value.Ok? <==> ValidateKeys(expected, headers.value))
    ensures r.Some? && headers.None? ==> r.value.Ok?
    ensures r.Some? && r.value.Ok? ==> r.value.value == ImportMetadata(filePath, |rows|)
    ensures r.Some? && r.value.Err? ==> r.value.error == ImportError
  {
    if canceled then None
    else if headers.Some? && !ValidateKeys(expected, headers.value) then Some(Err(ImportError))
    else Some(Ok(ImportMetadata(filePath, |rows|)))
  }
}
