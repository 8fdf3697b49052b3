/**
  * CSV export of feedback records (`generateCsv` in backend/src/lib/csv.ts):
  * fixed columns first, then every other key found in any record in sorted
  * order, one header row and one row per record joined by CRLF, fields
  * escaped as section 2 of RFC 4180 asks, and a UTF-8 byte order mark in
  * front of any non-empty document.
  */
module Csv {
  import opened Strings
  import opened Types
  import opened CsvReader

  /** Byte order mark so that spreadsheet programs read the file as UTF-8. */
  const Bom: char := '\U{FEFF}'

  /** Always the first three columns, in this order. */
  const FixedColumns: seq<string> := [ResponseIdKey, AppIdKey, SubmittedAtKey]

  /** Storage keys that never become columns. */
  const ExcludedKeys: seq<string> := [PK, SK]

  const Crlf: string := "\r\n"

  predicate IsDynamicKey(k: string) { k !in FixedColumns && k !in ExcludedKeys }

  /** The keys of one record that make dynamic columns. */
  function DynamicKeysOf(r: FeedbackResponse): set<string>
  {
    set k | k in r && IsDynamicKey(k)
  }

  /** The union of the dynamic keys of all records, folded from the first record on. */
  function DynamicKeys(responses: seq<FeedbackResponse>): (keys: set<string>)
    ensures forall k :: k in keys <==> IsDynamicKey(k) && exists i :: 0 <= i < |responses| && k in responses[i]
  {
    if responses == [] then {}
    else
      var init := responses[..|responses| - 1];
      var keys := DynamicKeys(init) + DynamicKeysOf(responses[|responses| - 1]);
      assert forall i :: 0 <= i < |init| ==> init[i] == responses[i];
      keys
  }

  /**
    * The nested loop of the source: every key of every record that is
    * neither fixed nor excluded is added to a set.
    */
  method CollectDynamicColumns(responses: seq<FeedbackResponse>) returns (columns: set<string>)
    ensures columns == DynamicKeys(responses)
  {
    columns := {};
    var i := 0;
    while i < |responses|
      invariant 0 <= i <= |responses|
      invariant columns == DynamicKeys(responses[..i])
    {
      var response := responses[i];
      var keys := response.Keys;
      while keys != {}
        invariant keys <= response.Keys
        invariant columns == DynamicKeys(responses[..i]) + (DynamicKeysOf(response) - keys)
        decreases keys
      {
        var key :| key in keys;
        if IsDynamicKey(key) {
          columns := columns + {key};
        }
        keys := keys - {key};
      }
      assert responses[..i + 1][..i] == responses[..i];
      i := i + 1;
    }
    assert responses[..i] == responses;
  }

  /** The smallest string of a non-empty set. */
  function MinString(s: set<string>): (m: string)
    requires s != {}
    ensures m in s && forall x :: x in s ==> LexLessEq(m, x)
  {
    MinExists(s);
    LexLessEqAntisymmetric();
    var m :| m in s && forall x :: x in s ==> LexLessEq(m, x);
    m
  }

  lemma LexLessEqAntisymmetric()
    ensures forall a, b :: LexLessEq(a, b) && LexLessEq(b, a) ==> a == b
  {
    forall a, b | LexLessEq(a, b) && LexLessEq(b, a) ensures a == b {
      if a != b { LexLessAsymmetric(a, b); }
    }
  }

  lemma MinExists(s: set<string>)
    requires s != {}
    ensures exists m :: m in s && forall x :: x in s ==> LexLessEq(m, x)
    decreases |s|
  {
    var y :| y in s;
    if s == {y} {
      assert forall x :: x in s ==> x == y;
    } else {
      MinExists(s - {y});
      var m :| m in s - {y} && forall x :: x in s - {y} ==> LexLessEq(m, x);
      LexLessTotal(m, y);
      if LexLess(y, m) {
        forall x | x in s ensures LexLessEq(y, x) {
          if x != y && x != m {
            assert x in s - {y};
            LexLessTransitive(y, m, x);
          }
        }
      } else {
        forall x | x in s ensures LexLessEq(m, x) {
          if x != y { assert x in s - {y}; }
        }
      }
    }
  }

  /** Strictly increasing in string order (so without repetitions). */
  predicate StrictlySorted(s: seq<string>)
  {
    forall i, j :: 0 <= i < j < |s| ==> LexLess(s[i], s[j])
  }

  /** `[...set].sort()`: the elements of the set in increasing string order. */
  function SortStrings(s: set<string>): (r: seq<string>)
    ensures |r| == |s|
    ensures forall x :: x in r <==> x in s
    ensures StrictlySorted(r)
    decreases |s|
  {
    if s == {} then []
    else
      var m := MinString(s);
      var rest := SortStrings(s - {m});
      assert forall x :: x in rest ==> LexLess(m, x);
      [m] + rest
  }

  /** There is only one strictly sorted listing of a set: sorting has no choice to make. */
  lemma {:induction false} StrictlySortedUnique(a: seq<string>, b: seq<string>)
    requires StrictlySorted(a) && StrictlySorted(b)
    requires forall x :: x in a <==> x in b
    ensures a == b
    decreases |a|
  {
    if a != [] { assert a[0] in b; }
    if b != [] { assert b[0] in a; }
    if a != [] && b != [] {
      if a[0] != b[0] {
        assert b[0] in a && a[0] in b;
        var i :| 0 <= i < |a| && a[i] == b[0];
        var j :| 0 <= j < |b| && b[j] == a[0];
        assert LexLess(a[0], b[0]) && LexLess(b[0], a[0]);
        LexLessAsymmetric(a[0], b[0]);
      }
      forall x ensures x in a[1..] <==> x in b[1..] {
        if x in a[1..] {
          var k :| 1 <= k < |a| && a[k] == x;
          assert LexLess(a[0], a[k]);
          LexLessIrreflexive(a[0]);
          assert x in a && x in b;
          var k' :| 0 <= k' < |b| && b[k'] == x;
          assert k' != 0;
          assert b[1..][k' - 1] == x;
        }
        if x in b[1..] {
          var k :| 1 <= k < |b| && b[k] == x;
          assert LexLess(b[0], b[k]);
          LexLessIrreflexive(b[0]);
          assert x in b && x in a;
          var k' :| 0 <= k' < |a| && a[k'] == x;
          assert k' != 0;
          assert a[1..][k' - 1] == x;
        }
      }
      StrictlySortedUnique(a[1..], b[1..]);
    }
  }

  /** The header: fixed columns, then the sorted dynamic keys. */
  function Columns(responses: seq<FeedbackResponse>): seq<string>
  {
    FixedColumns + SortStrings(DynamicKeys(responses))
  }

  /**
    * The header starts with the three fixed columns; after them it lists
    * exactly the keys found in some record, in increasing order.
    */
  lemma ColumnsLayout(responses: seq<FeedbackResponse>)
    ensures |Columns(responses)| >= 3 && Columns(responses)[..3] == FixedColumns
    ensures StrictlySorted(Columns(responses)[3..])
    ensures forall k :: k in Columns(responses)[3..] <==>
      IsDynamicKey(k) && exists i :: 0 <= i < |responses| && k in responses[i]
  {
    var columns := Columns(responses);
    assert columns[..3] == FixedColumns && columns[3..] == SortStrings(DynamicKeys(responses));
  }

  predicate Distinct(s: seq<string>)
  {
    forall i, j :: 0 <= i < j < |s| ==> s[i] != s[j]
  }

  lemma SortedDistinct(s: seq<string>)
    requires StrictlySorted(s)
    ensures Distinct(s)
  {
    forall i, j | 0 <= i < j < |s| ensures s[i] != s[j] {
      LexLessIrreflexive(s[i]);
    }
  }

  lemma DistinctAppend(a: seq<string>, b: seq<string>)
    requires Distinct(a) && Distinct(b)
    requires forall x :: x in b ==> x !in a
    ensures Distinct(a + b)
  {
    var c := a + b;
    forall i, j | 0 <= i < j < |c| ensures c[i] != c[j] {
      if j >= |a| && i < |a| {
        assert c[j] == b[j - |a|] && c[i] == a[i];
        assert b[j - |a|] in b && a[i] in a;
      } else if i >= |a| {
        assert c[j] == b[j - |a|] && c[i] == b[i - |a|];
      } else {
        assert c[j] == a[j] && c[i] == a[i];
      }
    }
  }

  /** The header repeats no name and never holds a storage key. */
  lemma ColumnsDistinct(responses: seq<FeedbackResponse>)
    ensures Distinct(Columns(responses))
    ensures PK !in Columns(responses) && SK !in Columns(responses)
  {
    var sorted := SortStrings(DynamicKeys(responses));
    FixedColumnsShape();
    assert forall k :: k in sorted ==> k !in FixedColumns && k !in ExcludedKeys;
    SortedDistinct(sorted);
    DistinctAppend(FixedColumns, sorted);
    assert Columns(responses) == FixedColumns + sorted;
    assert PK !in sorted && SK !in sorted;
  }

  /** The fixed column names differ from each other and from the storage keys. */
  lemma FixedColumnsShape()
    ensures Distinct(FixedColumns)
    ensures PK !in FixedColumns && SK !in FixedColumns
    ensures PK in ExcludedKeys && SK in ExcludedKeys
  {
    assert |ResponseIdKey| == 10 && |AppIdKey| == 5 && |SubmittedAtKey| == 11 && |PK| == 2 && |SK| == 2;
  }

  /** papaparse's text for a value: `String(v)`, and the empty string for null and undefined. */
  function ValueText(v: Value): string
  {
    match v
    case Str(s) => s
    case Num(n) => IntToString(n)
    case Bool(b) => if b then "true" else "false"
    case Null => ""
    case Undefined => ""
  }

  /** The V8 (Node.js) text of a built-in function. */
  function NativeCode(name: string): string
  {
    "function " + name + "() { [native code] }"
  }

  /** The members every plain object inherits from `Object.prototype`. */
  const ObjectPrototypeMembers: seq<string> := [
    "constructor", "__proto__", "__defineGetter__", "__defineSetter__", "__lookupGetter__",
    "__lookupSetter__", "hasOwnProperty", "isPrototypeOf", "propertyIsEnumerable",
    "toString", "toLocaleString", "valueOf"]

  /**
    * The text `toString` gives in V8 for an inherited member: `constructor`
    * is `Object`, the getter of `__proto__` gives `Object.prototype` itself,
    * and the others are built-in methods named as their keys.
    */
  function InheritedText(name: string): string
  {
    if name == "constructor" then NativeCode("Object")
    else if name == "__proto__" then "[object Object]"
    else NativeCode(name)
  }

  /**
    * The value papaparse reads from a column by a plain property access: the
    * record's own value, else the member it inherits under that name, whose
    * `toString` text is what gets written, else undefined.
    */
  function Cell(response: FeedbackResponse, column: string): Value
  {
    if column in response then response[column]
    else if column in ObjectPrototypeMembers then Str(InheritedText(column))
    else Undefined
  }

  /** The texts of one record's cells, column by column. */
  function CellTexts(response: FeedbackResponse, columns: seq<string>): (cells: seq<string>)
    ensures |cells| == |columns|
    ensures forall i :: 0 <= i < |columns| && columns[i] !in response && columns[i] !in ObjectPrototypeMembers ==> cells[i] == ""
    ensures forall i :: 0 <= i < |columns| && columns[i] !in response && columns[i] in ObjectPrototypeMembers ==>
      cells[i] == InheritedText(columns[i])
    ensures forall i :: 0 <= i < |columns| && columns[i] in response && response[columns[i]].Str? ==>
      cells[i] == response[columns[i]].s
    ensures forall i :: 0 <= i < |columns| && columns[i] in response && response[columns[i]] in {Null, Undefined} ==> cells[i] == ""
  {
    seq(|columns|, i requires 0 <= i < |columns| => ValueText(Cell(response, columns[i])))
  }

  /** A record without a `constructor` key still shows the inherited `Object` in that column. */
  lemma InheritedCellExample()
    ensures CellTexts(map["responseId" := Str("r2")], ["responseId", "constructor"]) ==
      ["r2", "function Object() { [native code] }"]
  {
    assert ObjectPrototypeMembers[0] == "constructor";
    assert NativeCode("Object") == "function Object() { [native code] }";
  }

  /** A field has to be quoted when it holds a comma, a double quote or a line break. */
  predicate NeedsQuotes(t: string)
  {
    ',' in t || Quote in t || '\r' in t || '\n' in t
  }

  /** Every double quote written twice. */
  function DoubleQuotes(t: string): (r: string)
    ensures Quote !in t ==> r == t
  {
    if t == [] then []
    else (if t[0] == Quote then [Quote, Quote] else [t[0]]) + DoubleQuotes(t[1..])
  }

  /** Section 2, rules 6 and 7 of RFC 4180: quote when needed, doubling inner quotes. */
  function EscapeText(t: string): (r: string)
    ensures !NeedsQuotes(t) ==> r == t
    ensures NeedsQuotes(t) ==> |r| >= 2 && r[0] == Quote && r[|r| - 1] == Quote
  {
    if NeedsQuotes(t) then [Quote] + DoubleQuotes(t) + [Quote] else t
  }

  /** One CSV line: the escaped fields joined by commas. */
  function RenderRow(cells: seq<string>): string
  {
    Join(",", seq(|cells|, i requires 0 <= i < |cells| => EscapeText(cells[i])))
  }

  /** What a reader gets back: the header, then one row of cell texts per record. */
  function Table(responses: seq<FeedbackResponse>): (rows: seq<seq<string>>)
    ensures |rows| == |responses| + 1
  {
    var columns := Columns(responses);
    [columns] + seq(|responses|, i requires 0 <= i < |responses| => CellTexts(responses[i], columns))
  }

  /** The rendered lines of a table. */
  function RenderRows(rows: seq<seq<string>>): seq<string>
  {
    seq(|rows|, i requires 0 <= i < |rows| => RenderRow(rows[i]))
  }

  /** The document `generateCsv` returns. */
  function CsvDocument(responses: seq<FeedbackResponse>): string
  {
    if responses == [] then "" else [Bom] + Join(Crlf, RenderRows(Table(responses)))
  }

  /**
    * `generateCsv`: the empty string for no records; otherwise the byte
    * order mark followed by a document that reads back as the header and
    * one row of cell texts per record.
    */
  method GenerateCsv(responses: seq<FeedbackResponse>) returns (csv: string)
    requires forall x :: x in responses ==> x.Keys != {}
    ensures csv == CsvDocument(responses)
    ensures responses == [] ==> csv == ""
    ensures responses != [] ==> csv[0] == Bom && ReadDocument(csv[1..]) == (Table(responses), [])
  {
    if |responses| == 0 {
      return "";
    }
    var dynamicColumns := CollectDynamicColumns(responses);
    var columns := FixedColumns + SortStrings(dynamicColumns);
    var rows := seq(|responses|, i requires 0 <= i < |responses| => CellTexts(responses[i], columns));
    var body := Join(Crlf, RenderRows([columns] + rows));
    csv := [Bom] + body;
    TableReadsBack(responses);
    assert csv[1..] == body;
  }

  // ---- reading back what the export writes ----

  lemma {:induction false} ReadPlainText(t: string, tail: string)
    requires ',' !in t && '\r' !in t
    requires tail == [] || tail[0] == ',' || tail[0] == '\r'
    ensures ReadPlain(t + tail) == (t, tail)
  {
    if t == [] {
      assert t + tail == tail;
    } else {
      assert (t + tail)[1..] == t[1..] + tail;
      ReadPlainText(t[1..], tail);
      assert t == [t[0]] + t[1..];
    }
  }

  lemma {:induction false} ReadQuotedText(t: string, acc: string, tail: string)
    requires tail == [] || tail[0] != Quote
    ensures ReadQuoted(DoubleQuotes(t) + [Quote] + tail, acc) == (acc + t, tail)
  {
    var s := DoubleQuotes(t) + [Quote] + tail;
    if t == [] {
      assert s == [Quote] + tail;
      assert s[1..] == tail;
      assert acc + t == acc;
    } else if t[0] == Quote {
      var rest := DoubleQuotes(t[1..]) + [Quote] + tail;
      assert s == [Quote, Quote] + rest;
      assert s[0] == Quote && s[1] == Quote && s[2..] == rest;
      ReadQuotedText(t[1..], acc + [Quote], tail);
      assert acc + [Quote] + t[1..] == acc + t;
    } else {
      var rest := DoubleQuotes(t[1..]) + [Quote] + tail;
      assert s == [t[0]] + rest;
      assert s[0] == t[0] && s[1..] == rest;
      ReadQuotedText(t[1..], acc + [t[0]], tail);
      assert acc + [t[0]] + t[1..] == acc + t;
    }
  }

  /** Reading an escaped field gives its text back and stops right after it. */
  lemma ReadEscapedField(t: string, tail: string)
    requires tail == [] || tail[0] == ',' || tail[0] == '\r'
    ensures ReadField(EscapeText(t) + tail) == (t, tail)
  {
    if NeedsQuotes(t) {
      QuotedAssociative(DoubleQuotes(t), tail);
      ReadQuotedField(t, tail);
    } else {
      ReadPlainText(t, tail);
    }
  }

  // Proof helper: regrouping a concatenation, kept apart so the solver sees it alone.
  lemma QuotedAssociative(d: string, tail: string)
    ensures [Quote] + d + [Quote] + tail == [Quote] + (d + [Quote] + tail)
  {
  }

  lemma ReadQuotedField(t: string, tail: string)
    requires tail == [] || tail[0] != Quote
    ensures ReadField([Quote] + (DoubleQuotes(t) + [Quote] + tail)) == (t, tail)
  {
    var inner := DoubleQuotes(t) + [Quote] + tail;
    var s := [Quote] + inner;
    assert s[0] == Quote && s[1..] == inner;
    ReadQuotedText(t, [], tail);
    assert [] + t == t;
  }

  /** Reading a rendered line gives its cells back and stops at the line break. */
  lemma {:induction false} ReadRenderedRow(cells: seq<string>, tail: string)
    requires |cells| >= 1
    requires tail == [] || tail[0] == '\r'
    ensures ReadRecord(RenderRow(cells) + tail) == (cells, tail)
    decreases |cells|
  {
    if |cells| == 1 {
      ReadSingleCellRow(cells, tail);
    } else {
      var restRow := RenderRow(cells[1..]);
      RenderRowCons(cells);
      CommaAssociative(EscapeText(cells[0]), restRow, tail);
      ReadEscapedField(cells[0], "," + (restRow + tail));
      ReadRecordStep(EscapeText(cells[0]) + ("," + (restRow + tail)), cells[0], restRow + tail);
      ReadRenderedRow(cells[1..], tail);
      assert cells == [cells[0]] + cells[1..];
    }
  }

  // Proof helper: regrouping a concatenation, kept apart so the solver sees it alone.
  lemma CommaAssociative(a: string, b: string, tail: string)
    ensures a + "," + b + tail == a + ("," + (b + tail))
  {
  }

  lemma ReadSingleCellRow(cells: seq<string>, tail: string)
    requires |cells| == 1
    requires tail == [] || tail[0] == '\r'
    ensures ReadRecord(RenderRow(cells) + tail) == (cells, tail)
  {
    assert RenderRow(cells) == EscapeText(cells[0]);
    ReadEscapedField(cells[0], tail);
    assert cells == [cells[0]];
  }

  /** A field followed by a comma: the record continues with the rest. */
  lemma ReadRecordStep(s: string, f: string, after: string)
    requires ReadField(s) == (f, "," + after)
    ensures ReadRecord(s) == ([f] + ReadRecord(after).0, ReadRecord(after).1)
  {
    assert ("," + after)[1..] == after;
  }

  /** A line of two or more cells is the first escaped field, a comma and the rest of the line. */
  lemma RenderRowCons(cells: seq<string>)
    requires |cells| >= 2
    ensures RenderRow(cells) == EscapeText(cells[0]) + "," + RenderRow(cells[1..])
  {
    var escaped := seq(|cells|, i requires 0 <= i < |cells| => EscapeText(cells[i]));
    assert seq(|cells| - 1, i requires 0 <= i < |cells| - 1 => EscapeText(cells[1..][i])) == escaped[1..];
  }

  /** Reading rendered lines joined by CRLF gives all rows back. */
  lemma {:induction false} ReadRenderedRows(rows: seq<seq<string>>)
    requires |rows| >= 1
    requires forall i :: 0 <= i < |rows| ==> |rows[i]| >= 1
    ensures ReadDocument(Join(Crlf, RenderRows(rows))) == (rows, [])
    decreases |rows|
  {
    var lines := RenderRows(rows);
    if |rows| == 1 {
      ReadRenderedRow(rows[0], []);
      assert RenderRow(rows[0]) + [] == RenderRow(rows[0]);
      assert Join(Crlf, lines) == RenderRow(rows[0]);
      assert rows == [rows[0]];
    } else {
      var rest := Join(Crlf, RenderRows(rows[1..]));
      assert RenderRows(rows[1..]) == lines[1..];
      assert Join(Crlf, lines) == RenderRow(rows[0]) + (Crlf + rest);
      ReadRenderedRow(rows[0], Crlf + rest);
      assert (Crlf + rest)[..2] == Crlf && (Crlf + rest)[2..] == rest;
      ReadRenderedRows(rows[1..]);
      assert rows == [rows[0]] + rows[1..];
    }
  }

  /** The export of a non-empty input reads back as its table. */
  lemma TableReadsBack(responses: seq<FeedbackResponse>)
    requires responses != []
    ensures ReadDocument(Join(Crlf, RenderRows(Table(responses)))) == (Table(responses), [])
  {
    var rows := Table(responses);
    assert |rows[0]| >= 3;
    ReadRenderedRows(rows);
  }
}
