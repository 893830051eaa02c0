/**
  `ParseCSVAndCreateRecords` up to the point where it has the remote
  records: the header pass that finds the "Record ID" and "Path" columns,
  and the record pass that turns each long-enough line into an
  `FGridlyTypeRecord` whose id has its namespace prefix removed.
 */
module CsvRecords {
  import opened Strings
  import opened Seqs
  import Csv

  /** `FGridlyTypeRecord`: a record identity as the reconciliation compares it. */
  datatype Record = Record(id: string, path: string)

  const RecordIdColumn: string := "Record ID"
  const PathColumn: string := "Path"

  /** The namespace folder whose records are identified without their namespace. */
  const BlueprintsFolder: string := "blueprints/"

  /**
    `RemoveNamespaceFromKey`: everything up to and including the first comma
    is dropped; a string without a comma is returned as it is.
   */
  function RemoveNamespaceFromKey(s: string): (r: string)
    ensures ',' !in s ==> r == s
    ensures ',' in s ==> |r| < |s| && s == s[..|s| - |r| - 1] + [','] + r && ',' !in s[..|s| - |r| - 1]
  {
    match FindChar(s, ',')
    case None => s
    case Some(k) =>
      assert s == s[..k] + [','] + s[k + 1..];
      s[k + 1..]
  }

  /** A combined `namespace,key` id loses exactly its namespace when the namespace has no comma. */
  lemma RemoveNamespaceOfCombined(ns: string, key: string)
    requires ',' !in ns
    ensures RemoveNamespaceFromKey(ns + [','] + key) == key
  {
    var s := ns + [','] + key;
    assert s[|ns|] == ',';
    var r := RemoveNamespaceFromKey(s);
    var k := |s| - |r| - 1;
    assert s[k] == ',';
    assert r == s[k + 1..];
  }

  /** The header cell names `name`: quotes trimmed, letter case ignored. */
  predicate NamesColumn(cell: string, name: string) {
    SameText(TrimQuotes(cell), name)
  }

  /**
    The column index the header pass settles on for `name`: the last
    matching column, or -1 when none matches.
   */
  function ColumnIndex(header: seq<string>, name: string): (r: int)
    ensures -1 <= r < |header|
  {
    if |header| == 0 then -1
    else if NamesColumn(header[|header| - 1], name) then |header| - 1
    else ColumnIndex(header[..|header| - 1], name)
  }

  /** The index found names the column, and no later column does. */
  lemma {:induction false} ColumnIndexIsLastMatch(header: seq<string>, name: string)
    requires ColumnIndex(header, name) >= 0
    ensures NamesColumn(header[ColumnIndex(header, name)], name)
    ensures forall j :: ColumnIndex(header, name) < j < |header| ==> !NamesColumn(header[j], name)
    decreases |header|
  {
    if !NamesColumn(header[|header| - 1], name) {
      var init := header[..|header| - 1];
      var r := ColumnIndex(init, name);
      ColumnIndexIsLastMatch(init, name);
      assert header[r] == init[r];
      forall j | r < j < |header|
        ensures !NamesColumn(header[j], name)
      {
        if j < |init| {
          assert header[j] == init[j];
        }
      }
    }
  }

  /** -1 comes back exactly when no column names `name`. */
  lemma {:induction false} ColumnIndexMissing(header: seq<string>, name: string)
    ensures ColumnIndex(header, name) == -1 <==> forall j :: 0 <= j < |header| ==> !NamesColumn(header[j], name)
    decreases |header|
  {
    if |header| > 0 && !NamesColumn(header[|header| - 1], name) {
      var init := header[..|header| - 1];
      ColumnIndexMissing(init, name);
      if ColumnIndex(init, name) == -1 {
        forall j | 0 <= j < |header|
          ensures !NamesColumn(header[j], name)
        {
          if j < |init| {
            assert header[j] == init[j];
          }
        }
      } else {
        var k :| 0 <= k < |init| && NamesColumn(init[k], name);
        assert header[k] == init[k];
      }
    }
  }

  /**
    The header pass's column loop as written: one scan, each match
    overwriting the index found before, "Record ID" tested first.
   */
  method FindColumns(header: seq<string>) returns (recordIdIndex: int, pathIndex: int)
    ensures recordIdIndex == ColumnIndex(header, RecordIdColumn)
    ensures pathIndex == ColumnIndex(header, PathColumn)
  {
    recordIdIndex, pathIndex := -1, -1;
    var i := 0;
    while i < |header|
      invariant 0 <= i <= |header|
      invariant recordIdIndex == ColumnIndex(header[..i], RecordIdColumn)
      invariant pathIndex == ColumnIndex(header[..i], PathColumn)
    {
      assert header[..i + 1][..i] == header[..i];
      var name := TrimQuotes(header[i]);
      if SameText(name, RecordIdColumn) {
        recordIdIndex := i;
        assert !SameText(name, PathColumn);
      } else if SameText(name, PathColumn) {
        pathIndex := i;
      }
      i := i + 1;
    }
    assert header[..i] == header;
  }

  function Max(a: int, b: int): int { if a >= b then a else b }

  /** The id the header line itself yields, compared as FString `!=` does: ignoring case. */
  predicate IsHeaderId(id: string) {
    SameText(id, RecordIdColumn)
  }

  /**
    The record one line yields: the line must have more fields than the
    larger of the two indices; a record whose id reads "Record ID"
    (FString `!=`, so ignoring case) is the header itself and is dropped.
   */
  function LineRecord(idIndex: nat, pathIndex: nat, fields: seq<string>): Option<Record> {
    if |fields| > Max(idIndex, pathIndex) then
      var rec := Record(RemoveNamespaceFromKey(TrimQuotes(fields[idIndex])), TrimQuotes(fields[pathIndex]));
      if IsHeaderId(rec.id) then None else Some(rec)
    else None
  }

  /** `LineRecord` for fixed column indices, as one function value. */
  function LineRecords(idIndex: nat, pathIndex: nat): seq<string> -> Option<Record> {
    fields => LineRecord(idIndex, pathIndex, fields)
  }

  /** Every line of a scan, the unterminated last one included. */
  function AllLines(scan: Csv.Scan): seq<seq<string>> {
    scan.lines + (if scan.last.Some? then [scan.last.value] else [])
  }

  datatype ParseResult = MissingColumns | Parsed(records: seq<Record>)

  /**
    The records `ParseCSVAndCreateRecords` adds to `GridlyRecords` from a
    tokenized text, or `MissingColumns` when it logs the missing-column error
    and returns. The header is the first terminated line; the record pass
    re-reads every line, the header and an unterminated last line included.
   */
  function ParseScan(scan: Csv.Scan): (r: ParseResult)
    ensures r.MissingColumns? <==>
      |scan.lines| == 0
      || ColumnIndex(scan.lines[0], RecordIdColumn) < 0
      || ColumnIndex(scan.lines[0], PathColumn) < 0
    ensures r.Parsed? ==> |r.records| <= |AllLines(scan)|
    ensures r.Parsed? ==> forall i :: 0 <= i < |r.records| ==> !IsHeaderId(r.records[i].id)
  {
    if |scan.lines| == 0 then MissingColumns
    else
      var idIndex := ColumnIndex(scan.lines[0], RecordIdColumn);
      var pathIndex := ColumnIndex(scan.lines[0], PathColumn);
      if idIndex < 0 || pathIndex < 0 then MissingColumns
      else
        NoHeaderRecord(AllLines(scan), idIndex, pathIndex);
        Parsed(FilterMap(AllLines(scan), LineRecords(idIndex, pathIndex)))
  }

  /** `ParseCSVAndCreateRecords` on the response text. */
  function ParseRecords(csv: string): ParseResult {
    ParseScan(Csv.Tokenize(csv))
  }

  lemma NoHeaderRecord(lines: seq<seq<string>>, idIndex: nat, pathIndex: nat)
    ensures forall i :: 0 <= i < |FilterMap(lines, LineRecords(idIndex, pathIndex))| ==>
      !IsHeaderId(FilterMap(lines, LineRecords(idIndex, pathIndex))[i].id)
  {
    var f := LineRecords(idIndex, pathIndex);
    var records := FilterMap(lines, f);
    forall i | 0 <= i < |records|
      ensures !IsHeaderId(records[i].id)
    {
      FilterMapMembers(lines, f, records[i]);
    }
  }

  /**
    A record is parsed exactly when some line, the header line included, has
    more fields than the larger column index and its trimmed id, with the
    namespace removed, is not the header id.
   */
  lemma ParsedMembers(scan: Csv.Scan, rec: Record)
    ensures ParseScan(scan).Parsed? ==> |scan.lines| > 0
    ensures ParseScan(scan).Parsed? ==>
      var idIndex := ColumnIndex(scan.lines[0], RecordIdColumn);
      var pathIndex := ColumnIndex(scan.lines[0], PathColumn);
      var lines := AllLines(scan);
      idIndex >= 0 && pathIndex >= 0
      && (rec in ParseScan(scan).records <==>
        exists i :: 0 <= i < |lines| && |lines[i]| > Max(idIndex, pathIndex)
          && rec == Record(RemoveNamespaceFromKey(TrimQuotes(lines[i][idIndex])), TrimQuotes(lines[i][pathIndex]))
          && !IsHeaderId(rec.id))
  {
    if ParseScan(scan).Parsed? {
      var idIndex := ColumnIndex(scan.lines[0], RecordIdColumn);
      var pathIndex := ColumnIndex(scan.lines[0], PathColumn);
      FilterMapMembers(AllLines(scan), LineRecords(idIndex, pathIndex), rec);
    }
  }

  // ---------------------------------------------------------------------
  // Abort paths
  // ---------------------------------------------------------------------

  /** Without any unquoted CR or LF the loop never ends a line. */
  lemma {:induction false} RunWithoutBreaks(s: string, st: Csv.Tok)
    requires forall i :: 0 <= i < |s| ==> s[i] != Csv.LF && s[i] != Csv.CR
    ensures Csv.Run(s, st).lines == st.lines
    decreases |s|
  {
    if |s| > 0 {
      var t := Csv.Step(s, st);
      Csv.RunOne(s, st);
      assert t.next.lines == st.lines;
      assert forall i :: 0 <= i < |s[t.consumed..]| ==> s[t.consumed..][i] == s[i + t.consumed];
      RunWithoutBreaks(s[t.consumed..], t.next);
    }
  }

  /** A text with no line terminator at all has no header line, so nothing is parsed. */
  lemma NoTerminatorMeansMissingColumns(csv: string)
    requires forall i :: 0 <= i < |csv| ==> csv[i] != Csv.LF && csv[i] != Csv.CR
    ensures ParseRecords(csv) == MissingColumns
  {
    RunWithoutBreaks(csv, Csv.Initial());
  }

  /** Only the first line is searched for the columns: when it lacks one, later lines do not help. */
  lemma HeaderWithoutColumn(header: seq<string>, rows: seq<seq<string>>, crlf: bool)
    requires Csv.Writable([header] + rows)
    requires ColumnIndex(header, RecordIdColumn) < 0 || ColumnIndex(header, PathColumn) < 0
    ensures ParseRecords(Csv.EncodeTable([header] + rows, crlf)) == MissingColumns
  {
    Csv.TokenizeTable([header] + rows, crlf);
  }

  // ---------------------------------------------------------------------
  // Reading back a view export
  // ---------------------------------------------------------------------

  /** A cell the quote trimming leaves alone. */
  predicate Plain(s: string) {
    |s| == 0 || (s[0] != '"' && s[|s| - 1] != '"')
  }

  /** The two-column view export: a header line, then one `[id, path]` line per record. */
  function ViewTable(rows: seq<Record>): seq<seq<string>> {
    [[RecordIdColumn, PathColumn]] + seq(|rows|, i requires 0 <= i < |rows| => [rows[i].id, rows[i].path])
  }

  /** The records read back from rows exported as `[id, path]`. */
  function ReadBack(rows: seq<Record>): seq<Record> {
    seq(|rows|, i requires 0 <= i < |rows| => Record(RemoveNamespaceFromKey(rows[i].id), rows[i].path))
  }

  predicate Readable(rows: seq<Record>) {
    forall i :: 0 <= i < |rows| ==>
      Plain(rows[i].id) && Plain(rows[i].path) && !IsHeaderId(RemoveNamespaceFromKey(rows[i].id))
  }

  /** The two column names are told apart, and each names its own column. */
  lemma ColumnNames()
    ensures NamesColumn(RecordIdColumn, RecordIdColumn) && NamesColumn(PathColumn, PathColumn)
    ensures !NamesColumn(RecordIdColumn, PathColumn) && !NamesColumn(PathColumn, RecordIdColumn)
  {
    assert TrimQuotes(RecordIdColumn) == RecordIdColumn;
    assert TrimQuotes(PathColumn) == PathColumn;
    SameTextReflexive(RecordIdColumn);
    SameTextReflexive(PathColumn);
  }

  lemma HeaderColumns()
    ensures ColumnIndex([RecordIdColumn, PathColumn], RecordIdColumn) == 0
    ensures ColumnIndex([RecordIdColumn, PathColumn], PathColumn) == 1
  {
    ColumnNames();
    assert [RecordIdColumn, PathColumn][..1] == [RecordIdColumn];
    assert [RecordIdColumn][..0] == [];
  }

  /** The blank lines CRLF endings add are dropped by any pass that keeps nothing from an empty line. */
  lemma {:induction false} FilterMapLinesOf(data: seq<seq<string>>, crlf: bool, f: seq<string> -> Option<Record>)
    requires f([]) == None
    ensures FilterMap(Csv.LinesOf(data, crlf), f) == FilterMap(data, f)
  {
    if |data| > 0 {
      var blank: seq<seq<string>> := if crlf then [[]] else [];
      var rest := Csv.LinesOf(data[1..], crlf);
      assert Csv.LinesOf(data, crlf) == [data[0]] + (blank + rest);
      FilterMapAppend([data[0]], blank + rest, f);
      FilterMapAppend(blank, rest, f);
      assert FilterMap(blank, f) == [];
      FilterMapLinesOf(data[1..], crlf, f);
      assert data == [data[0]] + data[1..];
      FilterMapAppend([data[0]], data[1..], f);
    }
  }

  /** One data line of a view export yields its record with the namespace removed from the id. */
  lemma ViewLine(rec: Record)
    requires Plain(rec.id) && Plain(rec.path) && !IsHeaderId(RemoveNamespaceFromKey(rec.id))
    ensures LineRecords(0, 1)([rec.id, rec.path]) == Some(Record(RemoveNamespaceFromKey(rec.id), rec.path))
  {
  }

  /** The records the data lines of a view export yield. */
  lemma ReadDataLines(rows: seq<Record>)
    requires Readable(rows)
    ensures FilterMap(ViewTable(rows)[1..], LineRecords(0, 1)) == ReadBack(rows)
  {
    var f := LineRecords(0, 1);
    var data := ViewTable(rows)[1..];
    forall i | 0 <= i < |data|
      ensures f(data[i]) == Some(ReadBack(rows)[i])
    {
      assert data[i] == [rows[i].id, rows[i].path];
      ViewLine(rows[i]);
    }
    FilterMapAll(data, f);
  }

  /** Every line of a view export, the header and the CRLF blank lines included, yields the records read back. */
  lemma ViewRecords(rows: seq<Record>, crlf: bool)
    requires Readable(rows)
    ensures FilterMap(Csv.LinesOf(ViewTable(rows), crlf), LineRecords(0, 1)) == ReadBack(rows)
  {
    var table := ViewTable(rows);
    var header := [RecordIdColumn, PathColumn];
    var f := LineRecords(0, 1);
    HeaderLineDropped();
    FilterMapLinesOf(table, crlf, f);
    assert table == [header] + table[1..];
    FilterMapAppend([header], table[1..], f);
    ReadDataLines(rows);
  }

  /**
    Reading a view export back: the header is found in the first line, the
    header line itself is dropped, and every data line yields its record
    with the namespace prefix removed from the id, in order.
   */
  lemma ParseViewExport(rows: seq<Record>, crlf: bool)
    requires Readable(rows)
    ensures ParseRecords(Csv.EncodeTable(ViewTable(rows), crlf)) == Parsed(ReadBack(rows))
  {
    var table := ViewTable(rows);
    assert Csv.Writable(table) by {
      forall i | 0 <= i < |table| ensures table[i] != [""] {
        assert |table[i]| == 2;
      }
    }
    Csv.TokenizeTable(table, crlf);
    ParseViewLines(rows, crlf);
  }

  /** A line whose id cell is a plain, comma-free header id yields no record. */
  lemma HeaderIdLine(id: string, path: string)
    requires Plain(id) && ',' !in id && IsHeaderId(id)
    ensures LineRecords(0, 1)([id, path]) == None
  {
  }

  /** The header line of a view export is recognised as the header and yields no record. */
  lemma HeaderLineDropped()
    ensures LineRecords(0, 1)([RecordIdColumn, PathColumn]) == None
  {
    var h := RecordIdColumn;
    assert forall i :: 0 <= i < |h| ==> h[i] != ',';
    SameTextReflexive(h);
    HeaderIdLine(h, PathColumn);
  }

  /** The first line of a view export is its header. */
  lemma ViewHeader(rows: seq<Record>, crlf: bool)
    ensures var lines := Csv.LinesOf(ViewTable(rows), crlf);
      |lines| > 0 && lines[0] == [RecordIdColumn, PathColumn]
  {
  }

  /** The parse of the lines a view export reads as. */
  lemma ParseViewLines(rows: seq<Record>, crlf: bool)
    requires Readable(rows)
    ensures ParseScan(Csv.Scan(Csv.LinesOf(ViewTable(rows), crlf), None)) == Parsed(ReadBack(rows))
  {
    var lines := Csv.LinesOf(ViewTable(rows), crlf);
    ViewHeader(rows, crlf);
    HeaderColumns();
    assert AllLines(Csv.Scan(lines, None)) == lines;
    ViewRecords(rows, crlf);
  }
}
