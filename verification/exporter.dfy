/**
  `FGridlyExporter::ConvertToJson`, both overloads, with the rows kept as
  values instead of JSON text.

  The localized-text overload turns each `FPolyglotTextData` entry into one
  row: an id built from the key (and, in combined mode, the namespace), the
  namespace either as the row's `path` or as a namespace cell, then the
  native-culture cell, the context cell, the metadata cells and the target
  culture cells, in that order. The data-table overload turns a page of
  data-table rows into rows whose cells are the row's properties.

  The culture converter `FGridlyCultureConverter::ConvertToGridly` is not
  part of this model; it is a parameter, a partial map from engine culture
  names to Gridly language codes.
 */
module Exporter {
  import opened Strings
  import opened Seqs
  import opened CsvRecords

  // ---------------------------------------------------------------------
  // Data
  // ---------------------------------------------------------------------

  /** `FGridlyCultureConverter::ConvertToGridly`: `None` when the culture has no Gridly code. */
  type CultureConverter = string -> Option<string>

  /** `EGridlyColumnDataType`, reduced to the two cases the exporter distinguishes. */
  datatype ColumnType = StringColumn | NumberColumn | OtherColumn

  /** `FGridlyColumnInfo`: the Gridly column a metadata key is exported to. */
  datatype ColumnInfo = ColumnInfo(name: string, dataType: ColumnType)

  /**
    The manifest context of an entry: its source location and, when the
    info-metadata object is valid, its metadata pairs (key, value as text)
    in iteration order.
   */
  datatype Context = Context(sourceLocation: string, metadata: Option<seq<(string, string)>>)

  /** `FPolyglotTextData` together with its manifest context, if one was found. */
  datatype Entry = Entry(
    key: string,
    namespace: string,
    nativeCulture: string,
    nativeString: string,
    localized: seq<(string, string)>,
    context: Option<Context>)

  /** The `UGridlyGameSettings` fields and target-culture list the exporter reads. */
  datatype Settings = Settings(
    combinedId: bool,
    alsoExportNamespaceColumn: bool,
    namespaceColumnId: string,
    sourcePrefix: string,
    targetPrefix: string,
    exportContext: bool,
    contextColumnId: string,
    exportMetadata: bool,
    metadataMapping: seq<(string, ColumnInfo)>,
    targetCultures: seq<string>)

  /** A cell value: JSON string, number, boolean, floating-point number, or no `value` field at all. */
  datatype CellValue = Text(text: string) | Number(number: int) | Boolean(flag: bool) | Floating(x: real) | NoValue

  datatype Cell = Cell(columnId: string, value: CellValue)

  /** One exported record: its `id`, its `path` field when it has one, and its `cells`. */
  datatype Row = Row(id: string, path: Option<string>, cells: seq<Cell>)

  /**
    A `TMap<FString, …>` lookup, which matches keys ignoring case; the map
    is given as its pairs, and the first matching pair answers.
   */
  function Lookup<V>(pairs: seq<(string, V)>, key: string): (r: Option<V>)
    ensures r.None? <==> forall i :: 0 <= i < |pairs| ==> !SameText(pairs[i].0, key)
    ensures r.Some? ==> exists i :: 0 <= i < |pairs| && SameText(pairs[i].0, key) && pairs[i].1 == r.value
  {
    if |pairs| == 0 then None
    else if SameText(pairs[0].0, key) then Some(pairs[0].1)
    else
      var r := Lookup(pairs[1..], key);
      assert forall i :: 0 <= i < |pairs[1..]| ==> pairs[1..][i] == pairs[i + 1];
      r
  }

  // ---------------------------------------------------------------------
  // Id and namespace
  // ---------------------------------------------------------------------

  const PathColumnName: string := "path"

  /** The namespace is exported unless the combined id already carries it and no extra column is asked for. */
  predicate ExportsNamespace(s: Settings) {
    !s.combinedId || s.alsoExportNamespaceColumn
  }

  /** `NamespaceColumnId == "path"`, an ignore-case FString compare. */
  predicate PathAsNamespace(s: Settings) {
    SameText(s.namespaceColumnId, PathColumnName)
  }

  /** The namespace goes into a cell of its own. */
  predicate NamespaceCell(s: Settings) {
    ExportsNamespace(s) && !PathAsNamespace(s) && |s.namespaceColumnId| > 0
  }

  /**
    The record id: in combined mode `namespace,key`, or `,key` when the
    namespace contains "blueprints/" anywhere (ignoring case); otherwise the
    bare key.
   */
  function RowId(s: Settings, e: Entry): string {
    if s.combinedId then
      if ContainsText(e.namespace, BlueprintsFolder) then [','] + e.key
      else e.namespace + [','] + e.key
    else e.key
  }

  /** Removing the namespace prefix from a row id gives back the key, in every mode where the namespace has no comma of its own. */
  lemma RowIdReadsBack(s: Settings, e: Entry)
    requires s.combinedId ==> ',' !in e.namespace || ContainsText(e.namespace, BlueprintsFolder)
    requires !s.combinedId ==> ',' !in e.key
    ensures RemoveNamespaceFromKey(RowId(s, e)) == e.key
  {
    if s.combinedId {
      if ContainsText(e.namespace, BlueprintsFolder) {
        RemoveNamespaceOfCombined([], e.key);
        assert [] + [','] + e.key == [','] + e.key;
      } else {
        RemoveNamespaceOfCombined(e.namespace, e.key);
      }
    }
  }

  function NamespaceCells(s: Settings, e: Entry): (r: seq<Cell>)
    ensures |r| <= 1
    ensures |r| == 1 <==> NamespaceCell(s)
    ensures |r| == 1 ==> r[0] == Cell(s.namespaceColumnId, Text(e.namespace))
  {
    if NamespaceCell(s) then [Cell(s.namespaceColumnId, Text(e.namespace))] else []
  }

  // ---------------------------------------------------------------------
  // Native, context and metadata cells
  // ---------------------------------------------------------------------

  /** The native-culture cell, present exactly when the native culture has a Gridly code; the string is sent even when empty. */
  function NativeCells(s: Settings, convert: CultureConverter, e: Entry): (r: seq<Cell>)
    ensures |r| <= 1
    ensures |r| == 1 <==> convert(e.nativeCulture).Some?
    ensures |r| == 1 ==> r[0] == Cell(s.sourcePrefix + convert(e.nativeCulture).value, Text(e.nativeString))
  {
    match convert(e.nativeCulture)
    case Some(code) => [Cell(s.sourcePrefix + code, Text(e.nativeString))]
    case None => []
  }

  const LineSeparator: string := " - line "
  const LineMark: string := ":"

  /** The context cell's value: the source location with every " - line " written as ":". */
  function ContextValue(location: string): string {
    ReplaceAll(location, LineSeparator, LineMark)
  }

  /** `Path/File.cpp - line 42` becomes `Path/File.cpp:42`. */
  lemma ContextValueOfLine(file: string, line: string)
    requires '-' !in file
    requires forall i :: 0 <= i < |line| ==> IsDigit(line[i])
    ensures ContextValue(file + LineSeparator + line) == file + LineMark + line
  {
    var s := file + LineSeparator + line;
    forall i: nat | i < |file|
      ensures !OccursAt(s, LineSeparator, i)
    {
      if i + |LineSeparator| <= |s| {
        if i + 1 < |file| {
          assert s[i + 1] == file[i + 1];
        } else {
          assert s[i + 1] == LineSeparator[0];
        }
        assert s[i..i + |LineSeparator|][1] == s[i + 1] != LineSeparator[1];
      }
    }
    ReplaceFirst(file, LineSeparator, LineMark, line);
    forall i: nat ensures !OccursAt(line, LineSeparator, i) {
      if i + |LineSeparator| <= |line| {
        assert IsDigit(line[i]);
        assert line[i..i + |LineSeparator|][0] == line[i] != LineSeparator[0];
      }
    }
    ReplaceAbsent(line, LineSeparator, LineMark);
  }

  predicate HasContextCell(s: Settings, e: Entry) {
    e.context.Some? && s.exportContext
  }

  function ContextCells(s: Settings, e: Entry): (r: seq<Cell>)
    ensures |r| <= 1
    ensures |r| == 1 <==> HasContextCell(s, e)
    ensures |r| == 1 ==> r[0] == Cell(s.contextColumnId, Text(ContextValue(e.context.value.sourceLocation)))
  {
    if HasContextCell(s, e) then [Cell(s.contextColumnId, Text(ContextValue(e.context.value.sourceLocation)))]
    else []
  }

  /** A metadata value as the column type wants it: text, `Atoi` of the text, or no value. */
  function MetadataValue(t: ColumnType, text: string): CellValue {
    match t
    case StringColumn => Text(text)
    case NumberColumn => Number(Atoi(text))
    case OtherColumn => NoValue
  }

  /** A number column reads back every integer written as decimal text. */
  lemma MetadataNumberRoundTrip(n: int)
    ensures MetadataValue(NumberColumn, IntToString(n)) == Number(n)
  {
    AtoiIntToString(n);
  }

  /** One metadata pair: a cell in the mapped column when its key is mapped, nothing otherwise. */
  function MetadataCell(s: Settings): ((string, string)) -> Option<Cell> {
    (pair: (string, string)) =>
      match Lookup(s.metadataMapping, pair.0)
      case Some(info) => Some(Cell(info.name, MetadataValue(info.dataType, pair.1)))
      case None => None
  }

  predicate ExportsMetadata(s: Settings, e: Entry) {
    e.context.Some? && s.exportMetadata && e.context.value.metadata.Some?
  }

  function MetadataCells(s: Settings, e: Entry): (r: seq<Cell>)
    ensures !ExportsMetadata(s, e) ==> r == []
    ensures ExportsMetadata(s, e) ==> |r| <= |e.context.value.metadata.value|
  {
    if ExportsMetadata(s, e) then FilterMap(e.context.value.metadata.value, MetadataCell(s)) else []
  }

  /** A metadata cell exists for exactly the mapped keys, in the mapped column, with the converted value. */
  lemma MetadataCellMembers(s: Settings, e: Entry, c: Cell)
    requires ExportsMetadata(s, e)
    ensures var pairs := e.context.value.metadata.value;
      c in MetadataCells(s, e) <==>
        exists i :: 0 <= i < |pairs| && Lookup(s.metadataMapping, pairs[i].0).Some?
          && c == Cell(Lookup(s.metadataMapping, pairs[i].0).value.name,
                       MetadataValue(Lookup(s.metadataMapping, pairs[i].0).value.dataType, pairs[i].1))
  {
    FilterMapMembers(e.context.value.metadata.value, MetadataCell(s), c);
  }

  // ---------------------------------------------------------------------
  // Target cells
  // ---------------------------------------------------------------------

  /**
    One target culture: a cell when the culture is not the native one
    (ignoring case), the entry has a string for it, and it has a Gridly code.
   */
  function TargetCell(s: Settings, convert: CultureConverter, e: Entry): string -> Option<Cell> {
    culture =>
      if SameText(culture, e.nativeCulture) then None
      else match Lookup(e.localized, culture)
        case None => None
        case Some(text) =>
          match convert(culture)
          case None => None
          case Some(code) => Some(Cell(s.targetPrefix + code, Text(text)))
  }

  /** The culture yields a target cell: not native, translated, and convertible. */
  predicate Translated(convert: CultureConverter, e: Entry, culture: string) {
    !SameText(culture, e.nativeCulture) && Lookup(e.localized, culture).Some? && convert(culture).Some?
  }

  function TargetCells(s: Settings, convert: CultureConverter, includeTargets: bool, e: Entry): (r: seq<Cell>)
    ensures !includeTargets ==> r == []
    ensures |r| <= |s.targetCultures|
  {
    if includeTargets then FilterMap(s.targetCultures, TargetCell(s, convert, e)) else []
  }

  /**
    With target translations included, there is a cell for a target culture
    exactly when it is translated, in that culture's column, holding its string.
   */
  lemma TargetCellMembers(s: Settings, convert: CultureConverter, e: Entry, c: Cell)
    ensures c in TargetCells(s, convert, true, e) <==>
      exists j :: 0 <= j < |s.targetCultures| && Translated(convert, e, s.targetCultures[j])
        && c == Cell(s.targetPrefix + convert(s.targetCultures[j]).value,
                     Text(Lookup(e.localized, s.targetCultures[j]).value))
  {
    FilterMapMembers(s.targetCultures, TargetCell(s, convert, e), c);
  }

  /** Target cells follow the order of the target-culture list. */
  lemma TargetCellsInOrder(s: Settings, convert: CultureConverter, e: Entry, j: nat)
    requires j <= |s.targetCultures|
    ensures TargetCells(s, convert, true, e) ==
      TargetCells(s.(targetCultures := s.targetCultures[..j]), convert, true, e)
      + TargetCells(s.(targetCultures := s.targetCultures[j..]), convert, true, e)
  {
    assert s.targetCultures == s.targetCultures[..j] + s.targetCultures[j..];
    FilterMapAppend(s.targetCultures[..j], s.targetCultures[j..], TargetCell(s, convert, e));
  }

  /** When every target culture is translated, each yields its cell, one for one. */
  lemma AllTranslated(s: Settings, convert: CultureConverter, e: Entry)
    requires forall j :: 0 <= j < |s.targetCultures| ==> Translated(convert, e, s.targetCultures[j])
    ensures |TargetCells(s, convert, true, e)| == |s.targetCultures|
    ensures forall j :: 0 <= j < |s.targetCultures| ==>
      && Translated(convert, e, s.targetCultures[j])
      && TargetCells(s, convert, true, e)[j] == Cell(s.targetPrefix + convert(s.targetCultures[j]).value,
                                                     Text(Lookup(e.localized, s.targetCultures[j]).value))
  {
    FilterMapAll(s.targetCultures, TargetCell(s, convert, e));
  }

  // ---------------------------------------------------------------------
  // Rows
  // ---------------------------------------------------------------------

  /** One entry's row. */
  function ConvertEntry(s: Settings, convert: CultureConverter, includeTargets: bool, e: Entry): Row {
    Row(RowId(s, e),
        if ExportsNamespace(s) && PathAsNamespace(s) then Some(e.namespace) else None,
        NamespaceCells(s, e) + NativeCells(s, convert, e) + ContextCells(s, e)
          + MetadataCells(s, e) + TargetCells(s, convert, includeTargets, e))
  }

  function Count(b: bool): nat { if b then 1 else 0 }

  /** Where the native cell would sit: after the namespace cell, if any. */
  function NativeAt(s: Settings): nat {
    Count(NamespaceCell(s))
  }

  /** Where the context cell would sit. */
  function ContextAt(s: Settings, convert: CultureConverter, e: Entry): nat {
    NativeAt(s) + Count(convert(e.nativeCulture).Some?)
  }

  /** Where the metadata cells start. */
  function MetadataAt(s: Settings, convert: CultureConverter, e: Entry): nat {
    ContextAt(s, convert, e) + Count(HasContextCell(s, e))
  }

  /** Where the target cells start. */
  function TargetsAt(s: Settings, convert: CultureConverter, e: Entry): nat {
    MetadataAt(s, convert, e) + |MetadataCells(s, e)|
  }

  /** The positions of five consecutive parts in their concatenation. */
  lemma Concat5<T>(a: seq<T>, b: seq<T>, c: seq<T>, d: seq<T>, t: seq<T>)
    ensures var x := a + b + c + d + t;
      && |x| == |a| + |b| + |c| + |d| + |t|
      && (|a| > 0 ==> x[0] == a[0])
      && (|b| > 0 ==> x[|a|] == b[0])
      && (|c| > 0 ==> x[|a| + |b|] == c[0])
      && x[|a| + |b| + |c|..|a| + |b| + |c| + |d|] == d
      && x[|a| + |b| + |c| + |d|..] == t
  {
    var x := a + b + c + d + t;
    assert x[|a| + |b| + |c|..|a| + |b| + |c| + |d|] == d;
    assert x[|a| + |b| + |c| + |d|..] == t;
  }

  /** The namespace is the row's `path` exactly in path mode, and is otherwise absent from `path`. */
  lemma NamespacePlacement(s: Settings, convert: CultureConverter, includeTargets: bool, e: Entry)
    ensures ConvertEntry(s, convert, includeTargets, e).path.Some? <==> ExportsNamespace(s) && PathAsNamespace(s)
    ensures ConvertEntry(s, convert, includeTargets, e).path.Some? ==>
      ConvertEntry(s, convert, includeTargets, e).path.value == e.namespace
    ensures ConvertEntry(s, convert, includeTargets, e).path.Some? ==> !NamespaceCell(s)
  {
  }

  /**
    The single cells at the front of a row: the namespace cell first when a
    namespace column is named, then the native cell, then the context cell.
   */
  lemma CellLayoutHead(s: Settings, convert: CultureConverter, includeTargets: bool, e: Entry)
    ensures NamespaceCell(s) ==>
      ConvertEntry(s, convert, includeTargets, e).cells[0] == Cell(s.namespaceColumnId, Text(e.namespace))
    ensures convert(e.nativeCulture).Some? ==>
      ConvertEntry(s, convert, includeTargets, e).cells[NativeAt(s)]
        == Cell(s.sourcePrefix + convert(e.nativeCulture).value, Text(e.nativeString))
    ensures HasContextCell(s, e) ==>
      ConvertEntry(s, convert, includeTargets, e).cells[ContextAt(s, convert, e)]
        == Cell(s.contextColumnId, Text(ContextValue(e.context.value.sourceLocation)))
  {
    var a, b, c := NamespaceCells(s, e), NativeCells(s, convert, e), ContextCells(s, e);
    var d, t := MetadataCells(s, e), TargetCells(s, convert, includeTargets, e);
    assert ConvertEntry(s, convert, includeTargets, e).cells == a + b + c + d + t;
    assert |a| == NativeAt(s);
    assert |a| + |b| == ContextAt(s, convert, e);
    Concat5(a, b, c, d, t);
  }

  /** The runs that close a row: the metadata cells, then the target cells, which end it. */
  lemma CellLayoutTail(s: Settings, convert: CultureConverter, includeTargets: bool, e: Entry)
    ensures |ConvertEntry(s, convert, includeTargets, e).cells|
      == TargetsAt(s, convert, e) + |TargetCells(s, convert, includeTargets, e)|
    ensures ConvertEntry(s, convert, includeTargets, e).cells[MetadataAt(s, convert, e)..TargetsAt(s, convert, e)]
      == MetadataCells(s, e)
    ensures ConvertEntry(s, convert, includeTargets, e).cells[TargetsAt(s, convert, e)..]
      == TargetCells(s, convert, includeTargets, e)
  {
    var a, b, c := NamespaceCells(s, e), NativeCells(s, convert, e), ContextCells(s, e);
    var d, t := MetadataCells(s, e), TargetCells(s, convert, includeTargets, e);
    assert ConvertEntry(s, convert, includeTargets, e).cells == a + b + c + d + t;
    assert |a| + |b| + |c| == MetadataAt(s, convert, e);
    Concat5(a, b, c, d, t);
  }

  // ---------------------------------------------------------------------
  // Which cell a column of the row holds
  // ---------------------------------------------------------------------

  /** A column the metadata mapping sends some key to. */
  predicate MetadataColumn(s: Settings, col: string) {
    exists i :: 0 <= i < |s.metadataMapping| && s.metadataMapping[i].1.name == col
  }

  /**
    No column of the row other than the native cell's can start with the
    source prefix: not the namespace, context or metadata columns, and not
    a target column, since neither prefix extends the other.
   */
  predicate SourceColumnsApart(s: Settings) {
    && !(s.sourcePrefix <= s.namespaceColumnId)
    && !(s.sourcePrefix <= s.contextColumnId)
    && !(s.sourcePrefix <= s.targetPrefix) && !(s.targetPrefix <= s.sourcePrefix)
    && forall i :: 0 <= i < |s.metadataMapping| ==> !(s.sourcePrefix <= s.metadataMapping[i].1.name)
  }

  /** The context column is named by no other part of the row. */
  predicate ContextColumnApart(s: Settings) {
    && s.contextColumnId != s.namespaceColumnId
    && !(s.sourcePrefix <= s.contextColumnId) && !(s.targetPrefix <= s.contextColumnId)
    && !MetadataColumn(s, s.contextColumnId)
  }

  /** The namespace column is named by no other part of the row. */
  predicate NamespaceColumnApart(s: Settings) {
    && s.namespaceColumnId != s.contextColumnId
    && !(s.sourcePrefix <= s.namespaceColumnId) && !(s.targetPrefix <= s.namespaceColumnId)
    && !MetadataColumn(s, s.namespaceColumnId)
  }

  /** Every cell of a row comes from one of its five parts, and its column says which. */
  lemma CellOrigin(s: Settings, convert: CultureConverter, includeTargets: bool, e: Entry, c: Cell)
    requires c in ConvertEntry(s, convert, includeTargets, e).cells
    ensures || (NamespaceCell(s) && c == Cell(s.namespaceColumnId, Text(e.namespace)))
            || (convert(e.nativeCulture).Some?
                && c == Cell(s.sourcePrefix + convert(e.nativeCulture).value, Text(e.nativeString)))
            || (HasContextCell(s, e) && c == Cell(s.contextColumnId, Text(ContextValue(e.context.value.sourceLocation))))
            || (ExportsMetadata(s, e) && MetadataColumn(s, c.columnId))
            || (includeTargets && s.targetPrefix <= c.columnId)
  {
    var a, b, x := NamespaceCells(s, e), NativeCells(s, convert, e), ContextCells(s, e);
    var d, t := MetadataCells(s, e), TargetCells(s, convert, includeTargets, e);
    assert ConvertEntry(s, convert, includeTargets, e).cells == a + b + x + d + t;
    if c in d {
      MetadataCellMembers(s, e, c);
      var pairs := e.context.value.metadata.value;
      var i :| 0 <= i < |pairs| && Lookup(s.metadataMapping, pairs[i].0).Some?
        && c == Cell(Lookup(s.metadataMapping, pairs[i].0).value.name,
                     MetadataValue(Lookup(s.metadataMapping, pairs[i].0).value.dataType, pairs[i].1));
      var k :| 0 <= k < |s.metadataMapping| && SameText(s.metadataMapping[k].0, pairs[i].0)
        && s.metadataMapping[k].1 == Lookup(s.metadataMapping, pairs[i].0).value;
      assert s.metadataMapping[k].1.name == c.columnId;
    } else if c in t {
      TargetCellMembers(s, convert, e, c);
      var j :| 0 <= j < |s.targetCultures| && Translated(convert, e, s.targetCultures[j])
        && c == Cell(s.targetPrefix + convert(s.targetCultures[j]).value,
                     Text(Lookup(e.localized, s.targetCultures[j]).value));
      assert c.columnId[..|s.targetPrefix|] == s.targetPrefix;
    }
  }

  /**
    With the source columns kept apart, the row has a cell in a source
    column exactly when the native culture has a Gridly code, and that
    cell is the native string in the native culture's column.
   */
  lemma NativeCellInRow(s: Settings, convert: CultureConverter, includeTargets: bool, e: Entry)
    requires SourceColumnsApart(s)
    ensures var cells := ConvertEntry(s, convert, includeTargets, e).cells;
      (exists c :: c in cells && s.sourcePrefix <= c.columnId) <==> convert(e.nativeCulture).Some?
    ensures forall c :: c in ConvertEntry(s, convert, includeTargets, e).cells && s.sourcePrefix <= c.columnId ==>
      convert(e.nativeCulture).Some? && c == Cell(s.sourcePrefix + convert(e.nativeCulture).value, Text(e.nativeString))
  {
    var cells := ConvertEntry(s, convert, includeTargets, e).cells;
    forall c | c in cells && s.sourcePrefix <= c.columnId
      ensures convert(e.nativeCulture).Some? && c == Cell(s.sourcePrefix + convert(e.nativeCulture).value, Text(e.nativeString))
    {
      CellOrigin(s, convert, includeTargets, e, c);
    }
    if convert(e.nativeCulture).Some? {
      CellLayoutHead(s, convert, includeTargets, e);
      assert cells[NativeAt(s)] in cells;
    }
  }

  /**
    With the context column kept apart, the row has a cell in the context
    column exactly when the entry has a context and context export is on,
    and that cell holds the source location in `File:Line` form.
   */
  lemma ContextCellInRow(s: Settings, convert: CultureConverter, includeTargets: bool, e: Entry)
    requires ContextColumnApart(s)
    ensures var cells := ConvertEntry(s, convert, includeTargets, e).cells;
      (exists c :: c in cells && c.columnId == s.contextColumnId) <==> HasContextCell(s, e)
    ensures forall c :: c in ConvertEntry(s, convert, includeTargets, e).cells && c.columnId == s.contextColumnId ==>
      HasContextCell(s, e) && c == Cell(s.contextColumnId, Text(ContextValue(e.context.value.sourceLocation)))
  {
    var cells := ConvertEntry(s, convert, includeTargets, e).cells;
    forall c | c in cells && c.columnId == s.contextColumnId
      ensures HasContextCell(s, e) && c == Cell(s.contextColumnId, Text(ContextValue(e.context.value.sourceLocation)))
    {
      CellOrigin(s, convert, includeTargets, e, c);
    }
    if HasContextCell(s, e) {
      CellLayoutHead(s, convert, includeTargets, e);
      assert cells[ContextAt(s, convert, e)] in cells;
    }
  }

  /**
    When the namespace is exported under a named column kept apart from
    the others, it appears exactly once: as the row's `path` when the
    column is "path", and otherwise as the first cell, in its column, with
    no other cell in that column.
   */
  lemma NamespaceOnce(s: Settings, convert: CultureConverter, includeTargets: bool, e: Entry)
    requires ExportsNamespace(s) && |s.namespaceColumnId| > 0 && NamespaceColumnApart(s)
    ensures var row := ConvertEntry(s, convert, includeTargets, e);
      (row.path == Some(e.namespace) <==> PathAsNamespace(s)) && (row.path.None? <==> !PathAsNamespace(s))
    ensures var cells := ConvertEntry(s, convert, includeTargets, e).cells;
      (exists c :: c in cells && c.columnId == s.namespaceColumnId) <==> !PathAsNamespace(s)
    ensures !PathAsNamespace(s) ==>
      ConvertEntry(s, convert, includeTargets, e).cells[0] == Cell(s.namespaceColumnId, Text(e.namespace))
    ensures forall c :: c in ConvertEntry(s, convert, includeTargets, e).cells && c.columnId == s.namespaceColumnId ==>
      c == Cell(s.namespaceColumnId, Text(e.namespace))
  {
    var cells := ConvertEntry(s, convert, includeTargets, e).cells;
    forall c | c in cells && c.columnId == s.namespaceColumnId
      ensures c == Cell(s.namespaceColumnId, Text(e.namespace)) && NamespaceCell(s)
    {
      CellOrigin(s, convert, includeTargets, e, c);
    }
    if !PathAsNamespace(s) {
      CellLayoutHead(s, convert, includeTargets, e);
      assert cells[0] in cells;
    }
  }

  /**
    `ConvertToJson` over localized text: one row per entry, in entry order.
    (The JSON text written from these rows is not modelled.)
   */
  function ConvertToJson(s: Settings, convert: CultureConverter, includeTargets: bool, entries: seq<Entry>): (r: seq<Row>)
    ensures |r| == |entries|
    ensures forall i :: 0 <= i < |entries| ==> r[i] == ConvertEntry(s, convert, includeTargets, entries[i])
  {
    if |entries| == 0 then []
    else [ConvertEntry(s, convert, includeTargets, entries[0])] + ConvertToJson(s, convert, includeTargets, entries[1..])
  }

  /** Rows depend on their own entry only, so converting a list in two parts gives the same rows. */
  lemma ConvertToJsonAppend(s: Settings, convert: CultureConverter, includeTargets: bool, a: seq<Entry>, b: seq<Entry>)
    ensures ConvertToJson(s, convert, includeTargets, a + b)
      == ConvertToJson(s, convert, includeTargets, a) + ConvertToJson(s, convert, includeTargets, b)
  {
    var l := ConvertToJson(s, convert, includeTargets, a + b);
    var r := ConvertToJson(s, convert, includeTargets, a) + ConvertToJson(s, convert, includeTargets, b);
    assert |l| == |r|;
    forall i | 0 <= i < |l| ensures l[i] == r[i] {
      if i < |a| {
        assert (a + b)[i] == a[i];
      } else {
        assert (a + b)[i] == b[i - |a|];
      }
    }
  }

  /** The rows of each chunk's request, one list per chunk. */
  function ConvertEach(s: Settings, convert: CultureConverter, includeTargets: bool, chunks: seq<seq<Entry>>): (r: seq<seq<Row>>)
    ensures |r| == |chunks|
  {
    if |chunks| == 0 then []
    else [ConvertToJson(s, convert, includeTargets, chunks[0])] + ConvertEach(s, convert, includeTargets, chunks[1..])
  }

  /** Sending the entries in chunks sends exactly the rows of sending them all at once, in order. */
  lemma {:induction false} ConvertEachFlatten(s: Settings, convert: CultureConverter, includeTargets: bool, chunks: seq<seq<Entry>>)
    ensures Flatten(ConvertEach(s, convert, includeTargets, chunks)) == ConvertToJson(s, convert, includeTargets, Flatten(chunks))
  {
    if |chunks| > 0 {
      ConvertEachFlatten(s, convert, includeTargets, chunks[1..]);
      ConvertToJsonAppend(s, convert, includeTargets, chunks[0], Flatten(chunks[1..]));
    }
  }

  // ---------------------------------------------------------------------
  // The data-table overload
  // ---------------------------------------------------------------------

  /**
    A property of a data-table row: its export name, `ArrayDim`, its value
    as the JSON writer emits it, and its value as text (what `_path` uses).
   */
  datatype Property = Property(name: string, arrayDim: int, value: CellValue, text: string)

  datatype TableRow = TableRow(name: string, properties: seq<Property>)

  /** A `UGridlyDataTable`: whether it has a row struct, and its rows in key order. */
  datatype DataTable = DataTable(hasRowStruct: bool, rows: seq<TableRow>)

  const PathProperty: string := "_path"

  predicate IsPathProperty(p: Property) {
    SameText(p.name, PathProperty)
  }

  /** The row's `path`: the text of the last `_path` property, or empty when there is none. */
  function TablePath(props: seq<Property>): (r: string)
    ensures (forall i :: 0 <= i < |props| ==> !IsPathProperty(props[i])) ==> r == ""
    ensures forall i :: (0 <= i < |props| && IsPathProperty(props[i])
      && (forall j :: i < j < |props| ==> !IsPathProperty(props[j]))) ==> r == props[i].text
  {
    if |props| == 0 then ""
    else if IsPathProperty(props[|props| - 1]) then props[|props| - 1].text
    else
      var r := TablePath(props[..|props| - 1]);
      assert forall i :: 0 <= i < |props| - 1 ==> props[..|props| - 1][i] == props[i];
      r
  }

  /** A property's cell: `_path` never is one, and only single-element properties are. */
  function PropertyCell(p: Property): Option<Cell> {
    if IsPathProperty(p) then None
    else if p.arrayDim == 1 then Some(Cell(p.name, p.value))
    else None
  }

  function TableRowCells(props: seq<Property>): (r: seq<Cell>)
    ensures |r| <= |props|
  {
    FilterMap(props, PropertyCell)
  }

  /** The cells of a data-table row are exactly its single-element properties other than `_path`, in order. */
  lemma TableRowCellMembers(props: seq<Property>, c: Cell)
    ensures c in TableRowCells(props) <==>
      exists i :: 0 <= i < |props| && !IsPathProperty(props[i]) && props[i].arrayDim == 1
        && c == Cell(props[i].name, props[i].value)
  {
    FilterMapMembers(props, PropertyCell, c);
  }

  function ConvertTableRow(row: TableRow): Row {
    Row(row.name, Some(TablePath(row.properties)), TableRowCells(row.properties))
  }

  /**
    `ConvertToJson` over a data table: `None` (false) without a row struct
    or when the page starts past the last row; otherwise the rows
    `[start, min(start + maxSize, N))`.
   */
  function ConvertTable(t: DataTable, start: nat, maxSize: nat): (r: Option<seq<Row>>)
    ensures r.None? <==> !t.hasRowStruct || start >= |t.rows|
    ensures r.Some? ==> |r.value| == Min(start + maxSize, |t.rows|) - start
    ensures r.Some? ==> forall i :: 0 <= i < |r.value| ==> r.value[i] == ConvertTableRow(t.rows[start + i])
  {
    if !t.hasRowStruct || start >= |t.rows| then None
    else
      var end := Min(start + maxSize, |t.rows|);
      Some(seq(end - start, i requires 0 <= i < end - start => ConvertTableRow(t.rows[start + i])))
  }

  /**
    A full page is followed by the next one with no gap and no overlap:
    together the two pages are the rows from `start` up to the end of the
    second page, each once, in order.
   */
  lemma PagesAdjacent(t: DataTable, start: nat, maxSize: nat)
    requires t.hasRowStruct && start + maxSize < |t.rows|
    ensures var p, q := ConvertTable(t, start, maxSize), ConvertTable(t, start + maxSize, maxSize);
      && p.Some? && q.Some? && |p.value| == maxSize
      && var both := p.value + q.value;
      && |both| == Min(start + maxSize + maxSize, |t.rows|) - start
      && forall i :: 0 <= i < |both| ==> both[i] == ConvertTableRow(t.rows[start + i])
  {
    var p, q := ConvertTable(t, start, maxSize).value, ConvertTable(t, start + maxSize, maxSize).value;
    forall i | 0 <= i < |p + q| ensures (p + q)[i] == ConvertTableRow(t.rows[start + i]) {
      if i >= |p| {
        assert (p + q)[i] == q[i - maxSize];
      }
    }
  }

  /** The pages from `start` on, while pages are returned. */
  function PagesFrom(t: DataTable, start: nat, maxSize: nat): seq<Row>
    requires maxSize >= 1
    decreases |t.rows| - start
  {
    match ConvertTable(t, start, maxSize)
    case None => []
    case Some(page) => page + PagesFrom(t, start + maxSize, maxSize)
  }

  /** Paging through a table with any positive page size yields every row from `start` on, each once, in order. */
  lemma {:induction false} PagesCoverTable(t: DataTable, start: nat, maxSize: nat)
    requires maxSize >= 1 && t.hasRowStruct && start <= |t.rows|
    ensures var p := PagesFrom(t, start, maxSize);
      |p| == |t.rows| - start && forall i :: 0 <= i < |p| ==> p[i] == ConvertTableRow(t.rows[start + i])
    decreases |t.rows| - start
  {
    if start < |t.rows| {
      var page := ConvertTable(t, start, maxSize).value;
      var next := Min(start + maxSize, |t.rows|);
      if start + maxSize <= |t.rows| {
        PagesCoverTable(t, start + maxSize, maxSize);
      }
      var p := PagesFrom(t, start, maxSize);
      assert p == page + PagesFrom(t, start + maxSize, maxSize);
      forall i | 0 <= i < |p| ensures p[i] == ConvertTableRow(t.rows[start + i]) {
        if i >= |page| {
          assert p[i] == PagesFrom(t, start + maxSize, maxSize)[i - |page|];
        }
      }
    }
  }
}
