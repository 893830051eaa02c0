# Gridly export and reconcile pipeline, in Dafny

This project models the export/reconcile cycle of the Gridly localization
service provider, an Unreal Engine editor plugin. It models these parts:

- **Row serialiser** (`FGridlyExporter::ConvertToJson`, both overloads). Each
  localized-text entry becomes one row: an id, an optional `path`, and the
  cells in a fixed order. The cells are the namespace cell, the native cell,
  the context cell, the metadata cells and the target-culture cells. Each
  data-table row becomes one row whose cells are its properties. Rows are
  values here, not JSON text.
- **Upload pump** (`ExportForTargetToGridly` and the two export response
  handlers). The entries are cut into chunks, with one queued request per
  chunk. From an idle start, one request is in flight at a time; a start
  while a request is in flight is not refused and adds a second one. A
  success fires the next request. A failure stops the pump and leaves the queue as it is. The last
  success ends the export and may trigger the CSV fetch.
- **CSV record parser** (`ParseCSVAndCreateRecords`, `RemoveNamespaceFromKey`).
  This covers the quote-aware tokenizer, the header pass that finds the
  "Record ID" and "Path" columns, and the record pass. That pass adds
  `(id, path)` records to `GridlyRecords`, with the namespace stripped from
  each id.
- **Reconciliation.** A remote record at a path the export still covers,
  whose id the export no longer produces, is turned into a delete identifier.
  The identifier has one of three formats.
- **Delete batching** (`DeleteRecordsFromGridly`, `OnDeleteRecordsResponse`).
  Identifiers are sent in batches of at most 1000. A completion counter
  decides when the summary is reported.

The modules follow the source:

| module | models |
|---|---|
| `Strings` | The engine string operations the code calls, with their case rules. |
| `Seqs` | `FilterMap`, `Flatten`, and chunking into consecutive slices. |
| `Csv` | The tokenizer, and a quoting writer that is its partner for round trips. |
| `CsvRecords` | The header and record passes. |
| `Reconcile` | The diff. |
| `DeleteBatches` | Dispatch, and the response counter. |
| `Exporter` | The serialiser. |
| `UploadPump` | The queue pump. |
| `Provider` | The provider state that ties one cycle together. |

The engine's FString `==`, `!=`, `StartsWith` and `Contains` ignore letter
case by default, so every such comparison here is `SameText` (ASCII
case-insensitive). This includes the record pass's test that drops the
header row (`NewRecord.Id != "Record ID"`). That test ignores case as the
code is written, although it reads like an exact comparison. The
`TMap<FString, …>` lookups (metadata mapping, localized strings) also ignore
case. The text-replacement in the context cell is case-sensitive, as the
code asks.

Paths below are relative to the repository root.

## Model

| member | source | states |
|---|---|---|
| CsvRecords.RemoveNamespaceFromKey | Source/GridlyEditor/Private/GridlyLocalizationServiceProvider.cpp:1076-1088 | A string without a comma is returned unchanged. Otherwise the result is exactly what follows the first comma, and the part before that comma holds no comma. |
| CsvRecords.RemoveNamespaceOfCombined | Source/GridlyEditor/Private/GridlyLocalizationServiceProvider.cpp:1076-1088 | Stripping `namespace,key` gives back `key` for any comma-free namespace, even when the key holds commas. |
| Csv.RunOpenQuote | Source/GridlyEditor/Private/GridlyLocalizationServiceProvider.cpp:744-747 | Outside quotes, a `"` enters quoted mode and is not kept. |
| Csv.RunCloseQuote | Source/GridlyEditor/Private/GridlyLocalizationServiceProvider.cpp:725-735 | Inside quotes, a `"` not followed by another leaves quoted mode and adds nothing. |
| Csv.RunDoubledQuote | Source/GridlyEditor/Private/GridlyLocalizationServiceProvider.cpp:725-731 | Inside quotes, `""` adds one literal `"` to the field and consumes both characters. |
| Csv.RunQuotedChar | Source/GridlyEditor/Private/GridlyLocalizationServiceProvider.cpp:737-740 | Inside quotes, every other character, including `,`, CR and LF, is plain field content. |
| Csv.RunDelimiter | Source/GridlyEditor/Private/GridlyLocalizationServiceProvider.cpp:748-752 | Outside quotes, `,` moves the current field to the line's field list and starts an empty one. |
| Csv.RunLineBreak | Source/GridlyEditor/Private/GridlyLocalizationServiceProvider.cpp:753-760 | Outside quotes, CR or LF ends the line. The pending field is added unless the line is completely empty. |
| Csv.RunQuotedBody | Source/GridlyEditor/Private/GridlyLocalizationServiceProvider.cpp:723-741 | A field written with doubled quotes and then closed reads back as exactly that field, whatever characters it holds. |
| Csv.EndPending | Source/GridlyEditor/Private/GridlyLocalizationServiceProvider.cpp:753-760 | Ending a pending written line records exactly that row's fields, unless the row is a lone empty field. |
| Csv.RunRow | Source/GridlyEditor/Private/GridlyLocalizationServiceProvider.cpp:719-787 | One written row moves the tokenizer from one line boundary to the next. It adds that row, plus an empty line for CRLF. |
| Csv.TokenizeTable | Source/GridlyEditor/Private/GridlyLocalizationServiceProvider.cpp:719-787 | Tokenizing any written table gives back exactly its rows, one extra empty line per CRLF, and no unterminated line. The one exception is a row that is a lone empty field. |
| Csv.TokenizeUnterminated | Source/GridlyEditor/Private/GridlyLocalizationServiceProvider.cpp:864-867 | A last line without a terminator is still returned, as the pending line. |
| CsvRecords.ColumnIndexIsLastMatch | Source/GridlyEditor/Private/GridlyLocalizationServiceProvider.cpp:764-776 | The column index found names the column (quotes trimmed, case ignored), and no later column does: the last match wins. |
| CsvRecords.ColumnIndexMissing | Source/GridlyEditor/Private/GridlyLocalizationServiceProvider.cpp:764-776 | The index is -1 exactly when no column of the header names the column. |
| CsvRecords.FindColumns | Source/GridlyEditor/Private/GridlyLocalizationServiceProvider.cpp:762-780 | The loop finds the last matching column for each name. It tests "Record ID" first, and each match overwrites the one before. |
| CsvRecords.HeaderColumns | Source/GridlyEditor/Private/GridlyLocalizationServiceProvider.cpp:764-776 | In the header `Record ID,Path`, the id column is 0 and the path column is 1. |
| CsvRecords.ParseScan | Source/GridlyEditor/Private/GridlyLocalizationServiceProvider.cpp:762-880 | The result is missing columns exactly when there is no terminated line, or when the first one lacks either column. There is at most one record per line, and no record has the header id. |
| CsvRecords.ParsedMembers | Source/GridlyEditor/Private/GridlyLocalizationServiceProvider.cpp:836-880 | A record is parsed exactly when some line has more fields than the larger column index, and that line's trimmed, namespace-stripped id is not "Record ID". |
| CsvRecords.NoTerminatorMeansMissingColumns | Source/GridlyEditor/Private/GridlyLocalizationServiceProvider.cpp:753-794 | A text with no CR or LF at all has no header line, so the parse stops with missing columns. |
| CsvRecords.HeaderWithoutColumn | Source/GridlyEditor/Private/GridlyLocalizationServiceProvider.cpp:762-794 | Only the first line is searched for the columns: when it lacks one, later lines do not help. |
| CsvRecords.FilterMapLinesOf | Source/GridlyEditor/Private/GridlyLocalizationServiceProvider.cpp:834-856 | The empty lines that CRLF endings add yield nothing. |
| CsvRecords.ViewLine | Source/GridlyEditor/Private/GridlyLocalizationServiceProvider.cpp:842-852 | A data line `[id, path]` yields its record, with the namespace removed from the id. |
| CsvRecords.HeaderLineDropped | Source/GridlyEditor/Private/GridlyLocalizationServiceProvider.cpp:848-852 | The header line itself yields no record. |
| CsvRecords.ParseViewExport | Source/GridlyEditor/Private/GridlyLocalizationServiceProvider.cpp:701-880 | Parsing a written two-column view export, with LF or CRLF endings, gives every record with its id namespace-stripped, in order. |
| Reconcile.SearchLocal | Source/GridlyEditor/Private/GridlyLocalizationServiceProvider.cpp:900-914 | The inner loop's flags say whether some local record has the remote record's path, and whether some local record has both its path and its id. Both compares ignore case, and the early `break` changes neither flag. |
| Reconcile.DeleteMembers | Source/GridlyEditor/Private/GridlyLocalizationServiceProvider.cpp:897-937 | An identifier is in the delete list exactly when some stale remote record formats to it. A remote record is stale when some local record has its path and none has both its path and its id. |
| Reconcile.RecordsToDeleteAppend | Source/GridlyEditor/Private/GridlyLocalizationServiceProvider.cpp:897-937 | The diff works record by record, so it keeps remote order. |
| Reconcile.UnknownPathKept | Source/GridlyEditor/Private/GridlyLocalizationServiceProvider.cpp:916-917 | A remote record at a path that no local record has is never deleted. |
| Reconcile.NoLocalDeletesNothing | Source/GridlyEditor/Private/GridlyLocalizationServiceProvider.cpp:900-917 | Against an empty local list no remote path is known, so no remote record is deleted. |
| Reconcile.MatchedKept | Source/GridlyEditor/Private/GridlyLocalizationServiceProvider.cpp:905-917 | A remote record that matches a local one on path and id is kept. |
| Reconcile.StaleDeleted | Source/GridlyEditor/Private/GridlyLocalizationServiceProvider.cpp:917-935 | A stale remote record is deleted by exactly its formatted identifier. |
| Reconcile.DeleteIdStripsToId | Source/GridlyEditor/Private/GridlyLocalizationServiceProvider.cpp:921-935 | For a non-empty, comma-free path, both delete formats strip back to the record id. |
| Reconcile.AllMatchedDeletesNothing | Source/GridlyEditor/Private/GridlyLocalizationServiceProvider.cpp:897-937 | When every remote record matches a local one, nothing is deleted. |
| Reconcile.EchoDeletesNothing | Source/GridlyEditor/Private/GridlyLocalizationServiceProvider.cpp:897-937 | Reading back exactly the local records deletes nothing. |
| Reconcile.ReadTwiceDeletesTwice | Source/GridlyEditor/Private/GridlyLocalizationServiceProvider.cpp:848-851 | Parsing appends, so a view parsed twice without a new export lists each stale record twice. |
| DeleteBatches.DeleteRecords | Source/GridlyEditor/Private/GridlyLocalizationServiceProvider.cpp:950-1026 | An empty list sends nothing and leaves every counter alone. Otherwise the completed count restarts at 0 and the total equals the number of batches. Joined, the batches are the list in order. Each batch holds 1 to 1000 identifiers, every batch but the last holds exactly 1000, and the deleted count grows by the list's length. |
| DeleteBatches.DeleteBatchCount | Source/GridlyEditor/Private/GridlyLocalizationServiceProvider.cpp:961-968 | The number of batches is the ceiling of N / 1000. |
| DeleteBatches.DeleteBatchAt | Source/GridlyEditor/Private/GridlyLocalizationServiceProvider.cpp:975-982 | Batch `b` is the slice `[b*1000, min(b*1000+1000, N))`. |
| DeleteBatches.DispatchBatches | Source/GridlyEditor/Private/GridlyLocalizationServiceProvider.cpp:970-1026 | The dispatch loop as written sends exactly the batches and counts `DeleteRecords` describes. |
| DeleteBatches.CopySlice | Source/GridlyEditor/Private/GridlyLocalizationServiceProvider.cpp:979-982 | The element-by-element copy is the slice `[start, end)`. |
| DeleteBatches.OnDeleteResponse | Source/GridlyEditor/Private/GridlyLocalizationServiceProvider.cpp:1029-1071 | An invalid request or response is reported and not counted. Any other response counts exactly one batch. A summary appears exactly when the count reaches the total. It is a success exactly for a transport success with status 204, and then carries the deleted count. |
| DeleteBatches.ReplaySummaries | Source/GridlyEditor/Private/GridlyLocalizationServiceProvider.cpp:1038-1070 | Over any sequence of responses, the counter advances by the number of valid ones. The summary appears exactly once if the count crosses the total, and never otherwise. |
| DeleteBatches.FullPassOneSummary | Source/GridlyEditor/Private/GridlyLocalizationServiceProvider.cpp:960-1070 | A pass in which every batch is answered reports its summary exactly once. |
| DeleteBatches.ThreeBatches | Source/GridlyEditor/Private/GridlyLocalizationServiceProvider.cpp:952-976 | 2500 identifiers go out as batches of 1000, 1000 and 500. |
| Exporter.Lookup | Source/GridlyEditor/Private/GridlyExporter.cpp:106 | A case-insensitive map lookup finds nothing exactly when no key matches; otherwise it returns the value of a matching key. |
| Exporter.RowIdReadsBack | Source/GridlyEditor/Private/GridlyExporter.cpp:40-54 | Removing the namespace from a written row id gives back the key, in all three id forms, when the namespace is comma-free. |
| Exporter.NamespacePlacement | Source/GridlyEditor/Private/GridlyExporter.cpp:17-71 | A row has a `path` exactly when the namespace is exported and the namespace column is "path"; that `path` is the namespace, and then there is no namespace cell. |
| Exporter.NamespaceOnce | Source/GridlyEditor/Private/GridlyExporter.cpp:56-71 | When the namespace is exported under a non-empty column id that no other part of the row uses, it appears exactly once. In "path" mode it is the row's `path` and no cell is in that column. Otherwise `path` is absent and the namespace is the first cell, the only one in that column. |
| Exporter.NativeCellInRow | Source/GridlyEditor/Private/GridlyExporter.cpp:73-86 | When no other column starts with the source prefix, the row has a cell in a source column exactly when the native culture has a Gridly code. That cell is the native string, even an empty one, in the prefix-plus-code column. |
| Exporter.ContextCellInRow | Source/GridlyEditor/Private/GridlyExporter.cpp:88-97 | When no other part of the row uses the context column, the row has a cell there exactly when the entry has a context and context export is on. That cell holds the source location with " - line " rewritten as ":". |
| Exporter.CellOrigin | Source/GridlyEditor/Private/GridlyExporter.cpp:56-151 | Every cell of a row is the namespace cell, the native cell or the context cell, or sits in a mapped metadata column or a target-prefixed column. |
| Exporter.ContextValueOfLine | Source/GridlyEditor/Private/GridlyExporter.cpp:94-95 | `File - line 42` is written as `File:42`. |
| Exporter.MetadataCells | Source/GridlyEditor/Private/GridlyExporter.cpp:101-132 | Without context, metadata export or a valid metadata object, there are no metadata cells. Otherwise there is at most one per metadata pair. |
| Exporter.MetadataCellMembers | Source/GridlyEditor/Private/GridlyExporter.cpp:101-132 | A metadata cell exists exactly for a mapped key. It sits in the mapped column and holds the value as text, as `Atoi` of it, or no value, according to the column type. |
| Exporter.MetadataNumberRoundTrip | Source/GridlyEditor/Private/GridlyExporter.cpp:120-123 | A number column reads back every integer written in decimal. |
| Exporter.TargetCells | Source/GridlyEditor/Private/GridlyExporter.cpp:134-151 | Without target translations there are no target cells. Otherwise there is at most one per target culture. |
| Exporter.TargetCellMembers | Source/GridlyEditor/Private/GridlyExporter.cpp:134-151 | There is a target cell for a culture exactly when it is not the native culture, has a localized string, and converts. It sits in the target prefix plus code column and holds that string. |
| Exporter.TargetCellsInOrder | Source/GridlyEditor/Private/GridlyExporter.cpp:136-150 | Target cells follow the order of the target-culture list. |
| Exporter.AllTranslated | Source/GridlyEditor/Private/GridlyExporter.cpp:134-151 | When every target culture is translated, cell j of the target cells is culture j's string in that culture's target column, one for one, in list order. |
| Exporter.CellLayoutHead | Source/GridlyEditor/Private/GridlyExporter.cpp:56-97 | The namespace cell comes first, then the native cell, then the context cell, each at its computed position. |
| Exporter.CellLayoutTail | Source/GridlyEditor/Private/GridlyExporter.cpp:99-156 | After the single cells come the metadata cells, then the target cells, which end the row. |
| Exporter.ConvertToJson | Source/GridlyEditor/Private/GridlyExporter.cpp:23-159 | There is exactly one row per entry, in entry order, and each row depends on its own entry only. |
| Exporter.ConvertToJsonAppend | Source/GridlyEditor/Private/GridlyExporter.cpp:23-159 | Converting a list in two parts gives the rows of converting it whole. |
| Exporter.ConvertEachFlatten | Source/GridlyEditor/Private/GridlyExporter.cpp:23-159 | Converting the chunks one request at a time sends exactly the rows of converting all entries at once. |
| Exporter.TablePath | Source/GridlyEditor/Private/GridlyExporter.cpp:204-227 | A data-table row's `path` is the text of its last `_path` property, or "" when it has none. |
| Exporter.TableRowCellMembers | Source/GridlyEditor/Private/GridlyExporter.cpp:211-275 | A data-table row's cells are exactly its single-element properties other than `_path`, in property order. |
| Exporter.PagesCoverTable | Source/GridlyEditor/Private/GridlyExporter.cpp:170-194 | Paging with any positive page size yields every row from `start` on, each once, in order. |
| Exporter.PagesAdjacent | Source/GridlyEditor/Private/GridlyExporter.cpp:189-194 | A full page is followed by the next page with no gap and no overlap. Together they are rows `start` to the end of the second page, each once, in order. |
| UploadPump.LocalRecords | Source/GridlyEditor/Private/GridlyLocalizationServiceProvider.cpp:621-627 | The local records are `(Key, Namespace)` of every entry, in export order. |
| Seqs.ChunksFront | Source/GridlyEditor/Private/GridlyLocalizationServiceProvider.cpp:611-615 | Taking `min(size, remaining)` entries off the front, until none are left, cuts the same chunks as `Chunks`: the first chunk is that front, and the rest are the chunks of what remains. |
| UploadPump.LocalRecordsOfChunks | Source/GridlyEditor/Private/GridlyLocalizationServiceProvider.cpp:613-627 | Local records added chunk by chunk are those of the whole entry list. |
| UploadPump.Requests | Source/GridlyEditor/Private/GridlyLocalizationServiceProvider.cpp:613-620 | There is one request per chunk, in chunk order. Each is bound to the export's handler and carries that chunk's rows. |
| UploadPump.RequestsCarryAllRows | Source/GridlyEditor/Private/GridlyLocalizationServiceProvider.cpp:613-620 | Between them, the requests carry exactly the rows of all the chunks' entries. |
| UploadPump.Start | Source/GridlyEditor/Private/GridlyLocalizationServiceProvider.cpp:601-647 | The local records are emptied first. When the entries cannot be gathered, nothing else happens. Otherwise the chunk requests are appended behind whatever was queued, the local records are rebuilt, and the update count restarts at 0. The queue's head is fired exactly when the queue is not empty, and firing marks the export in progress. |
| UploadPump.LeftoversFireFirst | Source/GridlyEditor/Private/GridlyLocalizationServiceProvider.cpp:620-635 | The queue is not emptied at the start, so a request left by a failed export is fired before any of the new ones. |
| UploadPump.StartFromIdle | Source/GridlyEditor/Private/GridlyLocalizationServiceProvider.cpp:613-645 | From an empty queue, the first chunk's request is fired and the others wait behind it, in order. |
| UploadPump.OnExportResponse | Source/GridlyEditor/Private/GridlyLocalizationServiceProvider.cpp:429-598 | A 200 or 201 adds the returned array length to the count. If the queue is not empty, it fires exactly the next queued request. If the queue is empty, it ends the export, reports the count, and fetches the CSV: always with the translations handler, and with the native handler only when sync is on. Any other status, or a transport failure, ends the export without dequeuing. |
| UploadPump.DrainFifo | Source/GridlyEditor/Private/GridlyLocalizationServiceProvider.cpp:447-452 | While requests remain queued, successive successes fire them oldest first. The count grows by what the responses reported, and no fetch happens. |
| UploadPump.DrainToEnd | Source/GridlyEditor/Private/GridlyLocalizationServiceProvider.cpp:447-471 | Answering every queued request, then the one in flight, drains the queue in order. It leaves nothing pending and fetches the CSV as the handler decides. |
| UploadPump.Deliver | Source/GridlyEditor/Private/GridlyLocalizationServiceProvider.cpp:429-598 | A response removes the request it answers from the requests in flight and runs the handler that request was queued with. The CSV is fetched exactly when the response is accepted, the queue is empty, and that request's handler is the translations one or sync is on. The next request goes in flight exactly when the response is accepted and the queue is not empty. |
| UploadPump.RespondKeepsSerial | Source/GridlyEditor/Private/GridlyLocalizationServiceProvider.cpp:447-499 | If the in-progress flag is set exactly when one request is in flight, every sequence of responses keeps it so. |
| UploadPump.IdleStartIsSerial | Source/GridlyEditor/Private/GridlyLocalizationServiceProvider.cpp:633-651 | An export started while no request is in flight keeps at most one request in flight while responses arrive. `HasRequestsPending`'s flag is set exactly when one is. |
| UploadPump.BusyStartOverlaps | Source/GridlyEditor/Private/GridlyLocalizationServiceProvider.cpp:633-651 | A start is not refused while a request is in flight: a one-chunk export then puts a second request in flight. Answering the first clears the flag, so `HasRequestsPending` is false while the second is still outstanding. |
| UploadPump.LastResponseEndsExport | Source/GridlyEditor/Private/GridlyLocalizationServiceProvider.cpp:553-569 | The success that finds the queue empty leaves nothing pending. |
| UploadPump.FailureKeepsQueue | Source/GridlyEditor/Private/GridlyLocalizationServiceProvider.cpp:474-500 | A failed response leaves the queue as it was. Requests stay pending exactly when some were still queued. |
| UploadPump.ChunkedRows | Source/GridlyEditor/Private/GridlyLocalizationServiceProvider.cpp:613-618 | The chunk requests carry, between them, the rows of the whole entry list. |
| UploadPump.FullExport | Source/GridlyEditor/Private/GridlyLocalizationServiceProvider.cpp:601-652 | In a fully successful export from an empty queue, the requests fired carry exactly the rows of all entries, in order. At the end nothing is pending, the count is the sum of the responses, and the CSV is fetched as the handler decides. |
| Provider.ReconcilesSinceStart | Source/GridlyEditor/Private/GridlyLocalizationServiceProvider.cpp:601-606 | `GridlyRecords` is emptied at a start, and also by the translations-export command before its dialog. After a start and any later responses with no such command in between, a fetched view is reconciled against the new local records together with exactly the views parsed since that start, whatever was fetched before it. |
| Provider.RequestedClearDeletesNothing | Source/GridlyEditor/Private/GridlyLocalizationServiceProvider.cpp:503-510 | The translations-export command empties both record lists before its dialog, whatever the answer. A view fetched afterwards, with no start in between, is reconciled against no local records and sends no delete. |
| Provider.RunAccumulates | Source/GridlyEditor/Private/GridlyLocalizationServiceProvider.cpp:836-880 | With no translations-export command among them, export responses and fetched views only append parsed records to `GridlyRecords`, and the local records stay those of the last start. |
| Provider.OnCsvResponse | Source/GridlyEditor/Private/GridlyLocalizationServiceProvider.cpp:685-698 | A failed fetch, or a header without the columns, changes nothing and sends nothing. Otherwise the parsed records are appended to the remote list, the delete batches joined are the diff of all remote records against the local ones, and the deleted count grows by its length. |
| Provider.ViewReadsBackAsLocal | Source/GridlyEditor/Private/GridlyExporter.cpp:40-71 | With the namespace as `path`, the view of the exported rows reads back as exactly the export's local records. |
| Provider.EchoedLocalRecords | Source/GridlyEditor/Private/GridlyLocalizationServiceProvider.cpp:894-947 | A fetched view that parses to exactly the local records, on an empty remote list, deletes nothing. |
| Provider.EchoedExportDeletesNothing | Source/GridlyEditor/Private/GridlyLocalizationServiceProvider.cpp:601-947 | Exporting entries and then fetching the view those rows produce sends no delete, changes no counter, and leaves the remote list equal to the local records. |
| Provider.StaleRecordDispatched | Source/GridlyEditor/Private/GridlyLocalizationServiceProvider.cpp:917-1023 | A view holding a single stale record deletes exactly that record's identifier, and the deleted count grows by one. |
| Provider.DeleteIdIsRowId | Source/GridlyEditor/Private/GridlyLocalizationServiceProvider.cpp:921-935 | For a combined id, when the namespace starts with "blueprints/" or does not contain it at all, the delete step formats the very id the exporter wrote. |
| Provider.MidPathBlueprintsMismatch | Source/GridlyEditor/Private/GridlyLocalizationServiceProvider.cpp:927-934 | A namespace that contains "blueprints/" but does not start with it gets `,key` from the exporter and `namespace,key` from the delete step. |
| Provider.EmptyNamespaceMismatch | Source/GridlyEditor/Private/GridlyLocalizationServiceProvider.cpp:922-925 | With an empty namespace in combined mode, the exporter writes `,key` and the delete step formats the bare key. |

## Left out

- **UI.** Dialogs, slow tasks, toolbar commands and the commandlet checks are not modelled. The one dialog that decides something is the translations-export confirmation. The command empties both record lists before that dialog (`Provider.TranslationsRequested`), and the answer only decides whether an export starts (`Provider.StartExport`). The summaries and reports are values (`Notice`, `Report`).
- **Network and JSON text.** HTTP request construction, URLs, headers and the JSON text of payloads are left out. Payloads are `Row` values and identifier lists. A response is its success flag, status code and the length of its returned array.
- **Threading.** Callbacks are assumed to arrive one at a time, in some order.
- **The import/download flow and the status stubs.** These are engine operations with little logic of their own.
- **Culture conversion.** `FGridlyCultureConverter::ConvertToGridly` and the target-culture list come from settings I/O that is not part of this model. The converter is a parameter (`CultureConverter`) and the list is a settings field.
- **Manifest lookup.** The `FLocTextHelper` lookup is not modelled. Each entry carries its context, or none, as input.
- **Reflection and floating point in the data-table overload.** `TFieldIterator`, `DataTableUtils` and the enum, numeric and bool branches are not modelled. A property is its name, `ArrayDim`, the value the writer emits, and its text. Doubles are `real`. The JSON writer's `Close` is assumed to succeed.
- **DeleteBatches.DeleteBatchCount: uses the exact integer ceiling.** The source computes `ceil(N / 1000)` in single-precision float, which agrees with the integer ceiling for any realistic N.
- **Integer widths.** `int32` counters and `size_t` counts are unbounded here. Overflow of `BatchIndex * 1000` and of the update and delete counts is not modelled.
- **Strings.Atoi: unbounded.** It models `FCString::Atoi` for inputs whose value fits. It does not model the out-of-range behaviour of C `atoi`.
- **UploadPump.Start: requires maxPerRequest >= 1.** With a maximum of 0 the source's chunk loop never ends, so that case is excluded rather than modelled.
- **Provider.StaleRecordDispatched: follows one stale record only.** Longer views follow from `Reconcile.DeleteMembers` and `DeleteBatches.DeleteRecords`.
- **The provider object itself.** Its fields are an immutable `Provider` value with transition functions. The requests the HTTP module has in flight are a list beside the pump (`UploadPump.Link`), each answered by the handler it was queued with.
