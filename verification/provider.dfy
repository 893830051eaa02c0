/**
  The provider's export/reconcile cycle as one state machine:
  `ExportForTargetToGridly` starts the upload pump and forgets the remote
  records of the previous cycle; `OnGridlyCSVResponseReceived` parses the
  fetched view, appends its records to `GridlyRecords`, reconciles them
  against `UERecords` and dispatches the deletes.

  The lemmas at the end follow one export through the whole cycle, and
  compare the identifiers the exporter writes with those the delete step
  formats.
 */
module Provider {
  import opened Strings
  import opened Seqs
  import Csv
  import opened CsvRecords
  import opened Reconcile
  import opened DeleteBatches
  import opened Exporter
  import opened UploadPump

  /** The provider fields of the cycle: the pump, `GridlyRecords`, and the delete counters. */
  datatype Provider = Provider(pump: Pump, gridlyRecords: seq<Record>, deletes: DeleteState)

  datatype StartedExport = StartedExport(provider: Provider, fired: Option<Request>)

  /** `ExportForTargetToGridly`: `GridlyRecords` is emptied along with `UERecords`, then the pump starts. */
  function StartExport(pv: Provider, gathered: Option<seq<Entry>>, maxPerRequest: nat, h: Handler,
                       s: Settings, convert: CultureConverter): (r: StartedExport)
    requires maxPerRequest >= 1
    ensures r.provider.gridlyRecords == []
    ensures r.provider.deletes == pv.deletes
    ensures r.provider.pump == Start(pv.pump, gathered, maxPerRequest, h, s, convert).pump
    ensures r.fired == Start(pv.pump, gathered, maxPerRequest, h, s, convert).fired
  {
    var st := Start(pv.pump, gathered, maxPerRequest, h, s, convert);
    StartedExport(Provider(st.pump, [], pv.deletes), st.fired)
  }

  /** The fetch of the view's CSV: failed (or no valid response), or the text received. */
  datatype CsvReply = CsvFailed | CsvReceived(content: string)

  datatype CsvHandled = CsvHandled(provider: Provider, batches: seq<seq<string>>)

  /**
    `OnGridlyCSVResponseReceived` and the rest of `ParseCSVAndCreateRecords`:
    nothing happens when the fetch failed or the header lacks a column;
    otherwise the parsed records are appended to the remote list, every
    remote record gathered since the export started is reconciled against
    the local records, and the delete identifiers are dispatched.
   */
  function OnCsvResponse(pv: Provider, reply: CsvReply): (r: CsvHandled)
    ensures reply.CsvFailed? ==> r == CsvHandled(pv, [])
    ensures reply.CsvReceived? && ParseRecords(reply.content).MissingColumns? ==> r == CsvHandled(pv, [])
    ensures reply.CsvReceived? && ParseRecords(reply.content).Parsed? ==>
      var remote := pv.gridlyRecords + ParseRecords(reply.content).records;
      var ids := RecordsToDelete(remote, pv.pump.ueRecords);
      && r.provider.pump == pv.pump
      && r.provider.gridlyRecords == remote
      && Flatten(r.batches) == ids
      && r.provider.deletes.deleted == pv.deletes.deleted + |ids|
      && (|ids| == 0 ==> r.provider.deletes == pv.deletes)
  {
    match reply
    case CsvFailed => CsvHandled(pv, [])
    case CsvReceived(content) =>
      match ParseRecords(content)
      case MissingColumns => CsvHandled(pv, [])
      case Parsed(records) =>
        var remote := pv.gridlyRecords + records;
        var d := DeleteRecords(pv.deletes, RecordsToDelete(remote, pv.pump.ueRecords));
        CsvHandled(Provider(pv.pump, remote, d.state), d.batches)
  }

  /**
    What reaches the provider while an export runs: an export response,
    the fetched CSV, or the translations-export command, which empties
    `UERecords` and `GridlyRecords` before its confirmation dialog, whatever
    the answer.
   */
  datatype Event =
    | ExportReply(h: Handler, syncRecords: bool, success: bool, code: int, received: nat)
    | CsvArrived(reply: CsvReply)
    | TranslationsRequested

  function Step(pv: Provider, ev: Event): Provider {
    match ev
    case ExportReply(h, syncRecords, success, code, received) =>
      pv.(pump := OnExportResponse(pv.pump, h, syncRecords, success, code, received).pump)
    case CsvArrived(reply) => OnCsvResponse(pv, reply).provider
    case TranslationsRequested => pv.(pump := pv.pump.(ueRecords := []), gridlyRecords := [])
  }

  /** No translations-export command among the events. */
  predicate Undisturbed(events: seq<Event>) {
    forall i :: 0 <= i < |events| ==> !events[i].TranslationsRequested?
  }

  function Run(pv: Provider, events: seq<Event>): Provider
    decreases |events|
  {
    if |events| == 0 then pv else Run(Step(pv, events[0]), events[1..])
  }

  /** The records a CSV event adds to `GridlyRecords`: those of a received view with both columns. */
  function ParsedOf(ev: Event): seq<Record> {
    if ev.CsvArrived? && ev.reply.CsvReceived? && ParseRecords(ev.reply.content).Parsed?
    then ParseRecords(ev.reply.content).records
    else []
  }

  function ParsedIn(events: seq<Event>): seq<Record> {
    if |events| == 0 then [] else ParsedOf(events[0]) + ParsedIn(events[1..])
  }

  /**
    Without a translations-export command the remote list only grows:
    every parsed view is appended to what was there, and the local records
    stay those of the last start.
   */
  lemma {:induction false} RunAccumulates(pv: Provider, events: seq<Event>)
    ensures Undisturbed(events) ==> Run(pv, events).gridlyRecords == pv.gridlyRecords + ParsedIn(events)
    ensures Undisturbed(events) ==> Run(pv, events).pump.ueRecords == pv.pump.ueRecords
    decreases |events|
  {
    if |events| > 0 && Undisturbed(events) {
      var next := Step(pv, events[0]);
      assert Run(pv, events) == Run(next, events[1..]);
      UndisturbedTail(events);
      StepAccumulates(pv, events[0]);
      RunAccumulates(next, events[1..]);
      assert ParsedIn(events) == ParsedOf(events[0]) + ParsedIn(events[1..]);
    }
  }

  lemma UndisturbedTail(events: seq<Event>)
    requires |events| > 0 && Undisturbed(events)
    ensures !events[0].TranslationsRequested? && Undisturbed(events[1..])
  {
    forall i | 0 <= i < |events[1..]| ensures !events[1..][i].TranslationsRequested? {
      assert events[1..][i] == events[i + 1];
    }
  }

  /**
    A response or a fetched view appends what it parsed, if anything, and
    leaves the local records alone; the translations-export command empties
    both lists.
   */
  lemma StepAccumulates(pv: Provider, ev: Event)
    ensures !ev.TranslationsRequested? ==> Step(pv, ev).gridlyRecords == pv.gridlyRecords + ParsedOf(ev)
    ensures !ev.TranslationsRequested? ==> Step(pv, ev).pump.ueRecords == pv.pump.ueRecords
    ensures ev.TranslationsRequested? ==> Step(pv, ev).gridlyRecords == [] && Step(pv, ev).pump.ueRecords == []
  {
    match ev
    case ExportReply(h, syncRecords, success, code, received) =>
      assert ParsedOf(ev) == [];
    case CsvArrived(reply) =>
      if reply.CsvFailed? || ParseRecords(reply.content).MissingColumns? {
        assert ParsedOf(ev) == [];
      }
    case TranslationsRequested =>
  }

  /**
    `GridlyRecords` is emptied when an export starts and by the
    translations-export command. Unless that command comes in between, the
    view received after a start is reconciled, against the new local
    records, together with exactly the views parsed since that start,
    whatever was fetched before it.
   */
  lemma ReconcilesSinceStart(pv: Provider, entries: seq<Entry>, maxPerRequest: nat, h: Handler,
                             s: Settings, convert: CultureConverter, events: seq<Event>, content: string)
    requires maxPerRequest >= 1
    ensures var before := Run(StartExport(pv, Some(entries), maxPerRequest, h, s, convert).provider, events);
      Undisturbed(events) && ParseRecords(content).Parsed? ==>
        Flatten(OnCsvResponse(before, CsvReceived(content)).batches)
          == RecordsToDelete(ParsedIn(events) + ParseRecords(content).records, LocalRecords(entries))
  {
    var started := StartExport(pv, Some(entries), maxPerRequest, h, s, convert).provider;
    RunAccumulates(started, events);
    assert [] + ParsedIn(events) == ParsedIn(events);
  }

  /**
    The translations-export command empties the local records before its
    dialog, even when the export is then declined: a view fetched after it,
    with no start in between, is reconciled against no local records and
    deletes nothing.
   */
  lemma RequestedClearDeletesNothing(pv: Provider, events: seq<Event>, content: string)
    ensures var before := Run(Step(pv, TranslationsRequested), events);
      Undisturbed(events) ==>
        && before.pump.ueRecords == []
        && OnCsvResponse(before, CsvReceived(content)).batches == []
        && OnCsvResponse(before, CsvReceived(content)).provider.deletes == before.deletes
  {
    var cleared := Step(pv, TranslationsRequested);
    StepAccumulates(pv, TranslationsRequested);
    RunAccumulates(cleared, events);
    if Undisturbed(events) {
      var before := Run(cleared, events);
      assert before.pump.ueRecords == [];
      NoLocalRecords(before, content);
    }
  }

  /** A fetched view reconciled against no local records sends no delete. */
  lemma NoLocalRecords(pv: Provider, content: string)
    requires pv.pump.ueRecords == []
    ensures OnCsvResponse(pv, CsvReceived(content)).batches == []
    ensures OnCsvResponse(pv, CsvReceived(content)).provider.deletes == pv.deletes
  {
    if ParseRecords(content).Parsed? {
      NoLocalDeletesNothing(pv.gridlyRecords + ParseRecords(content).records);
    }
  }

  // ---------------------------------------------------------------------
  // One export through the whole cycle
  // ---------------------------------------------------------------------

  /** The records the Gridly view holds after rows are written: each row's id and path. */
  function ViewOf(rows: seq<Row>): (r: seq<Record>)
    ensures |r| == |rows|
    ensures forall i :: 0 <= i < |rows| ==> r[i].id == rows[i].id
  {
    seq(|rows|, i requires 0 <= i < |rows| => Record(rows[i].id, if rows[i].path.Some? then rows[i].path.value else ""))
  }

  /** What an entry needs for its row to come back unchanged through the view's CSV. */
  predicate RoundTrips(s: Settings, e: Entry) {
    && (s.combinedId ==> ',' !in e.namespace || ContainsText(e.namespace, BlueprintsFolder))
    && (!s.combinedId ==> ',' !in e.key)
    && Plain(RowId(s, e)) && Plain(e.namespace)
    && !IsHeaderId(e.key)
  }

  /** With the namespace as path, reading the view back gives exactly the export's local records. */
  lemma ViewReadsBackAsLocal(s: Settings, convert: CultureConverter, includeTargets: bool, entries: seq<Entry>)
    requires ExportsNamespace(s) && PathAsNamespace(s)
    requires forall i :: 0 <= i < |entries| ==> RoundTrips(s, entries[i])
    ensures var view := ViewOf(ConvertToJson(s, convert, includeTargets, entries));
      Readable(view) && ReadBack(view) == LocalRecords(entries)
  {
    var rows := ConvertToJson(s, convert, includeTargets, entries);
    var view := ViewOf(rows);
    forall i | 0 <= i < |entries|
      ensures view[i] == Record(RowId(s, entries[i]), entries[i].namespace)
      ensures ReadBack(view)[i] == LocalRecords(entries)[i]
    {
      NamespacePlacement(s, convert, includeTargets, entries[i]);
      RowIdReadsBack(s, entries[i]);
    }
  }

  /**
    Exporting entries with the namespace as path, then reading back the
    view those rows produce, deletes nothing: every record read back
    matches the local record it came from.
   */
  lemma EchoedExportDeletesNothing(pv: Provider, entries: seq<Entry>, maxPerRequest: nat, h: Handler,
                                   s: Settings, convert: CultureConverter, crlf: bool)
    requires maxPerRequest >= 1
    requires ExportsNamespace(s) && PathAsNamespace(s)
    requires forall i :: 0 <= i < |entries| ==> RoundTrips(s, entries[i])
    ensures var started := StartExport(pv, Some(entries), maxPerRequest, h, s, convert).provider;
      var view := ViewOf(ConvertToJson(s, convert, IncludesTargets(h), entries));
      var handled := OnCsvResponse(started, CsvReceived(Csv.EncodeTable(ViewTable(view), crlf)));
      handled.batches == [] && handled.provider.deletes == pv.deletes
      && handled.provider.gridlyRecords == LocalRecords(entries)
  {
    var started := StartExport(pv, Some(entries), maxPerRequest, h, s, convert).provider;
    var view := ViewOf(ConvertToJson(s, convert, IncludesTargets(h), entries));
    assert started.pump.ueRecords == LocalRecords(entries);
    ViewReadsBackAsLocal(s, convert, IncludesTargets(h), entries);
    ParseViewExport(view, crlf);
    EchoedLocalRecords(started, Csv.EncodeTable(ViewTable(view), crlf));
  }

  /** A fetched view that parses to exactly the local records, on a fresh remote list, deletes nothing. */
  lemma EchoedLocalRecords(pv: Provider, content: string)
    requires pv.gridlyRecords == [] && ParseRecords(content) == Parsed(pv.pump.ueRecords)
    ensures var handled := OnCsvResponse(pv, CsvReceived(content));
      handled.batches == [] && handled.provider.deletes == pv.deletes
      && handled.provider.gridlyRecords == pv.pump.ueRecords
  {
    assert pv.gridlyRecords + pv.pump.ueRecords == pv.pump.ueRecords;
    EchoDeletesNothing(pv.pump.ueRecords);
  }

  /** A record the view still holds for a renamed key, at an exported path, is deleted, and only it. */
  lemma StaleRecordDispatched(pv: Provider, stale: Record, crlf: bool)
    requires pv.gridlyRecords == [] && Stale(stale, pv.pump.ueRecords)
    requires Readable([stale]) && ReadBack([stale]) == [stale]
    ensures var handled := OnCsvResponse(pv, CsvReceived(Csv.EncodeTable(ViewTable([stale]), crlf)));
      Flatten(handled.batches) == [DeleteId(stale)] && handled.provider.deletes.deleted == pv.deletes.deleted + 1
  {
    ParseViewExport([stale], crlf);
    assert pv.gridlyRecords + ReadBack([stale]) == [stale];
    StaleDeleted(stale, pv.pump.ueRecords);
  }

  // ---------------------------------------------------------------------
  // Written ids against delete ids
  // ---------------------------------------------------------------------

  /**
    For a combined id whose namespace is a plain folder, or starts with
    "blueprints/", the delete step formats the very id the exporter wrote.
   */
  lemma DeleteIdIsRowId(s: Settings, e: Entry)
    requires s.combinedId && |e.namespace| > 0
    requires StartsWithText(e.namespace, BlueprintsFolder) || !ContainsText(e.namespace, BlueprintsFolder)
    ensures DeleteId(Record(e.key, e.namespace)) == RowId(s, e)
  {
    if StartsWithText(e.namespace, BlueprintsFolder) {
      StartsWithImpliesContains(e.namespace, BlueprintsFolder);
    }
  }

  /**
    The two "blueprints/" tests differ: for a namespace that contains the
    folder but does not start with it, the exporter writes `,key` while the
    delete step formats `namespace,key`, so such a stale record is not
    removed.
   */
  lemma MidPathBlueprintsMismatch(s: Settings, e: Entry)
    requires s.combinedId && |e.namespace| > 0
    requires ContainsText(e.namespace, BlueprintsFolder) && !StartsWithText(e.namespace, BlueprintsFolder)
    ensures DeleteId(Record(e.key, e.namespace)) != RowId(s, e)
  {
    assert |DeleteId(Record(e.key, e.namespace))| == |e.namespace| + 1 + |e.key|;
  }

  /**
    An empty namespace in combined mode: the exporter writes `,key`, the
    delete step formats the bare key.
   */
  lemma EmptyNamespaceMismatch(s: Settings, e: Entry)
    requires s.combinedId && e.namespace == []
    ensures DeleteId(Record(e.key, e.namespace)) != RowId(s, e)
  {
    assert |RowId(s, e)| == |e.key| + 1;
  }
}
