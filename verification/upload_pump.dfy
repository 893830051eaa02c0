/**
  The export upload pump: `ExportForTargetToGridly` cuts the entries into
  chunks, queues one request per chunk and fires the first; each accepted
  response fires the next queued request, and the response that finds the
  queue empty ends the export and may trigger the CSV fetch. At most one
  request is in flight while the export runs from an idle start, and a
  failed response stops the pump with the remaining requests still queued.
  A start while a request is in flight is not refused.

  The state is a value and every handler a function from state to state;
  `Link` at the end adds the requests in flight, each answered by the
  handler it was queued with.
 */
module UploadPump {
  import opened Strings
  import opened Seqs
  import opened CsvRecords
  import opened Exporter

  /** The completion handler a request is bound to when it is queued. */
  datatype Handler = NativeHandler | TranslationsHandler

  /** Only the translations export includes the target-culture cells. */
  function IncludesTargets(h: Handler): bool {
    h == TranslationsHandler
  }

  /** A queued export request: its handler and the rows of its payload. */
  datatype Request = Request(handler: Handler, rows: seq<Row>)

  /**
    `ExportFromTargetRequestQueue`, `bExportRequestInProgress`,
    `ExportForTargetEntriesUpdated` and `UERecords`.
   */
  datatype Pump = Pump(queue: seq<Request>, inProgress: bool, updated: nat, ueRecords: seq<Record>)

  /** `HasRequestsPending`. */
  predicate HasRequestsPending(p: Pump) {
    |p.queue| > 0 || p.inProgress
  }

  /** The local records of an export: `(Key, Namespace)` of every entry, in export order. */
  function LocalRecords(entries: seq<Entry>): (r: seq<Record>)
    ensures |r| == |entries|
    ensures forall i :: 0 <= i < |entries| ==> r[i].id == entries[i].key && r[i].path == entries[i].namespace
  {
    if |entries| == 0 then [] else [Record(entries[0].key, entries[0].namespace)] + LocalRecords(entries[1..])
  }

  lemma {:induction false} LocalRecordsAppend(a: seq<Entry>, b: seq<Entry>)
    ensures LocalRecords(a + b) == LocalRecords(a) + LocalRecords(b)
  {
    if |a| == 0 {
      assert a + b == b;
    } else {
      assert (a + b)[1..] == a[1..] + b;
      LocalRecordsAppend(a[1..], b);
    }
  }

  /** The local records added chunk by chunk are those of the whole entry list. */
  lemma {:induction false} LocalRecordsOfChunks(chunks: seq<seq<Entry>>)
    ensures Flatten(seq(|chunks|, i requires 0 <= i < |chunks| => LocalRecords(chunks[i])))
      == LocalRecords(Flatten(chunks))
  {
    if |chunks| > 0 {
      var per := seq(|chunks|, i requires 0 <= i < |chunks| => LocalRecords(chunks[i]));
      var rest := seq(|chunks| - 1, i requires 0 <= i < |chunks| - 1 => LocalRecords(chunks[1..][i]));
      assert per[1..] == rest;
      LocalRecordsOfChunks(chunks[1..]);
      LocalRecordsAppend(chunks[0], Flatten(chunks[1..]));
    }
  }

  /** One request per chunk, in chunk order, each carrying that chunk's rows. */
  function Requests(h: Handler, s: Settings, convert: CultureConverter, chunks: seq<seq<Entry>>): (r: seq<Request>)
    ensures |r| == |chunks|
    ensures forall i :: 0 <= i < |chunks| ==>
      r[i] == Request(h, ConvertToJson(s, convert, IncludesTargets(h), chunks[i]))
  {
    if |chunks| == 0 then []
    else [Request(h, ConvertToJson(s, convert, IncludesTargets(h), chunks[0]))] + Requests(h, s, convert, chunks[1..])
  }

  function RowsOf(requests: seq<Request>): seq<Row> {
    if |requests| == 0 then [] else requests[0].rows + RowsOf(requests[1..])
  }

  lemma {:induction false} RowsOfAppend(a: seq<Request>, b: seq<Request>)
    ensures RowsOf(a + b) == RowsOf(a) + RowsOf(b)
  {
    if |a| == 0 {
      assert a + b == b;
    } else {
      assert (a + b)[1..] == a[1..] + b;
      RowsOfAppend(a[1..], b);
    }
  }

  /** The requests of a chunked export carry, between them, exactly the rows of the whole export. */
  lemma {:induction false} RequestsCarryAllRows(h: Handler, s: Settings, convert: CultureConverter, chunks: seq<seq<Entry>>)
    ensures RowsOf(Requests(h, s, convert, chunks)) == ConvertToJson(s, convert, IncludesTargets(h), Flatten(chunks))
  {
    if |chunks| > 0 {
      RequestsCarryAllRows(h, s, convert, chunks[1..]);
      ConvertToJsonAppend(s, convert, IncludesTargets(h), chunks[0], Flatten(chunks[1..]));
    }
  }

  datatype Started = Started(pump: Pump, fired: Option<Request>)

  /** The queue before `Dequeue` takes its head: the fired request, then what stays queued. */
  function Sent(fired: Option<Request>, queue: seq<Request>): seq<Request> {
    (if fired.Some? then [fired.value] else []) + queue
  }

  /**
    `ExportForTargetToGridly`. `UERecords` is emptied first. When the entries
    cannot be gathered (`None`) nothing else happens. Otherwise the entries
    are cut into chunks of `min(maxPerRequest, remaining)` and one request
    per chunk is appended to the queue, which is NOT emptied first; the
    local records are the entries' `(Key, Namespace)` pairs, the update
    count restarts at 0, and the head of the queue, if any, is fired.
   */
  function Start(p: Pump, gathered: Option<seq<Entry>>, maxPerRequest: nat, h: Handler,
                 s: Settings, convert: CultureConverter): (r: Started)
    requires maxPerRequest >= 1
    ensures gathered.None? ==> r == Started(p.(ueRecords := []), None)
    ensures gathered.Some? ==>
      && r.pump.ueRecords == LocalRecords(gathered.value)
      && r.pump.updated == 0
      && Sent(r.fired, r.pump.queue)
         == p.queue + Requests(h, s, convert, Chunks(gathered.value, maxPerRequest))
      && (r.fired.Some? <==> |p.queue| > 0 || |gathered.value| > 0)
      && r.pump.inProgress == (p.inProgress || r.fired.Some?)
  {
    match gathered
    case None => Started(p.(ueRecords := []), None)
    case Some(entries) =>
      var queue := p.queue + Requests(h, s, convert, Chunks(entries, maxPerRequest));
      var q := p.(queue := queue, updated := 0, ueRecords := LocalRecords(entries));
      if |queue| == 0 then Started(q, None)
      else
        assert Sent(Some(queue[0]), queue[1..]) == queue;
        Started(q.(queue := queue[1..], inProgress := true), Some(queue[0]))
  }

  /** What the handler shows: the update count, an HTTP error, or the connection error. */
  datatype Report = NoReport | UpdatedReport(updated: nat) | ErrorReport(code: int) | ConnectionError

  datatype Outcome = Outcome(pump: Pump, fired: Option<Request>, fetchCsv: bool, report: Report)

  /** HTTP 200 OK and 201 Created (sections 15.3.1 and 15.3.2 of RFC 9110). */
  const Ok: int := 200
  const Created: int := 201

  predicate Accepted(success: bool, code: int) {
    success && (code == Ok || code == Created)
  }

  /**
    `OnExportNativeCultureForTargetToGridly` (`NativeHandler`) and
    `OnExportTranslationsForTargetToGridly` (`TranslationsHandler`). An
    accepted response adds the length of the returned array to the update
    count and fires the next queued request; when the queue is empty it ends
    the export instead, reporting the count, and the CSV is fetched: always
    after a translations export, only with `bSyncRecords` after a native
    one. Any other status or a transport failure ends the export with the
    queue left as it is.
   */
  function OnExportResponse(p: Pump, h: Handler, syncRecords: bool, success: bool, code: int, received: nat): (r: Outcome)
    ensures !Accepted(success, code) ==>
      && r.pump == p.(inProgress := false) && r.fired.None? && !r.fetchCsv
      && r.report == (if success then ErrorReport(code) else ConnectionError)
    ensures Accepted(success, code) ==>
      && r.pump.updated == p.updated + received
      && r.pump.ueRecords == p.ueRecords
      && Sent(r.fired, r.pump.queue) == p.queue
      && (r.fired.Some? <==> |p.queue| > 0)
      && (r.fired.Some? ==> r.pump.inProgress == p.inProgress && !r.fetchCsv && r.report == NoReport)
      && (r.fired.None? ==> !r.pump.inProgress && r.report == UpdatedReport(r.pump.updated))
      && (r.fired.None? ==> (r.fetchCsv <==> h == TranslationsHandler || syncRecords))
  {
    if !success then Outcome(p.(inProgress := false), None, false, ConnectionError)
    else if !(code == Ok || code == Created) then Outcome(p.(inProgress := false), None, false, ErrorReport(code))
    else
      var q := p.(updated := p.updated + received);
      if |p.queue| > 0 then
        assert Sent(Some(p.queue[0]), p.queue[1..]) == p.queue;
        Outcome(q.(queue := p.queue[1..]), Some(p.queue[0]), false, NoReport)
      else
        var fetch := match h case TranslationsHandler => true case NativeHandler => syncRecords;
        Outcome(q.(inProgress := false), None, fetch, UpdatedReport(q.updated))
  }

  function Sum(xs: seq<nat>): nat {
    if |xs| == 0 then 0 else xs[0] + Sum(xs[1..])
  }

  /** The pump driven by accepted responses only, the `k`-th of which reports `received[k]` rows. */
  datatype Drained = Drained(pump: Pump, fired: seq<Request>, fetchCsv: bool)

  function Drain(p: Pump, h: Handler, syncRecords: bool, received: seq<nat>): Drained
    decreases |received|
  {
    if |received| == 0 then Drained(p, [], false)
    else
      var o := OnExportResponse(p, h, syncRecords, true, Ok, received[0]);
      var rest := Drain(o.pump, h, syncRecords, received[1..]);
      Drained(rest.pump, (if o.fired.Some? then [o.fired.value] else []) + rest.fired, o.fetchCsv || rest.fetchCsv)
  }

  /**
    First in, first out: while requests remain queued, each accepted
    response fires the oldest one, and the update count grows by what the
    responses reported.
   */
  lemma {:induction false} DrainFifo(p: Pump, h: Handler, syncRecords: bool, received: seq<nat>)
    requires |received| <= |p.queue|
    ensures var d := Drain(p, h, syncRecords, received);
      && d.fired == p.queue[..|received|]
      && d.pump.queue == p.queue[|received|..]
      && d.pump.inProgress == p.inProgress
      && d.pump.updated == p.updated + Sum(received)
      && d.pump.ueRecords == p.ueRecords
      && !d.fetchCsv
    decreases |received|
  {
    if |received| > 0 {
      var o := OnExportResponse(p, h, syncRecords, true, Ok, received[0]);
      DrainFifo(o.pump, h, syncRecords, received[1..]);
      assert p.queue[1..][..|received| - 1] == p.queue[1..|received|];
      assert p.queue[1..][|received| - 1..] == p.queue[|received|..];
    }
  }

  /** The accepted response that finds the queue empty ends the export: nothing is pending any more. */
  lemma LastResponseEndsExport(p: Pump, h: Handler, syncRecords: bool, code: int, received: nat)
    requires |p.queue| == 0 && Accepted(true, code)
    ensures var o := OnExportResponse(p, h, syncRecords, true, code, received);
      !HasRequestsPending(o.pump) && (o.fetchCsv <==> h == TranslationsHandler || syncRecords)
  {
  }

  /** A failed response stops the pump: what was queued stays queued, and stays pending. */
  lemma FailureKeepsQueue(p: Pump, h: Handler, syncRecords: bool, success: bool, code: int, received: nat)
    requires !Accepted(success, code)
    ensures var o := OnExportResponse(p, h, syncRecords, success, code, received);
      o.pump.queue == p.queue && (HasRequestsPending(o.pump) <==> |p.queue| > 0)
  {
  }

  /**
    Answering every queued request and then the one in flight drains the
    queue in order and ends the export, fetching the CSV as the handler
    decides.
   */
  lemma {:induction false} DrainToEnd(p: Pump, h: Handler, syncRecords: bool, received: seq<nat>)
    requires |received| == |p.queue| + 1
    ensures var d := Drain(p, h, syncRecords, received);
      && d.fired == p.queue
      && !HasRequestsPending(d.pump)
      && d.pump.updated == p.updated + Sum(received)
      && (d.fetchCsv <==> h == TranslationsHandler || syncRecords)
    decreases |received|
  {
    var o := OnExportResponse(p, h, syncRecords, true, Ok, received[0]);
    if |p.queue| > 0 {
      DrainToEnd(o.pump, h, syncRecords, received[1..]);
      assert [p.queue[0]] + p.queue[1..] == p.queue;
    } else {
      assert received[1..] == [];
    }
  }

  /**
    A full, successful export from an idle pump: the first chunk is fired
    at the start, each of the other chunks by the response to the one
    before, the rows sent are exactly the rows of all entries in order, and
    the last response leaves nothing pending.
   */
  lemma FullExport(p: Pump, entries: seq<Entry>, maxPerRequest: nat, h: Handler, s: Settings,
                   convert: CultureConverter, syncRecords: bool, received: seq<nat>)
    requires maxPerRequest >= 1 && |p.queue| == 0 && |entries| > 0
    requires |received| == |Chunks(entries, maxPerRequest)|
    ensures var st := Start(p, Some(entries), maxPerRequest, h, s, convert);
      var d := Drain(st.pump, h, syncRecords, received);
      && st.fired.Some?
      && RowsOf([st.fired.value] + d.fired) == ConvertToJson(s, convert, IncludesTargets(h), entries)
      && !HasRequestsPending(d.pump)
      && d.pump.updated == Sum(received)
      && (d.fetchCsv <==> h == TranslationsHandler || syncRecords)
  {
    var reqs := Requests(h, s, convert, Chunks(entries, maxPerRequest));
    var st := Start(p, Some(entries), maxPerRequest, h, s, convert);
    StartFromIdle(p, entries, maxPerRequest, h, s, convert);
    DrainToEnd(st.pump, h, syncRecords, received);
    ChunkedRows(entries, maxPerRequest, h, s, convert);
  }

  /** From an empty queue, the start fires the first chunk's request and queues the others behind it. */
  lemma StartFromIdle(p: Pump, entries: seq<Entry>, maxPerRequest: nat, h: Handler, s: Settings,
                      convert: CultureConverter)
    requires maxPerRequest >= 1 && |p.queue| == 0 && |entries| > 0
    ensures var st := Start(p, Some(entries), maxPerRequest, h, s, convert);
      && st.fired.Some?
      && [st.fired.value] + st.pump.queue == Requests(h, s, convert, Chunks(entries, maxPerRequest))
      && st.pump.updated == 0
  {
    var reqs := Requests(h, s, convert, Chunks(entries, maxPerRequest));
    assert p.queue + reqs == reqs;
  }

  /** The chunks' requests carry, between them, the rows of the whole entry list. */
  lemma ChunkedRows(entries: seq<Entry>, maxPerRequest: nat, h: Handler, s: Settings, convert: CultureConverter)
    requires maxPerRequest >= 1
    ensures RowsOf(Requests(h, s, convert, Chunks(entries, maxPerRequest)))
      == ConvertToJson(s, convert, IncludesTargets(h), entries)
  {
    RequestsCarryAllRows(h, s, convert, Chunks(entries, maxPerRequest));
    ChunksFlatten(entries, maxPerRequest);
  }

  /**
    The queue is not emptied when an export starts: requests left behind by
    a failed export are fired first, before any request of the new one;
    `Deliver` answers them with the handler they were queued with.
   */
  lemma LeftoversFireFirst(p: Pump, gathered: seq<Entry>, maxPerRequest: nat, h: Handler,
                           s: Settings, convert: CultureConverter)
    requires maxPerRequest >= 1 && |p.queue| > 0
    ensures Start(p, Some(gathered), maxPerRequest, h, s, convert).fired == Some(p.queue[0])
  {
    var st := Start(p, Some(gathered), maxPerRequest, h, s, convert);
    assert Sent(st.fired, st.pump.queue)[0] == p.queue[0];
  }

  // ---------------------------------------------------------------------
  // Requests in flight
  // ---------------------------------------------------------------------

  /**
    The pump next to the HTTP module it drives: `inFlight` holds the
    requests that have been processed and not yet answered, oldest first.
    Each request carries the completion delegate it was bound to when it
    was queued, and its response runs that handler. `bExportRequestInProgress`
    is the pump's own flag; nothing ties it to `inFlight`.
   */
  datatype Link = Link(pump: Pump, inFlight: seq<Request>)

  function Fired(fired: Option<Request>): seq<Request> {
    if fired.Some? then [fired.value] else []
  }

  /** `ExportForTargetToGridly` on the link: the request it fires, if any, goes in flight. */
  function Launch(l: Link, gathered: Option<seq<Entry>>, maxPerRequest: nat, h: Handler,
                  s: Settings, convert: CultureConverter): (r: Link)
    requires maxPerRequest >= 1
    ensures r.pump.queue == Start(l.pump, gathered, maxPerRequest, h, s, convert).pump.queue
    ensures |r.inFlight| == |l.inFlight| + |Fired(Start(l.pump, gathered, maxPerRequest, h, s, convert).fired)|
    ensures r.inFlight[..|l.inFlight|] == l.inFlight
  {
    var st := Start(l.pump, gathered, maxPerRequest, h, s, convert);
    Link(st.pump, l.inFlight + Fired(st.fired))
  }

  datatype Delivered = Delivered(link: Link, fetchCsv: bool, report: Report)

  /**
    The response to the `k`-th request in flight: that request leaves the
    link, the handler it was bound to runs, and the request that handler
    fires, if any, goes in flight. Whether the CSV is fetched is decided by
    the handler of the request that completed.
   */
  function Deliver(l: Link, k: nat, syncRecords: bool, success: bool, code: int, received: nat): (r: Delivered)
    requires k < |l.inFlight|
    ensures |r.link.inFlight| == |l.inFlight| - 1 + Count(Accepted(success, code) && |l.pump.queue| > 0)
    ensures r.link.inFlight[..|l.inFlight| - 1] == l.inFlight[..k] + l.inFlight[k + 1..]
    ensures r.fetchCsv <==> (Accepted(success, code) && |l.pump.queue| == 0
      && (l.inFlight[k].handler == TranslationsHandler || syncRecords))
    ensures r.link.pump.inProgress == (l.pump.inProgress && Accepted(success, code) && |l.pump.queue| > 0)
  {
    var o := OnExportResponse(l.pump, l.inFlight[k].handler, syncRecords, success, code, received);
    Delivered(Link(o.pump, l.inFlight[..k] + l.inFlight[k + 1..] + Fired(o.fired)), o.fetchCsv, o.report)
  }

  /** A response as it arrives: which request in flight it answers, and what it says. */
  datatype Arrival = Arrival(index: nat, success: bool, code: int, received: nat)

  /** The link driven by responses only; a response for no request in flight is ignored. */
  function Respond(l: Link, syncRecords: bool, arrivals: seq<Arrival>): Link
    decreases |arrivals|
  {
    if |arrivals| == 0 then l
    else
      var a := arrivals[0];
      var next := if a.index < |l.inFlight| then Deliver(l, a.index, syncRecords, a.success, a.code, a.received).link else l;
      Respond(next, syncRecords, arrivals[1..])
  }

  /** The flag is set exactly when one request is in flight, and never more than one is. */
  predicate Serial(l: Link) {
    |l.inFlight| == Count(l.pump.inProgress)
  }

  /** An answered request of a serial link either hands over to the next queued one or ends the export. */
  lemma DeliverKeepsSerial(l: Link, k: nat, syncRecords: bool, success: bool, code: int, received: nat)
    requires Serial(l) && k < |l.inFlight|
    ensures Serial(Deliver(l, k, syncRecords, success, code, received).link)
  {
  }

  lemma {:induction false} RespondKeepsSerial(l: Link, syncRecords: bool, arrivals: seq<Arrival>)
    requires Serial(l)
    ensures Serial(Respond(l, syncRecords, arrivals))
    decreases |arrivals|
  {
    if |arrivals| > 0 {
      var a := arrivals[0];
      if a.index < |l.inFlight| {
        DeliverKeepsSerial(l, a.index, syncRecords, a.success, a.code, a.received);
        RespondKeepsSerial(Deliver(l, a.index, syncRecords, a.success, a.code, a.received).link, syncRecords, arrivals[1..]);
      } else {
        RespondKeepsSerial(l, syncRecords, arrivals[1..]);
      }
    }
  }

  /**
    An export started while no request is in flight keeps at most one in
    flight for as long as only responses arrive, and `HasRequestsPending`
    reports a request in flight exactly when there is one.
   */
  lemma IdleStartIsSerial(p: Pump, gathered: Option<seq<Entry>>, maxPerRequest: nat, h: Handler,
                          s: Settings, convert: CultureConverter, syncRecords: bool, arrivals: seq<Arrival>)
    requires maxPerRequest >= 1 && !p.inProgress
    ensures var l := Respond(Launch(Link(p, []), gathered, maxPerRequest, h, s, convert), syncRecords, arrivals);
      |l.inFlight| <= 1 && (l.pump.inProgress <==> |l.inFlight| == 1)
  {
    RespondKeepsSerial(Launch(Link(p, []), gathered, maxPerRequest, h, s, convert), syncRecords, arrivals);
  }

  /**
    The pump does not refuse a start while a request is in flight: a
    one-chunk export started then puts a second request in flight, and the
    answer to the first one clears the flag, so `HasRequestsPending` is
    false while the second is still outstanding.
   */
  lemma BusyStartOverlaps(l: Link, entries: seq<Entry>, maxPerRequest: nat, h: Handler,
                          s: Settings, convert: CultureConverter, syncRecords: bool, received: nat)
    requires Serial(l) && l.pump.inProgress && |l.pump.queue| == 0
    requires 0 < |entries| <= maxPerRequest
    ensures var started := Launch(l, Some(entries), maxPerRequest, h, s, convert);
      |started.inFlight| == 2
      && var d := Deliver(started, 0, syncRecords, true, Ok, received).link;
      !HasRequestsPending(d.pump) && |d.inFlight| == 1
  {
    CeilDivIsCeiling(|entries|, maxPerRequest);
    assert CeilDiv(|entries|, maxPerRequest) == 1;
  }
}
