/**
  `DeleteRecordsFromGridly` and `OnDeleteRecordsResponse`: the delete list
  is sent in batches of at most 1000 identifiers, and each completed batch
  advances a counter; the summary is reported when the counter reaches the
  number of batches of the current pass.
 */
module DeleteBatches {
  import opened Seqs

  const MaxRecordsPerRequest: nat := 1000

  /**
    `CompletedBatches`, `TotalBatchesToProcess` and
    `ExportForTargetEntriesDeleted`.
   */
  datatype DeleteState = DeleteState(completed: int, total: int, deleted: nat)

  /** The state after a dispatch, and the identifier batches sent, in sending order. */
  datatype Dispatch = Dispatch(state: DeleteState, batches: seq<seq<string>>)

  /**
    `DeleteRecordsFromGridly`: an empty list sends nothing and touches no
    counter; otherwise the counters restart for a pass of `ceil(N / 1000)`
    batches, and the deleted count grows by N as the requests go out.
   */
  function DeleteRecords(st: DeleteState, ids: seq<string>): (r: Dispatch)
    ensures |ids| == 0 ==> r == Dispatch(st, [])
    ensures |ids| > 0 ==> r.state.completed == 0 && r.state.total == |r.batches|
    ensures r.state.deleted == st.deleted + |ids|
    ensures Flatten(r.batches) == ids
    ensures forall i :: 0 <= i < |r.batches| ==> 0 < |r.batches[i]| <= MaxRecordsPerRequest
    ensures forall i :: 0 <= i < |r.batches| - 1 ==> |r.batches[i]| == MaxRecordsPerRequest
  {
    if |ids| == 0 then Dispatch(st, [])
    else
      var batches := Chunks(ids, MaxRecordsPerRequest);
      ChunksFlatten(ids, MaxRecordsPerRequest);
      ChunkSizes(ids, MaxRecordsPerRequest);
      Dispatch(DeleteState(0, |batches|, st.deleted + |ids|), batches)
  }

  /** The number of batches is the ceiling of N / 1000. */
  lemma DeleteBatchCount(st: DeleteState, ids: seq<string>)
    requires |ids| > 0
    ensures var n := DeleteRecords(st, ids).state.total;
      n * MaxRecordsPerRequest >= |ids| && (n - 1) * MaxRecordsPerRequest < |ids|
  {
    CeilDivIsCeiling(|ids|, MaxRecordsPerRequest);
  }

  /** Batch `b` is the slice `[b * 1000, min(b * 1000 + 1000, N))`. */
  lemma DeleteBatchAt(st: DeleteState, ids: seq<string>, b: nat)
    requires b < |DeleteRecords(st, ids).batches|
    ensures var start := b * MaxRecordsPerRequest;
      start < |ids| && DeleteRecords(st, ids).batches[b] == ids[start..Min(start + MaxRecordsPerRequest, |ids|)]
  {
    ChunkAt(ids, MaxRecordsPerRequest, b);
  }

  /**
    The dispatch loop as written: `BatchIndex` runs over the batches, each
    batch is copied element by element from `[StartIndex, EndIndex)`, and
    the deleted count grows by the batch size after each send.
   */
  method DispatchBatches(st: DeleteState, ids: seq<string>) returns (r: Dispatch)
    ensures r == DeleteRecords(st, ids)
  {
    if |ids| == 0 {
      return Dispatch(st, []);
    }
    var totalBatches := CeilDiv(|ids|, MaxRecordsPerRequest);
    var deleted := st.deleted;
    var sent: seq<seq<string>> := [];
    ghost var chunks := Chunks(ids, MaxRecordsPerRequest);
    var b := 0;
    while b < totalBatches
      invariant 0 <= b <= totalBatches == |chunks|
      invariant sent == chunks[..b]
      invariant deleted == st.deleted + |Flatten(sent)|
    {
      var start := b * MaxRecordsPerRequest;
      var end := Min(start + MaxRecordsPerRequest, |ids|);
      ChunkAt(ids, MaxRecordsPerRequest, b);
      var batch := CopySlice(ids, start, end);
      FlattenAppend(sent, [batch]);
      assert Flatten([batch]) == batch;
      sent := sent + [batch];
      deleted := deleted + |batch|;
      b := b + 1;
      assert sent == chunks[..b];
    }
    assert sent == chunks;
    r := Dispatch(DeleteState(0, totalBatches, deleted), sent);
  }

  /** The batch's manual copy: `BatchRecords.Add(RecordsToDelete[i])` for `i` in `[start, end)`. */
  method CopySlice(ids: seq<string>, start: nat, end: nat) returns (batch: seq<string>)
    requires start <= end <= |ids|
    ensures batch == ids[start..end]
  {
    batch := [];
    var i := start;
    while i < end
      invariant start <= i <= end
      invariant batch == ids[start..i]
    {
      batch := batch + [ids[i]];
      i := i + 1;
    }
  }

  /** What one completed delete request reports. */
  datatype Reply = InvalidReply | Reply(ok: bool, code: int)

  /**
    The message a response leaves: the invalid-request error, the final
    success or error summary, or nothing (an intermediate batch).
   */
  datatype Notice = NoNotice | InvalidNotice | SuccessSummary(deleted: nat) | ErrorSummary(code: int)

  /** HTTP 204 No Content (section 15.3.5 of RFC 9110). */
  const NoContent: int := 204

  datatype Handled = Handled(state: DeleteState, notice: Notice)

  predicate IsSummary(n: Notice) {
    n.SuccessSummary? || n.ErrorSummary?
  }

  /**
    `OnDeleteRecordsResponse`: an invalid request or response is reported
    and not counted; any other response counts one completed batch, and the
    one that brings the count to the pass total reports the summary, a
    success exactly when the transport succeeded with status 204.
   */
  function OnDeleteResponse(st: DeleteState, reply: Reply): (r: Handled)
    ensures reply.InvalidReply? ==> r == Handled(st, InvalidNotice)
    ensures reply.Reply? ==> r.state == st.(completed := st.completed + 1)
    ensures reply.Reply? ==> (IsSummary(r.notice) <==> st.completed + 1 == st.total)
    ensures r.notice.SuccessSummary? <==>
      reply.Reply? && st.completed + 1 == st.total && reply.ok && reply.code == NoContent
    ensures r.notice.SuccessSummary? ==> r.notice.deleted == st.deleted
  {
    match reply
    case InvalidReply => Handled(st, InvalidNotice)
    case Reply(ok, code) =>
      var next := st.(completed := st.completed + 1);
      var last := next.completed == next.total;
      if ok && code == NoContent then Handled(next, if last then SuccessSummary(st.deleted) else NoNotice)
      else Handled(next, if last then ErrorSummary(code) else NoNotice)
  }

  /** The responses delivered one at a time, in arrival order. */
  function Replay(st: DeleteState, replies: seq<Reply>): (r: (DeleteState, seq<Notice>))
    ensures |r.1| == |replies|
    decreases |replies|
  {
    if |replies| == 0 then (st, [])
    else
      var h := OnDeleteResponse(st, replies[0]);
      var rest := Replay(h.state, replies[1..]);
      (rest.0, [h.notice] + rest.1)
  }

  function ValidCount(replies: seq<Reply>): nat {
    if |replies| == 0 then 0 else (if replies[0].Reply? then 1 else 0) + ValidCount(replies[1..])
  }

  function SummaryCount(notices: seq<Notice>): nat {
    if |notices| == 0 then 0 else (if IsSummary(notices[0]) then 1 else 0) + SummaryCount(notices[1..])
  }

  /**
    Over any sequence of responses, the counter advances by the number of
    valid ones, and the summary is reported exactly once if the count
    crosses the pass total, and never otherwise.
   */
  lemma {:induction false} ReplaySummaries(st: DeleteState, replies: seq<Reply>)
    ensures Replay(st, replies).0 == st.(completed := st.completed + ValidCount(replies))
    ensures SummaryCount(Replay(st, replies).1) ==
      if st.completed < st.total <= st.completed + ValidCount(replies) then 1 else 0
    decreases |replies|
  {
    if |replies| > 0 {
      var h := OnDeleteResponse(st, replies[0]);
      ReplaySummaries(h.state, replies[1..]);
    }
  }

  /** A fresh pass in which every batch is answered reports its summary exactly once. */
  lemma FullPassOneSummary(st: DeleteState, ids: seq<string>, replies: seq<Reply>)
    requires |ids| > 0
    requires ValidCount(replies) == CeilDiv(|ids|, MaxRecordsPerRequest)
    ensures SummaryCount(Replay(DeleteRecords(st, ids).state, replies).1) == 1
  {
    ReplaySummaries(DeleteRecords(st, ids).state, replies);
  }

  /** 2500 identifiers go out as batches of 1000, 1000 and 500. */
  lemma ThreeBatches(st: DeleteState, ids: seq<string>)
    requires |ids| == 2500
    ensures var d := DeleteRecords(st, ids);
      d.state.total == 3 && |d.batches[0]| == 1000 && |d.batches[1]| == 1000 && |d.batches[2]| == 500
  {
    var d := DeleteRecords(st, ids);
    DeleteBatchCount(st, ids);
    assert d.state.total == 3;
    var bs := d.batches;
    var b1, b2 := bs[1..], bs[1..][1..];
    assert Flatten(b2) == bs[2] + Flatten(b2[1..]) && b2[1..] == [];
    assert Flatten(b1) == bs[1] + Flatten(b2);
    assert Flatten(bs) == bs[0] + Flatten(b1);
  }
}
