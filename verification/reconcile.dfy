/**
  The reconciliation step at the end of `ParseCSVAndCreateRecords`: every
  record read from the Gridly view is compared with the records the last
  export sent (`UERecords`), and the ones whose path is still exported but
  whose id no longer is are turned into delete identifiers.

  Both comparisons are FString `==`, so path and id are matched ignoring
  letter case.
 */
module Reconcile {
  import opened Strings
  import opened Seqs
  import opened CsvRecords

  predicate SamePath(a: Record, b: Record) {
    SameText(a.path, b.path)
  }

  predicate SameRecord(a: Record, b: Record) {
    SamePath(a, b) && SameText(a.id, b.id)
  }

  /** Some local record lives at the remote record's path. */
  predicate PathKnown(remote: Record, local: seq<Record>) {
    exists i :: 0 <= i < |local| && SamePath(remote, local[i])
  }

  /** Some local record has both the remote record's path and its id. */
  predicate Matched(remote: Record, local: seq<Record>) {
    exists i :: 0 <= i < |local| && SameRecord(remote, local[i])
  }

  /** A remote record the export no longer produces, at a path the export still covers. */
  predicate Stale(remote: Record, local: seq<Record>) {
    PathKnown(remote, local) && !Matched(remote, local)
  }

  /** The two flags of the inner loop: `PathFoundInUE` and `RecordIdFoundInUE`. */
  datatype Search = Search(pathFound: bool, idFound: bool)

  /**
    The inner loop as written: local records are visited in order, a path
    match sets the first flag, and the first record matching both path and
    id sets the second flag and breaks out.
   */
  function SearchLocal(remote: Record, local: seq<Record>): (r: Search)
    ensures r.pathFound <==> PathKnown(remote, local)
    ensures r.idFound <==> Matched(remote, local)
  {
    if |local| == 0 then Search(false, false)
    else if SamePath(remote, local[0]) then
      if SameText(remote.id, local[0].id) then Search(true, true)
      else
        var rest := SearchLocal(remote, local[1..]);
        assert forall i :: 0 <= i < |local[1..]| ==> local[1..][i] == local[i + 1];
        Search(true, rest.idFound)
    else
      var rest := SearchLocal(remote, local[1..]);
      assert forall i :: 0 <= i < |local[1..]| ==> local[1..][i] == local[i + 1];
      rest
  }

  /**
    The identifier a stale record is deleted by: its id alone when the path
    is empty, the id behind a lone comma when the path starts with
    "blueprints/" (ignoring case), and `path,id` otherwise.
   */
  function DeleteId(r: Record): string {
    if |r.path| == 0 then r.id
    else if StartsWithText(r.path, BlueprintsFolder) then [','] + r.id
    else r.path + [','] + r.id
  }

  /** Stripping the namespace from a delete identifier gives back the record id, for any comma-free non-empty path. */
  lemma DeleteIdStripsToId(r: Record)
    requires |r.path| > 0 && ',' !in r.path
    ensures RemoveNamespaceFromKey(DeleteId(r)) == r.id
  {
    if StartsWithText(r.path, BlueprintsFolder) {
      RemoveNamespaceOfCombined([], r.id);
      assert [] + [','] + r.id == [','] + r.id;
    } else {
      RemoveNamespaceOfCombined(r.path, r.id);
    }
  }

  /** The outer loop's body for one remote record: its delete identifier, when it is stale. */
  function DeleteFor(local: seq<Record>): Record -> Option<string> {
    remote =>
      var s := SearchLocal(remote, local);
      if s.pathFound && !s.idFound then Some(DeleteId(remote)) else None
  }

  /** `RecordsToDelete`: the delete identifiers of the stale remote records, in remote order. */
  function RecordsToDelete(remote: seq<Record>, local: seq<Record>): (r: seq<string>)
    ensures |r| <= |remote|
  {
    FilterMap(remote, DeleteFor(local))
  }

  /** A record is deleted exactly when it is stale. */
  lemma DeleteForStale(remote: Record, local: seq<Record>)
    ensures DeleteFor(local)(remote) == if Stale(remote, local) then Some(DeleteId(remote)) else None
  {
  }

  /** An identifier is in the delete list iff some stale remote record formats to it. */
  lemma DeleteMembers(remote: seq<Record>, local: seq<Record>, id: string)
    ensures id in RecordsToDelete(remote, local) <==>
      exists i :: 0 <= i < |remote| && Stale(remote[i], local) && DeleteId(remote[i]) == id
  {
    var f := DeleteFor(local);
    FilterMapMembers(remote, f, id);
    forall i | 0 <= i < |remote|
      ensures f(remote[i]) == Some(id) <==> Stale(remote[i], local) && DeleteId(remote[i]) == id
    {
      DeleteForStale(remote[i], local);
    }
  }

  /** The diff works record by record, so it keeps remote order. */
  lemma RecordsToDeleteAppend(a: seq<Record>, b: seq<Record>, local: seq<Record>)
    ensures RecordsToDelete(a + b, local) == RecordsToDelete(a, local) + RecordsToDelete(b, local)
  {
    FilterMapAppend(a, b, DeleteFor(local));
  }

  /** With no local records no path is known, so nothing is deleted. */
  lemma {:induction false} NoLocalDeletesNothing(remote: seq<Record>)
    ensures RecordsToDelete(remote, []) == []
  {
    if |remote| > 0 {
      assert remote == [remote[0]] + remote[1..];
      RecordsToDeleteAppend([remote[0]], remote[1..], []);
      UnknownPathKept(remote[0], []);
      NoLocalDeletesNothing(remote[1..]);
    }
  }

  /** A remote record at a path no local record has is never deleted. */
  lemma UnknownPathKept(remote: Record, local: seq<Record>)
    requires !PathKnown(remote, local)
    ensures RecordsToDelete([remote], local) == []
  {
    DeleteForStale(remote, local);
  }

  /** A remote record that still matches a local one is kept. */
  lemma MatchedKept(remote: Record, local: seq<Record>)
    requires Matched(remote, local)
    ensures RecordsToDelete([remote], local) == []
  {
    DeleteForStale(remote, local);
  }

  /** A stale remote record is deleted by exactly its identifier. */
  lemma StaleDeleted(remote: Record, local: seq<Record>)
    requires Stale(remote, local)
    ensures RecordsToDelete([remote], local) == [DeleteId(remote)]
  {
    DeleteForStale(remote, local);
  }

  /** When every remote record matches a local one, nothing is deleted. */
  lemma AllMatchedDeletesNothing(remote: seq<Record>, local: seq<Record>)
    requires forall i :: 0 <= i < |remote| ==> Matched(remote[i], local)
    ensures RecordsToDelete(remote, local) == []
  {
    var f := DeleteFor(local);
    forall i | 0 <= i < |remote| ensures f(remote[i]).None? {
      DeleteForStale(remote[i], local);
    }
    FilterMapNone(remote, f);
  }

  /** Reading back exactly what was exported deletes nothing. */
  lemma EchoDeletesNothing(local: seq<Record>)
    ensures RecordsToDelete(local, local) == []
  {
    forall i | 0 <= i < |local| ensures Matched(local[i], local) {
      SameTextReflexive(local[i].path);
      SameTextReflexive(local[i].id);
      assert SameRecord(local[i], local[i]);
    }
    AllMatchedDeletesNothing(local, local);
  }

  /**
    Because parsing appends to the remote list, a view read twice without a
    new export lists each stale record twice.
   */
  lemma ReadTwiceDeletesTwice(remote: seq<Record>, local: seq<Record>)
    ensures RecordsToDelete(remote + remote, local) == RecordsToDelete(remote, local) + RecordsToDelete(remote, local)
  {
    RecordsToDeleteAppend(remote, remote, local);
  }
}
