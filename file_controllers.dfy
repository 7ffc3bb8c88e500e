/** The owner-facing handlers: list, view, upload and delete. Listing and
    viewing only read the table and are functions of it. Upload and delete
    are given here as the table and the response they produce; the handler
    methods of class Handlers.FileService are proved to compute exactly these. */
module FileControllers {
  import opened FileModel
  import opened ObjectStorage

  /** `!userId` turns away a missing identity and an empty one alike. */
  predicate Authenticated(caller: Option<UserId>)
  {
    caller.Some? && caller.value != ""
  }

  /** A list in the request body; a missing list reads as an empty one. */
  function Requested<T>(list: Option<seq<T>>): seq<T>
  {
    if list.Some? then list.value else []
  }

  predicate Distinct(ids: seq<FileId>)
  {
    forall i, j :: 0 <= i < j < |ids| ==> ids[i] != ids[j]
  }

  /** The set of the elements of a list. */
  function Elements(ids: seq<FileId>): set<FileId>
  {
    set k | k in ids
  }

  /** A list without repetitions has as many elements as entries. */
  lemma {:induction false} DistinctElements(ids: seq<FileId>)
    requires Distinct(ids)
    ensures |Elements(ids)| == |ids|
    decreases |ids|
  {
    if ids != [] {
      var n := |ids| - 1;
      assert Distinct(ids[..n]);
      DistinctElements(ids[..n]);
      assert Elements(ids) == Elements(ids[..n]) + {ids[n]};
      assert ids[n] !in Elements(ids[..n]);
    }
  }

  // ---------------------------------------------------------------- getAllFiles

  datatype ListResponse =
    | ListUnauthorized                  // 401
    | FileList(files: set<FileRecord>)  // 200, in no particular order

  /** The caller's AVAILABLE rows: every listed record is a current row of the
      caller's, and every AVAILABLE row of the caller's is listed. */
  function GetAllFiles(t: Table, caller: Option<UserId>): (r: ListResponse)
    requires WellKeyed(t)
    ensures r.ListUnauthorized? <==> !Authenticated(caller)
    ensures r.FileList? ==> forall f :: f in r.files ==>
      f.id in t && t[f.id] == f && f.ownerId == caller.value && f.status == Available
    ensures r.FileList? ==> forall k :: k in t && t[k].ownerId == caller.value && t[k].status == Available ==>
      t[k] in r.files
  {
    if !Authenticated(caller) then ListUnauthorized
    else FileList(set k | k in t && t[k].ownerId == caller.value && t[k].status == Available :: t[k])
  }

  // ---------------------------------------------------------------- handleFileView

  datatype ViewResponse =
    | ViewUnauthorized                 // 401
    | FileNotFound                     // 404
    | AccessUrl(accessUrl: PresignedUrl)  // 200

  /** A read URL for the caller's own file, whatever its status; 404 for an
      id that is missing or belongs to someone else. */
  function HandleFileView(t: Table, caller: Option<UserId>, fileId: FileId): (r: ViewResponse)
    requires WellKeyed(t)
    ensures r.ViewUnauthorized? <==> !Authenticated(caller)
    ensures r.AccessUrl? <==> Authenticated(caller) && fileId in t && t[fileId].ownerId == caller.value
    ensures r.AccessUrl? ==>
      r.accessUrl == Presign(StorageKey(caller.value, fileId), Read) && r.accessUrl.expiresIn == 300
  {
    if !Authenticated(caller) then ViewUnauthorized
    else if fileId in t && t[fileId].ownerId == caller.value then
      var existing := t[fileId];
      AccessUrl(Presign(StorageKey(existing.ownerId, existing.id), Read))
    else FileNotFound
  }

  // ---------------------------------------------------------------- handleFileUpload

  datatype FileRequest = FileRequest(filename: string, size: int, contentType: string)

  datatype UploadSlot = UploadSlot(id: FileId, filename: string, uploadUrl: PresignedUrl)

  datatype UploadResponse =
    | UploadUnauthorized               // 401
    | NoFilesProvided                  // 400
    | UploadFailed                     // 500: the transaction did not commit
    | Uploaded(slots: seq<UploadSlot>) // 200

  datatype UploadResult = UploadResult(table: Table, response: UploadResponse)

  /** Ids the store hands out: distinct, and none already in the table. */
  predicate FreshIds(t: Table, ids: seq<FileId>)
  {
    Distinct(ids) && forall i :: 0 <= i < |ids| ==> ids[i] !in t
  }

  /** The row `prisma.file.create` inserts; PENDING is the schema default. */
  function NewRecord(id: FileId, req: FileRequest, ownerId: UserId, now: Time): FileRecord
  {
    FileRecord(id, req.filename, req.contentType, Some(req.size), ownerId, now, None, None, Pending)
  }

  function NewRecords(ownerId: UserId, reqs: seq<FileRequest>, ids: seq<FileId>, now: Time): (created: seq<FileRecord>)
    requires |ids| == |reqs|
    ensures |created| == |reqs|
  {
    seq(|reqs|, i requires 0 <= i < |reqs| => NewRecord(ids[i], reqs[i], ownerId, now))
  }

  function IdsOf(recs: seq<FileRecord>): set<FileId>
  {
    set i | 0 <= i < |recs| :: recs[i].id
  }

  /** The table after inserting the records in order. */
  function InsertAll(t: Table, recs: seq<FileRecord>): (r: Table)
    ensures r.Keys == t.Keys + IdsOf(recs)
    ensures WellKeyed(t) ==> WellKeyed(r)
    ensures forall k :: k in t && k !in IdsOf(recs) ==> r[k] == t[k]
    decreases |recs|
  {
    if recs == [] then t
    else
      var n := |recs| - 1;
      var init := InsertAll(t, recs[..n]);
      assert IdsOf(recs) == IdsOf(recs[..n]) + {recs[n].id} by {
        assert forall i :: 0 <= i < n ==> recs[..n][i] == recs[i];
      }
      init[recs[n].id := recs[n]]
  }

  /** With distinct ids each inserted record is found under its id. */
  lemma {:induction false} InsertAllFinds(t: Table, recs: seq<FileRecord>, i: nat)
    requires i < |recs|
    requires forall a, b :: 0 <= a < b < |recs| ==> recs[a].id != recs[b].id
    ensures recs[i].id in InsertAll(t, recs) && InsertAll(t, recs)[recs[i].id] == recs[i]
    decreases |recs|
  {
    var n := |recs| - 1;
    if i < n {
      InsertAllFinds(t, recs[..n], i);
    }
  }

  function UploadSlots(ownerId: UserId, created: seq<FileRecord>): (slots: seq<UploadSlot>)
    ensures |slots| == |created|
  {
    seq(|created|, i requires 0 <= i < |created| =>
      UploadSlot(created[i].id, created[i].filename, Presign(StorageKey(ownerId, created[i].id), Write)))
  }

  /** What `handleFileUpload` leaves in the table and answers, given the ids
      the store assigns and whether its transaction commits. */
  function UploadOutcome(t: Table, caller: Option<UserId>, files: Option<seq<FileRequest>>,
                         ids: seq<FileId>, now: Time, txOk: bool): (u: UploadResult)
    requires |ids| == |Requested(files)|
    ensures u.response.UploadUnauthorized? <==> !Authenticated(caller)
    ensures u.response.UploadFailed? <==> Authenticated(caller) && |Requested(files)| > 0 && !txOk
    ensures !u.response.Uploaded? ==> u.table == t
    ensures u.response.Uploaded? ==> t.Keys <= u.table.Keys && |u.response.slots| == |ids|
  {
    if !Authenticated(caller) then UploadResult(t, UploadUnauthorized)
    else if |Requested(files)| == 0 then UploadResult(t, NoFilesProvided)
    else if !txOk then UploadResult(t, UploadFailed)
    else
      var created := NewRecords(caller.value, files.value, ids, now);
      UploadResult(InsertAll(t, created), Uploaded(UploadSlots(caller.value, created)))
  }

  lemma NewRecordIds(owner: UserId, reqs: seq<FileRequest>, ids: seq<FileId>, now: Time)
    requires |ids| == |reqs|
    ensures IdsOf(NewRecords(owner, reqs, ids, now)) == Elements(ids)
  {
    var created := NewRecords(owner, reqs, ids, now);
    forall k | k in Elements(ids) ensures k in IdsOf(created) {
      var i :| 0 <= i < |ids| && ids[i] == k;
      assert created[i].id == k;
    }
  }

  /** Inserting one new record per fresh id adds exactly those rows. */
  lemma InsertNewRecords(t: Table, owner: UserId, reqs: seq<FileRequest>, ids: seq<FileId>, now: Time)
    requires WellKeyed(t) && FreshIds(t, ids) && |ids| == |reqs|
    ensures var t' := InsertAll(t, NewRecords(owner, reqs, ids, now));
      && WellKeyed(t')
      && t'.Keys == t.Keys + Elements(ids)
      && |t'| == |t| + |reqs|
      && (forall k :: k in t ==> t'[k] == t[k])
      && forall i :: 0 <= i < |reqs| ==> ids[i] in t' && t'[ids[i]] == NewRecord(ids[i], reqs[i], owner, now)
  {
    var created := NewRecords(owner, reqs, ids, now);
    var t' := InsertAll(t, created);
    NewRecordIds(owner, reqs, ids, now);
    forall i | 0 <= i < |reqs| ensures ids[i] in t' && t'[ids[i]] == NewRecord(ids[i], reqs[i], owner, now) {
      InsertAllFinds(t, created, i);
    }
    assert t.Keys !! Elements(ids);
    DistinctElements(ids);
    assert |t'.Keys| == |t.Keys| + |Elements(ids)|;
  }

  /** All or nothing: either one new PENDING row per request, owned by the
      caller, with one write URL per row in request order, and every old row
      untouched; or no change at all. */
  lemma UploadCreatesPendingRecords(t: Table, caller: Option<UserId>, files: Option<seq<FileRequest>>,
                                    ids: seq<FileId>, now: Time, txOk: bool)
    requires WellKeyed(t) && FreshIds(t, ids) && |ids| == |Requested(files)|
    ensures var u := UploadOutcome(t, caller, files, ids, now, txOk);
      && (u.response.UploadUnauthorized? <==> !Authenticated(caller))
      && (u.response.NoFilesProvided? <==> Authenticated(caller) && |Requested(files)| == 0)
      && (u.response.Uploaded? <==> Authenticated(caller) && |Requested(files)| > 0 && txOk)
      && (!u.response.Uploaded? ==> u.table == t)
      && (u.response.Uploaded? ==>
            var reqs := files.value;
            var owner := caller.value;
            && WellKeyed(u.table)
            && u.table.Keys == t.Keys + Elements(ids)
            && |u.table| == |t| + |reqs|
            && (forall k :: k in t ==> u.table[k] == t[k])
            && |u.response.slots| == |reqs|
            && forall i :: 0 <= i < |reqs| ==>
                 && u.response.slots[i] == UploadSlot(ids[i], reqs[i].filename, Presign(StorageKey(owner, ids[i]), Write))
                 && ids[i] in u.table
                 && u.table[ids[i]] == FileRecord(ids[i], reqs[i].filename, reqs[i].contentType,
                                                  Some(reqs[i].size), owner, now, None, None, Pending))
  {
    if Authenticated(caller) && |Requested(files)| > 0 && txOk {
      var owner, reqs := caller.value, files.value;
      var created := NewRecords(owner, reqs, ids, now);
      var slots := UploadSlots(owner, created);
      assert UploadOutcome(t, caller, files, ids, now, txOk) == UploadResult(InsertAll(t, created), Uploaded(slots));
      InsertNewRecords(t, owner, reqs, ids, now);
      forall i | 0 <= i < |reqs|
        ensures slots[i] == UploadSlot(ids[i], reqs[i].filename, Presign(StorageKey(owner, ids[i]), Write))
      {
        assert created[i] == NewRecord(ids[i], reqs[i], owner, now);
      }
    }
  }

  // ---------------------------------------------------------------- handleFileDelete

  datatype DeleteResponse =
    | DeleteUnauthorized    // 401
    | NoFileIdsProvided     // 400
    | PermissionDenied      // 403
    | DeleteFailed          // 500: the transaction did not commit
    | DeletionInitiated     // 200

  datatype DeleteResult = DeleteResult(table: Table, response: DeleteResponse)

  /** The ids the `SELECT ... FOR UPDATE` returns: requested, present, owned.
      Each row is returned once, however often its id is requested. */
  function LockedIds(t: Table, ownerId: UserId, ids: seq<FileId>): (locked: set<FileId>)
    ensures locked <= Elements(ids) && locked <= t.Keys
    ensures forall k :: k in locked ==> t[k].ownerId == ownerId
    ensures forall i :: 0 <= i < |ids| && ids[i] in t && t[ids[i]].ownerId == ownerId ==> ids[i] in locked
  {
    set k | k in ids && k in t && t[k].ownerId == ownerId
  }

  predicate AllOwned(t: Table, ownerId: UserId, ids: seq<FileId>)
  {
    forall i :: 0 <= i < |ids| ==> ids[i] in t && t[ids[i]].ownerId == ownerId
  }

  lemma LockedIdsSnoc(t: Table, ownerId: UserId, init: seq<FileId>, last: FileId)
    ensures LockedIds(t, ownerId, init + [last]) ==
      LockedIds(t, ownerId, init) + (if last in t && t[last].ownerId == ownerId then {last} else {})
  {
    assert forall k :: k in init + [last] <==> k in init || k == last;
  }

  lemma DistinctSnoc(init: seq<FileId>, last: FileId)
    ensures Distinct(init + [last]) <==> Distinct(init) && last !in init
  {
    var ids := init + [last];
    if last in init {
      var j :| 0 <= j < |init| && init[j] == last;
      assert ids[j] == ids[|init|];
    }
    if Distinct(ids) {
      forall i, j | 0 <= i < j < |init| ensures init[i] != init[j] {
        assert ids[i] == init[i] && ids[j] == init[j];
      }
    }
  }

  /** The locked rows are as many as the requested ids exactly when the ids
      are distinct and every one names a row of the owner's. */
  lemma {:induction false} LockedCount(t: Table, ownerId: UserId, ids: seq<FileId>)
    ensures |LockedIds(t, ownerId, ids)| <= |ids|
    ensures |LockedIds(t, ownerId, ids)| == |ids| <==> Distinct(ids) && AllOwned(t, ownerId, ids)
    decreases |ids|
  {
    if ids != [] {
      var n := |ids| - 1;
      var init, last := ids[..n], ids[n];
      assert ids == init + [last];
      LockedCount(t, ownerId, init);
      LockedIdsSnoc(t, ownerId, init, last);
      DistinctSnoc(init, last);
      assert AllOwned(t, ownerId, ids) <==> AllOwned(t, ownerId, init) && last in t && t[last].ownerId == ownerId;
      if last in init {
        assert last in LockedIds(t, ownerId, init) || !(last in t && t[last].ownerId == ownerId);
      }
    }
  }

  /** `updateMany` on (owner, requested ids): DELETING, whatever the status was. */
  function MarkDeleting(t: Table, ownerId: UserId, ids: seq<FileId>): (r: Table)
    ensures r.Keys == t.Keys
    ensures WellKeyed(t) ==> WellKeyed(r)
    ensures forall k :: k in t ==> r[k].(status := t[k].status) == t[k]
    ensures forall k :: k in t && !(k in ids && t[k].ownerId == ownerId) ==> r[k] == t[k]
    ensures forall k :: k in t ==> (r[k].status == Deleting <==> t[k].status == Deleting || (k in ids && t[k].ownerId == ownerId))
  {
    map k | k in t :: if k in ids && t[k].ownerId == ownerId then t[k].(status := Deleting) else t[k]
  }

  /** What the transaction of `handleFileDelete` leaves in the table and what
      the handler answers. */
  function DeleteOutcome(t: Table, caller: Option<UserId>, fileIds: Option<seq<FileId>>, txOk: bool): (d: DeleteResult)
    ensures d.response.DeleteUnauthorized? <==> !Authenticated(caller)
    ensures d.response.NoFileIdsProvided? <==> Authenticated(caller) && |Requested(fileIds)| == 0
    ensures d.response.DeleteFailed? <==> Authenticated(caller) && |Requested(fileIds)| > 0 && !txOk
    ensures d.table.Keys == t.Keys
    ensures !d.response.DeletionInitiated? ==> d.table == t
  {
    if !Authenticated(caller) then DeleteResult(t, DeleteUnauthorized)
    else if |Requested(fileIds)| == 0 then DeleteResult(t, NoFileIdsProvided)
    else if !txOk then DeleteResult(t, DeleteFailed)
    else if |LockedIds(t, caller.value, fileIds.value)| != |fileIds.value| then DeleteResult(t, PermissionDenied)
    else DeleteResult(MarkDeleting(t, caller.value, fileIds.value), DeletionInitiated)
  }

  /** 403 exactly when some requested id is unknown, someone else's, or
      repeated; then, as on every other refusal, no row changes. */
  lemma DeleteAllOrNothing(t: Table, caller: Option<UserId>, fileIds: Option<seq<FileId>>, txOk: bool)
    ensures var d := DeleteOutcome(t, caller, fileIds, txOk);
      && (d.response.PermissionDenied? <==>
            Authenticated(caller) && |Requested(fileIds)| > 0 && txOk
            && !(Distinct(fileIds.value) && AllOwned(t, caller.value, fileIds.value)))
      && (d.response.DeletionInitiated? <==>
            Authenticated(caller) && |Requested(fileIds)| > 0 && txOk
            && Distinct(fileIds.value) && AllOwned(t, caller.value, fileIds.value))
      && (!d.response.DeletionInitiated? ==> d.table == t)
  {
    if Authenticated(caller) && |Requested(fileIds)| > 0 {
      LockedCount(t, caller.value, fileIds.value);
    }
  }

  /** On success exactly the requested rows become DELETING, whatever their
      status was, and nothing else about any row changes. */
  lemma DeleteMarksExactlyRequested(t: Table, caller: Option<UserId>, fileIds: Option<seq<FileId>>, txOk: bool)
    requires DeleteOutcome(t, caller, fileIds, txOk).response.DeletionInitiated?
    ensures var d := DeleteOutcome(t, caller, fileIds, txOk);
      && d.table.Keys == t.Keys
      && (forall i :: 0 <= i < |fileIds.value| ==> fileIds.value[i] in t)
      && (forall k :: k in t && k in fileIds.value ==> d.table[k] == t[k].(status := Deleting))
      && (forall k :: k in t && k !in fileIds.value ==> d.table[k] == t[k])
  {
    DeleteAllOrNothing(t, caller, fileIds, txOk);
  }

  /** A row already DELETED goes back to DELETING when its owner deletes it again. */
  lemma DeleteReopensDeletedRecord(t: Table, owner: UserId, id: FileId)
    requires owner != "" && id in t && t[id].ownerId == owner && t[id].status == Deleted
    ensures var d := DeleteOutcome(t, Some(owner), Some([id]), true);
      d.response == DeletionInitiated && d.table[id].status == Deleting
  {
    assert LockedIds(t, owner, [id]) == {id};
  }

  /** Without an identity every owner-facing handler answers 401 and changes nothing. */
  lemma NoIdentityIsUnauthorized(t: Table, caller: Option<UserId>, fileId: FileId,
                                 files: Option<seq<FileRequest>>, ids: seq<FileId>,
                                 fileIds: Option<seq<FileId>>, now: Time, txOk: bool)
    requires WellKeyed(t) && |ids| == |Requested(files)|
    requires !Authenticated(caller)
    ensures GetAllFiles(t, caller) == ListUnauthorized
    ensures HandleFileView(t, caller, fileId) == ViewUnauthorized
    ensures UploadOutcome(t, caller, files, ids, now, txOk) == UploadResult(t, UploadUnauthorized)
    ensures DeleteOutcome(t, caller, fileIds, txOk) == DeleteResult(t, DeleteUnauthorized)
  {
  }
}
