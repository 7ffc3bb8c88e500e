/** The server's state and the handlers that change it. The `files` table is
    the one piece of state; each handler is a method of FileService whose
    postcondition ties the new table and the answer to the function of
    FileControllers or MinioControllers that describes that handler. The
    read-only handlers, getAllFiles and handleFileView, are the functions
    FileControllers.GetAllFiles and FileControllers.HandleFileView of the table. */
module Handlers {
  import opened FileModel
  import opened ObjectStorage
  import opened FileControllers
  import opened MinioControllers

  /** The upload transaction: one create per request, in request order,
      staged on a copy of the table that the caller commits. */
  method StageCreates(t: Table, owner: UserId, reqs: seq<FileRequest>, ids: seq<FileId>, now: Time)
    returns (created: seq<FileRecord>, staged: Table)
    requires |ids| == |reqs|
    ensures created == NewRecords(owner, reqs, ids, now)
    ensures staged == InsertAll(t, created)
  {
    staged := t;
    created := [];
    for i := 0 to |reqs|
      invariant created == NewRecords(owner, reqs[..i], ids[..i], now)
      invariant staged == InsertAll(t, created)
    {
      var record := NewRecord(ids[i], reqs[i], owner, now);
      staged := staged[record.id := record];
      assert NewRecords(owner, reqs[..i + 1], ids[..i + 1], now) == created + [record];
      created := created + [record];
      assert created[..i] == NewRecords(owner, reqs[..i], ids[..i], now);
    }
    assert reqs[..|reqs|] == reqs && ids[..|ids|] == ids;
  }

  /** After the upload commits: one write URL per created row, in creation order. */
  method PresignUploads(owner: UserId, created: seq<FileRecord>) returns (slots: seq<UploadSlot>)
    ensures slots == UploadSlots(owner, created)
  {
    slots := [];
    for i := 0 to |created|
      invariant slots == UploadSlots(owner, created[..i])
    {
      var f := created[i];
      slots := slots + [UploadSlot(f.id, f.filename, Presign(StorageKey(owner, f.id), Write))];
    }
    assert created[..|created|] == created;
  }

  class FileService {
    /** The `files` table. */
    var table: Table

    ghost predicate Valid()
      reads this
    {
      WellKeyed(table)
    }

    constructor (initial: Table)
      requires WellKeyed(initial)
      ensures Valid() && table == initial
    {
      table := initial;
    }

    /** `handleFileUpload`. The store assigns `ids` to the new rows and commits
        the transaction exactly when `txOk`. */
    method HandleFileUpload(caller: Option<UserId>, files: Option<seq<FileRequest>>, ids: seq<FileId>,
                            now: Time, txOk: bool) returns (r: UploadResponse)
      requires Valid() && FreshIds(table, ids) && |ids| == |Requested(files)|
      modifies this
      ensures Valid()
      ensures UploadResult(table, r) == UploadOutcome(old(table), caller, files, ids, now, txOk)
    {
      if !Authenticated(caller) {
        return UploadUnauthorized;
      }
      if files.None? || |files.value| == 0 {
        return NoFilesProvided;
      }
      if !txOk {
        return UploadFailed;
      }
      var owner := caller.value;
      var created, staged := StageCreates(table, owner, files.value, ids, now);
      table := staged;
      var slots := PresignUploads(owner, created);
      r := Uploaded(slots);
    }

    /** `handleFileDelete`. The store runs the transaction exactly when `txOk`;
        `objectDeleted(key)` says whether the object store accepts the delete
        of `key`. The answer does not depend on it. */
    method HandleFileDelete(caller: Option<UserId>, fileIds: Option<seq<FileId>>, txOk: bool,
                            objectDeleted: string -> bool) returns (r: DeleteResponse, attempts: seq<DeleteAttempt>)
      requires Valid()
      modifies this
      ensures Valid()
      ensures DeleteResult(table, r) == DeleteOutcome(old(table), caller, fileIds, txOk)
      ensures r.DeletionInitiated? ==>
        && |attempts| == |fileIds.value|
        && forall i :: 0 <= i < |attempts| ==>
             var key := StorageKey(caller.value, fileIds.value[i]);
             attempts[i] == DeleteAttempt(key, objectDeleted(key))
      ensures !r.DeletionInitiated? ==> attempts == []
    {
      attempts := [];
      if !Authenticated(caller) {
        return DeleteUnauthorized, [];
      }
      if fileIds.None? || |fileIds.value| == 0 {
        return NoFileIdsProvided, [];
      }
      if !txOk {
        return DeleteFailed, [];
      }
      var owner, ids := caller.value, fileIds.value;
      // The transaction: lock the caller's requested rows, compare counts, mark DELETING.
      var lockedCount := |LockedIds(table, owner, ids)|;
      if lockedCount != |ids| {
        return PermissionDenied, [];
      }
      LockedCount(table, owner, ids);
      var t := table;
      var rows := seq(|ids|, i requires 0 <= i < |ids| => Locked(t[ids[i]]));
      assert forall i :: 0 <= i < |ids| ==> rows[i] == LockedFileRow(ids[i], owner);
      table := MarkDeleting(table, owner, ids);
      // After the commit: one best-effort delete per locked row; a failure is only logged.
      for i := 0 to |rows|
        invariant |attempts| == i
        invariant forall j :: 0 <= j < i ==>
          attempts[j] == DeleteAttempt(StorageKey(owner, ids[j]), objectDeleted(StorageKey(owner, ids[j])))
      {
        var key := StorageKey(rows[i].ownerId, rows[i].id);
        attempts := attempts + [DeleteAttempt(key, objectDeleted(key))];
      }
      r := DeletionInitiated;
    }

    /** The creation handler's `updateMany`: the row `fileId`, if PENDING,
        becomes AVAILABLE with the reported size. */
    method MarkAvailableIfPending(fileId: FileId, size: int, now: Time) returns (count: nat)
      requires Valid()
      modifies this
      ensures Valid()
      ensures Update(table, count) == UpdateIfPending(old(table), fileId, size, now)
    {
      if fileId in table && table[fileId].status == Pending {
        table := table[fileId := table[fileId].(status := Available, size := Some(size), completedAt := Some(now))];
        count := 1;
      } else {
        count := 0;
      }
    }

    /** The removal handler's `updateMany`: the row `fileId`, unless DELETED,
        becomes DELETED. */
    method MarkDeletedUnlessDeleted(fileId: FileId, now: Time) returns (count: nat)
      requires Valid()
      modifies this
      ensures Valid()
      ensures Update(table, count) == UpdateUnlessDeleted(old(table), fileId, now)
    {
      if fileId in table && table[fileId].status != Deleted {
        table := table[fileId := table[fileId].(status := Deleted, deletedAt := Some(now))];
        count := 1;
      } else {
        count := 0;
      }
    }

    /** `objectCreationHandler`. The store fails the update of record `i`
        exactly when `i in faults`. */
    method ObjectCreationHandler(payload: Option<seq<MinioRecord>>, now: Time, faults: set<nat>)
      returns (outcome: HandlerOutcome)
      requires Valid()
      modifies this
      ensures Valid()
      ensures HandlerResult(table, outcome) == Handler(ObjectCreated, old(table), payload, now, faults)
    {
      if payload.None? {
        return InvalidPayload;
      }
      var records := payload.value;
      for i := 0 to |records|
        invariant Valid()
        invariant Pass(ObjectCreated, old(table), records[..i], now, faults) == PassOutcome(table, None)
      {
        var record := records[i];
        assert records[..i + 1][..i] == records[..i];
        if !(ObjectCreatedPrefix <= record.eventName) {
          continue;
        }
        if i in faults {
          PassErrorIsFinal(ObjectCreated, old(table), records, i + 1, now, faults);
          return StoreError(i);
        }
        var fileId := FileIdFromKey(record.key);
        var count := MarkAvailableIfPending(fileId, record.size, now);
        // No matching row is only a warning: a redelivery, or no PENDING row.
      }
      assert records[..|records|] == records;
      outcome := Completed;
    }

    /** `objectDeletionHandler`. The store fails the update of record `i`
        exactly when `i in faults`. */
    method ObjectDeletionHandler(payload: Option<seq<MinioRecord>>, now: Time, faults: set<nat>)
      returns (outcome: HandlerOutcome)
      requires Valid()
      modifies this
      ensures Valid()
      ensures HandlerResult(table, outcome) == Handler(ObjectRemoved, old(table), payload, now, faults)
    {
      if payload.None? {
        return InvalidPayload;
      }
      var records := payload.value;
      for i := 0 to |records|
        invariant Valid()
        invariant Pass(ObjectRemoved, old(table), records[..i], now, faults) == PassOutcome(table, None)
      {
        var record := records[i];
        assert records[..i + 1][..i] == records[..i];
        if !(ObjectRemovedPrefix <= record.eventName) {
          continue;
        }
        if i in faults {
          PassErrorIsFinal(ObjectRemoved, old(table), records, i + 1, now, faults);
          return StoreError(i);
        }
        var fileId := FileIdFromKey(record.key);
        var count := MarkDeletedUnlessDeleted(fileId, now);
        // No matching row is only a warning: a redelivery, or the row is already DELETED.
      }
      assert records[..|records|] == records;
      outcome := Completed;
    }

    /** `handleMinIOWebhook`: creation events first, then removal events. */
    method HandleMinIOWebhook(payload: Option<seq<MinioRecord>>, now: Time,
                              createFaults: set<nat>, removeFaults: set<nat>) returns (response: WebhookResponse)
      requires Valid()
      modifies this
      ensures Valid()
      ensures WebhookResult(table, response) == Webhook(old(table), payload, now, createFaults, removeFaults)
    {
      if payload.None? {
        return WebhookInvalidPayload;
      }
      var records := payload.value;
      var hasCreationEvents := HasEvents(ObjectCreated, records);
      var hasDeletionEvents := HasEvents(ObjectRemoved, records);
      if hasCreationEvents {
        var outcome := ObjectCreationHandler(payload, now, createFaults);
        if outcome != Completed {
          return WebhookFailed;
        }
      }
      if hasDeletionEvents {
        var outcome := ObjectDeletionHandler(payload, now, removeFaults);
        if outcome != Completed {
          return WebhookFailed;
        }
      }
      response := WebhookProcessed;
    }
  }
}
