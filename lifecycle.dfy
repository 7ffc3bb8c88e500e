/** A file's life across the two controllers: the owner's upload creates a
    PENDING row, the object store's creation notice makes it AVAILABLE and
    listed, the owner's delete marks it DELETING, and the store's removal
    notice makes it DELETED. */
module Lifecycle {
  import opened FileModel
  import opened ObjectStorage
  import opened FileControllers
  import opened MinioControllers

  /** The notification the object store sends for one object key. */
  function Notice(eventName: string, bucket: string, key: string, size: int, eTag: string): seq<MinioRecord>
  {
    [MinioRecord(eventName, bucket, key, size, eTag)]
  }

  /** A webhook carrying one event applies that event's update and nothing else. */
  lemma SingleEventWebhook(kind: EventKind, t: Table, r: MinioRecord, now: Time)
    requires Matches(kind, r)
    ensures Webhook(t, Some([r]), now, {}, {}) == WebhookResult(ApplyEvent(kind, t, r, now).table, WebhookProcessed)
  {
    KindsExclusive(r);
    assert [r][..0] == [];
    assert Pass(kind, t, [r], now, {}) == PassOutcome(ApplyEvent(kind, t, r, now).table, None);
    match kind
    case ObjectCreated =>
      assert !HasEvents(ObjectRemoved, [r]);
    case ObjectRemoved =>
      assert !HasEvents(ObjectCreated, [r]);
  }

  /** The row an upload creates for request `i`, and the key of its write URL. */
  lemma UploadedRow(t: Table, owner: UserId, reqs: seq<FileRequest>, ids: seq<FileId>, now: Time, i: nat)
    requires WellKeyed(t) && FreshIds(t, ids) && |ids| == |reqs| && owner != "" && i < |reqs|
    ensures var u := UploadOutcome(t, Some(owner), Some(reqs), ids, now, true);
      && u.response.Uploaded? && i < |u.response.slots|
      && u.response.slots[i].uploadUrl.key == StorageKey(owner, ids[i])
      && WellKeyed(u.table) && ids[i] in u.table
      && u.table[ids[i]] == FileRecord(ids[i], reqs[i].filename, reqs[i].contentType, Some(reqs[i].size),
                                       owner, now, None, None, Pending)
  {
    var created := NewRecords(owner, reqs, ids, now);
    var u := UploadOutcome(t, Some(owner), Some(reqs), ids, now, true);
    assert u == UploadResult(InsertAll(t, created), Uploaded(UploadSlots(owner, created)));
    assert created[i].id == ids[i];
    InsertNewRecords(t, owner, reqs, ids, now);
  }

  /** After an upload, the creation notice for one of the write keys it
      handed out makes that row AVAILABLE with the reported size, and the
      row is then in its owner's listing. */
  lemma UploadedFileBecomesListed(t: Table, owner: UserId, reqs: seq<FileRequest>, ids: seq<FileId>,
                                  now: Time, i: nat, bucket: string, size: int, eTag: string, later: Time)
    requires WellKeyed(t) && FreshIds(t, ids) && |ids| == |reqs| && owner != ""
    requires i < |reqs| && '/' !in ids[i]
    ensures var u := UploadOutcome(t, Some(owner), Some(reqs), ids, now, true);
      var key := u.response.slots[i].uploadUrl.key;
      var w := Webhook(u.table, Some(Notice("s3:ObjectCreated:Put", bucket, key, size, eTag)), later, {}, {});
      && w.response == WebhookProcessed
      && ids[i] in w.table
      && w.table[ids[i]] == FileRecord(ids[i], reqs[i].filename, reqs[i].contentType, Some(size),
                                       owner, now, Some(later), None, Available)
      && w.table[ids[i]] in GetAllFiles(w.table, Some(owner)).files
  {
    UploadedRow(t, owner, reqs, ids, now, i);
    var u := UploadOutcome(t, Some(owner), Some(reqs), ids, now, true);
    CreationNoticeListsRow(u.table, owner, ids[i], bucket, size, eTag, later);
  }

  /** The creation notice for a PENDING row's key makes it AVAILABLE and listed. */
  lemma CreationNoticeListsRow(t: Table, owner: UserId, id: FileId, bucket: string, size: int, eTag: string, later: Time)
    requires WellKeyed(t) && owner != "" && '/' !in id
    requires id in t && t[id].ownerId == owner && t[id].status == Pending
    ensures var w := Webhook(t, Some(Notice("s3:ObjectCreated:Put", bucket, StorageKey(owner, id), size, eTag)), later, {}, {});
      && w.response == WebhookProcessed
      && w.table == t[id := t[id].(status := Available, size := Some(size), completedAt := Some(later))]
      && w.table[id] in GetAllFiles(w.table, Some(owner)).files
  {
    var recs := Notice("s3:ObjectCreated:Put", bucket, StorageKey(owner, id), size, eTag);
    FileIdOfStorageKey(owner, id);
    SingleEventWebhook(ObjectCreated, t, recs[0], later);
  }

  /** After its owner deletes an AVAILABLE row, the row is DELETING and out
      of the listing; the removal notice for its key then makes it DELETED. */
  lemma DeletedFileLeavesListing(t: Table, owner: UserId, id: FileId, bucket: string, eTag: string, later: Time)
    requires WellKeyed(t) && owner != "" && '/' !in id
    requires id in t && t[id].ownerId == owner && t[id].status == Available
    ensures var d := DeleteOutcome(t, Some(owner), Some([id]), true);
      var w := Webhook(d.table, Some(Notice("s3:ObjectRemoved:Delete", bucket, StorageKey(owner, id), 0, eTag)), later, {}, {});
      && d.response == DeletionInitiated
      && d.table[id] == t[id].(status := Deleting)
      && t[id] in GetAllFiles(t, Some(owner)).files
      && d.table[id] !in GetAllFiles(d.table, Some(owner)).files
      && w.response == WebhookProcessed
      && w.table[id] == t[id].(status := Deleted, deletedAt := Some(later))
  {
    assert LockedIds(t, owner, [id]) == {id};
    var d := DeleteOutcome(t, Some(owner), Some([id]), true);
    var recs := Notice("s3:ObjectRemoved:Delete", bucket, StorageKey(owner, id), 0, eTag);
    FileIdOfStorageKey(owner, id);
    SingleEventWebhook(ObjectRemoved, d.table, recs[0], later);
  }
}
